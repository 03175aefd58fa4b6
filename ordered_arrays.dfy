/** PHP's ordered array with string keys: a map from keys to values together with
    the order in which the keys were first inserted. Assigning to a present key
    replaces its value where it stands; assigning to a new key appends it. */
module OrderedArrays {

  datatype OrderedMap<V> = OrderedMap(keys: seq<string>, values: map<string, V>)

  /** No key occurs twice in `ks`. */
  ghost predicate Distinct(ks: seq<string>) {
    forall i, j :: 0 <= i < j < |ks| ==> ks[i] != ks[j]
  }

  /** Dropping the first key of a distinct sequence leaves a distinct sequence
      that no longer contains it. */
  lemma DistinctTail(ks: seq<string>)
    requires Distinct(ks) && ks != []
    ensures Distinct(ks[1..]) && ks[0] !in ks[1..]
  {
    forall j | 0 <= j < |ks[1..]| ensures ks[1..][j] != ks[0] {
      assert ks[1..][j] == ks[j + 1];
    }
  }

  /** Prefixes of prefixes are prefixes. */
  lemma PrefixTransitive(a: seq<string>, b: seq<string>, c: seq<string>)
    requires a <= b && b <= c
    ensures a <= c
  {
    assert b[..|a|] == a && c[..|b|] == b;
  }

  /** The key order lists every key of the map exactly once, and nothing else. */
  ghost predicate Valid<V>(m: OrderedMap<V>) {
    && Distinct(m.keys)
    && (forall k :: k in m.values <==> k in m.keys)
  }

  /** `[]`: the empty array. */
  function Empty<V>(): OrderedMap<V> {
    OrderedMap([], map[])
  }

  /** `$a[$k] = $v`: the value is stored under the key, which keeps its place
      when present and is appended otherwise. */
  function Put<V>(m: OrderedMap<V>, k: string, v: V): (r: OrderedMap<V>)
    ensures r.values == m.values[k := v]
    ensures r.keys == if k in m.values then m.keys else m.keys + [k]
  {
    var keys := if k in m.values then m.keys else m.keys + [k];
    OrderedMap(keys, m.values[k := v])
  }

  /** `$a[$k] += $d` on a present key: the value grows by `d` where it stands. */
  function Add(m: OrderedMap<int>, k: string, d: int): (r: OrderedMap<int>)
    requires k in m.values
    ensures r.keys == m.keys
    ensures r.values == m.values[k := m.values[k] + d]
  {
    Put(m, k, m.values[k] + d)
  }

  /** Assignment keeps the key order consistent with the map: no key is listed
      twice and every key is listed. */
  lemma PutValid<V>(m: OrderedMap<V>, k: string, v: V)
    requires Valid(m)
    ensures Valid(Put(m, k, v))
  {
    if k !in m.values {
      var ks := m.keys + [k];
      forall i, j | 0 <= i < j < |ks| ensures ks[i] != ks[j] {
        if j == |m.keys| {
          assert m.keys[i] in m.keys;
        }
      }
    }
  }

  /** What assignment promises: the key holds the new value, every other key
      keeps its presence and its value, the old key order is kept as a prefix,
      and a new key is added at the end, once. */
  lemma PutAssigns<V>(m: OrderedMap<V>, k: string, v: V)
    ensures var r := Put(m, k, v);
      && k in r.values && r.values[k] == v
      && (forall j :: j != k ==> (j in r.values <==> j in m.values))
      && (forall j :: j != k && j in m.values ==> r.values[j] == m.values[j])
      && m.keys <= r.keys
      && |r.keys| == |m.keys| + (if k in m.values then 0 else 1)
      && (k !in m.values ==> r.keys[|m.keys|] == k)
      && (Valid(m) ==> Valid(r))
  {
    if Valid(m) {
      PutValid(m, k, v);
    }
  }

  /** The sum of the values stored under the keys `ks`. */
  function ValueSum(ks: seq<string>, values: map<string, int>): int
    requires forall k :: k in ks ==> k in values
  {
    if ks == [] then 0 else values[ks[0]] + ValueSum(ks[1..], values)
  }
}
