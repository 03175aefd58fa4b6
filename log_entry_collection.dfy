/** The aggregation layer over parsed log entries: loading the parser's tuples,
    filtering by level, per-level statistics, the statistics tree and the page
    window. The collection is a finite sequence of entries in parser order. */
module LogEntryCollection {
  import opened OrderedArrays

  /** One tuple as the parser yields it: (level, header, stack). */
  type ParsedEntry = (string, string, string)

  datatype LogEntry = LogEntry(level: string, header: string, stack: string)

  /** The synthetic counter that totals every level. */
  const All: string := "all"

  /** The tuple a log entry was built from. */
  function Fields(e: LogEntry): ParsedEntry {
    (e.level, e.header, e.stack)
  }

  /** The set of levels carried by some entry. */
  function LevelsOf(entries: seq<LogEntry>): set<string> {
    set e | e in entries :: e.level
  }

  // ---------------------------------------------------------------------------
  // load

  /** Wraps every parsed tuple into a log entry, one per tuple, in parser order,
      taking level, header and stack positionally. */
  method Load(parsed: seq<ParsedEntry>) returns (entries: seq<LogEntry>)
    ensures |entries| == |parsed|
    ensures forall i :: 0 <= i < |parsed| ==> Fields(entries[i]) == parsed[i]
  {
    entries := [];
    for i := 0 to |parsed|
      invariant |entries| == i
      invariant forall j :: 0 <= j < i ==> Fields(entries[j]) == parsed[j]
    {
      var (level, header, stack) := parsed[i];
      entries := entries + [LogEntry(level, header, stack)];
    }
  }

  // ---------------------------------------------------------------------------
  // filterByLevel

  /** The entries for which `isSameLevel(entry, level)` holds, in collection order. */
  function FilterByLevel(entries: seq<LogEntry>, level: string, isSameLevel: (LogEntry, string) -> bool)
    : (r: seq<LogEntry>)
    ensures |r| <= |entries|
  {
    if entries == [] then []
    else
      var rest := FilterByLevel(entries[1..], level, isSameLevel);
      if isSameLevel(entries[0], level) then [entries[0]] + rest else rest
  }

  /** The negation of a level-matching predicate. */
  function Complement(isSameLevel: (LogEntry, string) -> bool): (LogEntry, string) -> bool {
    (e: LogEntry, l: string) => !isSameLevel(e, l)
  }

  /** `r` is obtained from `s` by deleting elements, keeping the order of the rest. */
  ghost predicate IsSubsequence<T>(r: seq<T>, s: seq<T>)
    decreases |s|
  {
    if r == [] then true
    else if s == [] then false
    else (r[0] == s[0] && IsSubsequence(r[1..], s[1..])) || IsSubsequence(r, s[1..])
  }

  /** The filter keeps exactly the entries that match, as often as they occur in
      the collection, and keeps them in collection order. */
  lemma {:induction false} FilterByLevelExact(entries: seq<LogEntry>, level: string, isSameLevel: (LogEntry, string) -> bool)
    ensures var r := FilterByLevel(entries, level, isSameLevel);
      && IsSubsequence(r, entries)
      && forall e :: multiset(r)[e] == if isSameLevel(e, level) then multiset(entries)[e] else 0
  {
    if entries != [] {
      var r := FilterByLevel(entries, level, isSameLevel);
      var rest := FilterByLevel(entries[1..], level, isSameLevel);
      FilterByLevelExact(entries[1..], level, isSameLevel);
      assert entries == [entries[0]] + entries[1..];
      if isSameLevel(entries[0], level) {
        assert r[0] == entries[0] && r[1..] == rest;
      } else {
        assert r == rest;
      }
    }
  }

  /** Every entry the filter yields matches, and every matching entry is
      yielded; so an unknown level yields nothing. */
  lemma FilterByLevelMembers(entries: seq<LogEntry>, level: string, isSameLevel: (LogEntry, string) -> bool)
    ensures var r := FilterByLevel(entries, level, isSameLevel);
      forall e :: e in r <==> e in entries && isSameLevel(e, level)
  {
    FilterByLevelExact(entries, level, isSameLevel);
  }

  /** The entries kept by a level filter and those kept by its complement together
      make up the whole collection. */
  lemma {:induction false} FilterPartition(entries: seq<LogEntry>, level: string, isSameLevel: (LogEntry, string) -> bool)
    ensures |FilterByLevel(entries, level, isSameLevel)| + |FilterByLevel(entries, level, Complement(isSameLevel))|
            == |entries|
    ensures multiset(FilterByLevel(entries, level, isSameLevel))
            + multiset(FilterByLevel(entries, level, Complement(isSameLevel)))
            == multiset(entries)
  {
    if entries != [] {
      FilterPartition(entries[1..], level, isSameLevel);
      assert entries == [entries[0]] + entries[1..];
    }
  }

  // ---------------------------------------------------------------------------
  // groupBy('level')

  /** Exact equality of an entry's level with a level key. */
  predicate HasLevel(e: LogEntry, level: string) {
    e.level == level
  }

  /** The entries whose level is exactly `level`, in collection order. */
  function Group(entries: seq<LogEntry>, level: string): seq<LogEntry> {
    FilterByLevel(entries, level, HasLevel)
  }

  /** Splitting off the first entry of a level's group. */
  lemma GroupCons(entries: seq<LogEntry>, level: string)
    requires entries != []
    ensures Group(entries, level)
            == (if entries[0].level == level then [entries[0]] else []) + Group(entries[1..], level)
  {
    assert HasLevel(entries[0], level) == (entries[0].level == level);
  }

  lemma GroupEmptyIffAbsent(entries: seq<LogEntry>, level: string)
    ensures Group(entries, level) == [] <==> level !in LevelsOf(entries)
  {
    FilterByLevelMembers(entries, level, HasLevel);
    var r := Group(entries, level);
    if level in LevelsOf(entries) {
      var e :| e in entries && e.level == level;
      assert HasLevel(e, level);
    }
    if r != [] {
      assert r[0] in r;
    }
  }

  /** `$results[$entry->level][] = $entry`: the entry joins the group of its
      level, and a level seen for the first time is appended as a new group. */
  function AddToGroup(groups: OrderedMap<seq<LogEntry>>, e: LogEntry): OrderedMap<seq<LogEntry>> {
    var group := if e.level in groups.values then groups.values[e.level] else [];
    Put(groups, e.level, group + [e])
  }

  function GroupInto(groups: OrderedMap<seq<LogEntry>>, entries: seq<LogEntry>): OrderedMap<seq<LogEntry>>
    decreases |entries|
  {
    if entries == [] then groups else GroupInto(AddToGroup(groups, entries[0]), entries[1..])
  }

  /** `groupBy('level')`: the collection grouped by level, groups in order of
      first appearance. */
  function GroupByLevel(entries: seq<LogEntry>): OrderedMap<seq<LogEntry>> {
    GroupInto(Empty(), entries)
  }

  lemma {:induction false} GroupIntoValid(groups: OrderedMap<seq<LogEntry>>, entries: seq<LogEntry>)
    requires Valid(groups)
    ensures Valid(GroupInto(groups, entries))
    decreases |entries|
  {
    if entries != [] {
      var e := entries[0];
      PutValid(groups, e.level, (if e.level in groups.values then groups.values[e.level] else []) + [e]);
      GroupIntoValid(AddToGroup(groups, e), entries[1..]);
    }
  }

  lemma {:induction false} GroupIntoKeys(groups: OrderedMap<seq<LogEntry>>, entries: seq<LogEntry>)
    ensures var r := GroupInto(groups, entries);
      && groups.keys <= r.keys
      && forall l :: l in r.values <==> l in groups.values || l in LevelsOf(entries)
    decreases |entries|
  {
    if entries != [] {
      var next := AddToGroup(groups, entries[0]);
      GroupIntoKeys(next, entries[1..]);
      PrefixTransitive(groups.keys, next.keys, GroupInto(next, entries[1..]).keys);
      assert LevelsOf(entries) == {entries[0].level} + LevelsOf(entries[1..]) by {
        assert entries == [entries[0]] + entries[1..];
      }
    }
  }

  lemma {:induction false} GroupIntoValues(groups: OrderedMap<seq<LogEntry>>, entries: seq<LogEntry>, l: string)
    requires l in GroupInto(groups, entries).values
    ensures GroupInto(groups, entries).values[l]
            == (if l in groups.values then groups.values[l] else []) + Group(entries, l)
    decreases |entries|
  {
    if entries != [] {
      var e := entries[0];
      var next := AddToGroup(groups, e);
      assert GroupInto(groups, entries) == GroupInto(next, entries[1..]);
      GroupIntoValues(next, entries[1..], l);
      GroupCons(entries, l);
      var before := if l in groups.values then groups.values[l] else [];
      if l == e.level {
        assert next.values[l] == before + [e];
        assert (before + [e]) + Group(entries[1..], l) == before + ([e] + Group(entries[1..], l));
      } else {
        assert (if l in next.values then next.values[l] else []) == before;
      }
    }
  }

  /** Every key in the group order has a group. */
  lemma GroupByLevelKeys(entries: seq<LogEntry>)
    ensures forall l :: l in GroupByLevel(entries).keys ==> l in GroupByLevel(entries).values
  {
    GroupIntoValid(Empty(), entries);
  }

  /** Each group holds exactly the entries of its level, in collection order, and
      there is a group for every level that occurs and for no other. */
  lemma GroupByLevelContents(entries: seq<LogEntry>)
    ensures Valid(GroupByLevel(entries))
    ensures forall l :: l in GroupByLevel(entries).values <==> l in LevelsOf(entries)
    ensures forall l :: l in GroupByLevel(entries).values ==> GroupByLevel(entries).values[l] == Group(entries, l)
  {
    GroupIntoValid(Empty(), entries);
    GroupIntoKeys(Empty(), entries);
    forall l | l in GroupByLevel(entries).values
      ensures GroupByLevel(entries).values[l] == Group(entries, l)
    {
      GroupIntoValues(Empty(), entries, l);
    }
  }

  /** Grouping a concatenation groups the second part on top of the first. */
  lemma {:induction false} GroupIntoAppend(groups: OrderedMap<seq<LogEntry>>, a: seq<LogEntry>, b: seq<LogEntry>)
    ensures GroupInto(groups, a + b) == GroupInto(GroupInto(groups, a), b)
    decreases |a|
  {
    if a == [] {
      assert a + b == b;
    } else {
      assert (a + b)[0] == a[0] && (a + b)[1..] == a[1..] + b;
      GroupIntoAppend(AddToGroup(groups, a[0]), a[1..], b);
    }
  }

  /** The group keys of every prefix of the collection are a prefix of its group
      keys: a level takes its place when it is first met and keeps it. */
  lemma GroupByLevelOrder(entries: seq<LogEntry>, n: nat)
    requires n <= |entries|
    ensures GroupByLevel(entries[..n]).keys <= GroupByLevel(entries).keys
  {
    assert entries == entries[..n] + entries[n..];
    GroupIntoAppend(Empty(), entries[..n], entries[n..]);
    GroupIntoKeys(GroupByLevel(entries[..n]), entries[n..]);
  }

  /** Groups come in order of first appearance: when entry `q` is the first of
      its level and entry `p` comes before it, the group of `p`'s level comes
      before the group of `q`'s level. */
  lemma GroupByLevelFirstAppearance(entries: seq<LogEntry>, p: nat, q: nat)
    requires p < q < |entries|
    requires forall r :: 0 <= r < q ==> entries[r].level != entries[q].level
    ensures var ks := GroupByLevel(entries).keys;
      forall i, j :: 0 <= i < |ks| && 0 <= j < |ks| && ks[i] == entries[p].level && ks[j] == entries[q].level ==> i < j
  {
    var ks := GroupByLevel(entries).keys;
    var prefix := GroupByLevel(entries[..q]);
    GroupByLevelOrder(entries, q);
    GroupByLevelContents(entries);
    GroupByLevelContents(entries[..q]);
    assert entries[..q][p] == entries[p];
    assert entries[p].level in LevelsOf(entries[..q]);
    assert entries[q].level !in LevelsOf(entries[..q]);
    var i' :| 0 <= i' < |prefix.keys| && prefix.keys[i'] == entries[p].level;
    assert entries[q].level !in prefix.keys;
    forall i, j | 0 <= i < |ks| && 0 <= j < |ks| && ks[i] == entries[p].level && ks[j] == entries[q].level
      ensures i < j
    {
      assert ks[i'] == ks[i];
    }
  }

  // ---------------------------------------------------------------------------
  // initStats

  /** Stores 0 under each name, in order. */
  function Seed(counters: OrderedMap<int>, names: seq<string>): OrderedMap<int>
    decreases |names|
  {
    if names == [] then counters else Seed(Put(counters, names[0], 0), names[1..])
  }

  /** The zeroed counters: `'all'` first, then every configured level. */
  function InitStats(levels: seq<string>): OrderedMap<int> {
    Seed(Put(Empty(), All, 0), levels)
  }

  /** Seeding never drops a key. */
  lemma {:induction false} SeedKeeps(counters: OrderedMap<int>, names: seq<string>, k: string)
    requires k in counters.values
    ensures k in Seed(counters, names).values
    decreases |names|
  {
    if names != [] {
      SeedKeeps(Put(counters, names[0], 0), names[1..], k);
    }
  }

  lemma {:induction false} SeedContents(counters: OrderedMap<int>, names: seq<string>)
    ensures var r := Seed(counters, names);
      && counters.keys <= r.keys
      && (forall k :: k in r.values <==> k in counters.values || k in names)
      && (forall k :: k in r.values && k !in names ==> r.values[k] == counters.values[k])
      && (forall k :: k in names ==> r.values[k] == 0)
    decreases |names|
  {
    if names != [] {
      var next := Put(counters, names[0], 0);
      SeedContents(next, names[1..]);
      PrefixTransitive(counters.keys, next.keys, Seed(next, names[1..]).keys);
      assert names == [names[0]] + names[1..];
    }
  }

  lemma {:induction false} SeedValid(counters: OrderedMap<int>, names: seq<string>)
    requires Valid(counters)
    ensures Valid(Seed(counters, names))
    decreases |names|
  {
    if names != [] {
      PutValid(counters, names[0], 0);
      SeedValid(Put(counters, names[0], 0), names[1..]);
    }
  }

  /** The counters start with `'all'`, hold exactly `'all'` and the configured
      levels, each at 0, and list every key once. */
  lemma InitStatsContents(levels: seq<string>)
    ensures var r := InitStats(levels);
      && Valid(r)
      && r.keys != [] && r.keys[0] == All
      && (forall k :: k in r.values <==> k == All || k in levels)
      && (forall k :: k in r.values ==> r.values[k] == 0)
  {
    var start := Put(Empty<int>(), All, 0);
    PutValid(Empty<int>(), All, 0);
    SeedValid(start, levels);
    SeedContents(start, levels);
  }

  lemma {:induction false} SeedAppends(counters: OrderedMap<int>, names: seq<string>)
    requires Distinct(names)
    requires forall k :: k in names ==> k !in counters.values
    ensures Seed(counters, names).keys == counters.keys + names
    decreases |names|
  {
    if names != [] {
      var next := Put(counters, names[0], 0);
      DistinctTail(names);
      forall k | k in names[1..] ensures k !in next.values {
        assert k in names;
      }
      SeedAppends(next, names[1..]);
      assert counters.keys + [names[0]] + names[1..] == counters.keys + names;
    }
  }

  /** With distinct configured levels none of which is `'all'` (as the keys of
      a PHP array are), the counter keys are exactly `'all'` followed by the
      levels in their configured order. */
  lemma InitStatsOrder(levels: seq<string>)
    requires Distinct(levels) && All !in levels
    ensures InitStats(levels).keys == [All] + levels
  {
    SeedAppends(Put(Empty(), All, 0), levels);
  }

  // ---------------------------------------------------------------------------
  // stats

  /** One pass of the loop of `stats`: the level's counter is set to the size of
      its group, and that size is added to the `'all'` counter. */
  function Step(counters: OrderedMap<int>, level: string, count: int): (r: OrderedMap<int>)
    requires All in counters.values
    ensures All in r.values
  {
    Add(Put(counters, level, count), All, count)
  }

  /** The loop of `stats` over the group keys `ks`. */
  function Tally(counters: OrderedMap<int>, ks: seq<string>, groups: map<string, seq<LogEntry>>): (r: OrderedMap<int>)
    requires All in counters.values
    requires forall k :: k in ks ==> k in groups
    ensures All in r.values
    decreases |ks|
  {
    if ks == [] then counters else Tally(Step(counters, ks[0], |groups[ks[0]]|), ks[1..], groups)
  }

  /** One unfolding of the loop, with its body written out. */
  lemma TallyStep(counters: OrderedMap<int>, ks: seq<string>, groups: map<string, seq<LogEntry>>)
    requires All in counters.values
    requires forall k :: k in ks ==> k in groups
    requires ks != []
    ensures Tally(counters, ks, groups) == Tally(Step(counters, ks[0], |groups[ks[0]]|), ks[1..], groups)
  {
  }

  /** The counters `stats` returns. */
  function StatsOf(levels: seq<string>, entries: seq<LogEntry>): (r: OrderedMap<int>)
    ensures All in r.values
  {
    var groups := GroupByLevel(entries);
    GroupByLevelKeys(entries);
    SeedKeeps(Put(Empty(), All, 0), levels, All);
    Tally(InitStats(levels), groups.keys, groups.values)
  }

  /** `stats()`: one pass over the groups, setting each level's counter and
      adding it to `'all'`. */
  method Stats(levels: seq<string>, entries: seq<LogEntry>) returns (counters: OrderedMap<int>)
    ensures counters == StatsOf(levels, entries)
  {
    counters := InitStats(levels);
    SeedKeeps(Put(Empty(), All, 0), levels, All);
    var groups := GroupByLevel(entries);
    GroupByLevelKeys(entries);
    ghost var result := Tally(counters, groups.keys, groups.values);
    var rest := groups.keys;
    while rest != []
      invariant All in counters.values
      invariant forall k :: k in rest ==> k in groups.values
      invariant Tally(counters, rest, groups.values) == result
    {
      var level := rest[0];
      var count := |groups.values[level]|;
      TallyStep(counters, rest, groups.values);
      counters := Put(counters, level, count);
      counters := Add(counters, All, count);
      rest := rest[1..];
    }
  }

  lemma {:induction false} TallyValid(counters: OrderedMap<int>, ks: seq<string>, groups: map<string, seq<LogEntry>>)
    requires Valid(counters) && All in counters.values
    requires forall k :: k in ks ==> k in groups
    ensures Valid(Tally(counters, ks, groups))
    decreases |ks|
  {
    if ks != [] {
      var count := |groups[ks[0]]|;
      var c := Put(counters, ks[0], count);
      var next := Step(counters, ks[0], count);
      PutValid(counters, ks[0], count);
      PutValid(c, All, c.values[All] + count);
      TallyStep(counters, ks, groups);
      TallyValid(next, ks[1..], groups);
    }
  }

  lemma StatsValid(levels: seq<string>, entries: seq<LogEntry>)
    ensures Valid(StatsOf(levels, entries))
  {
    var groups := GroupByLevel(entries);
    GroupIntoValid(Empty(), entries);
    InitStatsContents(levels);
    TallyValid(InitStats(levels), groups.keys, groups.values);
  }

  /** Every key in the counter order has a counter. */
  lemma StatsKeysPresent(levels: seq<string>, entries: seq<LogEntry>)
    ensures var r := StatsOf(levels, entries);
      forall j :: 0 <= j < |r.keys| ==> r.keys[j] in r.values
  {
    StatsValid(levels, entries);
  }

  /** One pass keeps every key in place, sets the level's counter and adds the
      count to `'all'`, which a level named `'all'` sets first. */
  lemma StepShape(counters: OrderedMap<int>, level: string, count: int)
    requires All in counters.values
    ensures counters.keys <= Step(counters, level, count).keys
    ensures Step(counters, level, count).values
            == counters.values[level := count][All := (if level == All then count else counters.values[All]) + count]
  {
  }

  lemma {:induction false} TallyPrefix(counters: OrderedMap<int>, ks: seq<string>, groups: map<string, seq<LogEntry>>)
    requires All in counters.values
    requires forall k :: k in ks ==> k in groups
    ensures counters.keys <= Tally(counters, ks, groups).keys
    decreases |ks|
  {
    if ks != [] {
      var next := Step(counters, ks[0], |groups[ks[0]]|);
      TallyStep(counters, ks, groups);
      StepShape(counters, ks[0], |groups[ks[0]]|);
      TallyPrefix(next, ks[1..], groups);
      PrefixTransitive(counters.keys, next.keys, Tally(next, ks[1..], groups).keys);
    }
  }

  lemma {:induction false} TallyMember(counters: OrderedMap<int>, ks: seq<string>, groups: map<string, seq<LogEntry>>, k: string)
    requires All in counters.values
    requires forall k :: k in ks ==> k in groups
    ensures k in Tally(counters, ks, groups).values <==> k in counters.values || k in ks
    decreases |ks|
  {
    if ks != [] {
      TallyStep(counters, ks, groups);
      StepShape(counters, ks[0], |groups[ks[0]]|);
      TallyMember(Step(counters, ks[0], |groups[ks[0]]|), ks[1..], groups, k);
      assert ks == [ks[0]] + ks[1..];
    }
  }

  lemma {:induction false} TallyLevel(counters: OrderedMap<int>, ks: seq<string>, groups: map<string, seq<LogEntry>>, k: string)
    requires All in counters.values
    requires forall k :: k in ks ==> k in groups
    requires Distinct(ks)
    requires k != All && (k in counters.values || k in ks)
    ensures k in Tally(counters, ks, groups).values
    ensures Tally(counters, ks, groups).values[k] == if k in ks then |groups[k]| else counters.values[k]
    decreases |ks|
  {
    if ks != [] {
      var next := Step(counters, ks[0], |groups[ks[0]]|);
      TallyStep(counters, ks, groups);
      StepShape(counters, ks[0], |groups[ks[0]]|);
      DistinctTail(ks);
      assert ks == [ks[0]] + ks[1..];
      TallyLevel(next, ks[1..], groups, k);
    }
  }

  /** The sum, over the level keys `ks`, of the number of entries of each level. */
  function LevelTotal(entries: seq<LogEntry>, ks: seq<string>): nat {
    if ks == [] then 0 else |Group(entries, ks[0])| + LevelTotal(entries, ks[1..])
  }

  lemma {:induction false} TallyAll(counters: OrderedMap<int>, ks: seq<string>, groups: map<string, seq<LogEntry>>, entries: seq<LogEntry>)
    requires All in counters.values
    requires forall k :: k in ks ==> k in groups && groups[k] == Group(entries, k)
    requires All !in ks
    ensures Tally(counters, ks, groups).values[All] == counters.values[All] + LevelTotal(entries, ks)
    decreases |ks|
  {
    if ks != [] {
      var next := Step(counters, ks[0], |groups[ks[0]]|);
      TallyStep(counters, ks, groups);
      StepShape(counters, ks[0], |groups[ks[0]]|);
      assert ks == [ks[0]] + ks[1..];
      TallyAll(next, ks[1..], groups, entries);
    }
  }

  lemma {:induction false} LevelTotalStep(entries: seq<LogEntry>, ks: seq<string>)
    requires entries != [] && Distinct(ks)
    ensures LevelTotal(entries, ks)
            == (if entries[0].level in ks then 1 else 0) + LevelTotal(entries[1..], ks)
    decreases |ks|
  {
    if ks != [] {
      DistinctTail(ks);
      LevelTotalStep(entries, ks[1..]);
      GroupCons(entries, ks[0]);
      assert ks == [ks[0]] + ks[1..];
    }
  }

  lemma {:induction false} LevelTotalEmpty(ks: seq<string>)
    ensures LevelTotal([], ks) == 0
  {
    if ks != [] {
      LevelTotalEmpty(ks[1..]);
    }
  }

  /** Summing the level counts over distinct keys that cover every level of the
      collection counts every entry once. */
  lemma {:induction false} LevelTotalCovers(entries: seq<LogEntry>, ks: seq<string>)
    requires Distinct(ks)
    requires forall e :: e in entries ==> e.level in ks
    ensures LevelTotal(entries, ks) == |entries|
  {
    if entries == [] {
      LevelTotalEmpty(ks);
    } else {
      assert entries[0] in entries;
      LevelTotalStep(entries, ks);
      LevelTotalCovers(entries[1..], ks);
    }
  }

  /** Every level key other than `'all'` counts the entries of that level: an
      occurring level gets its number of entries and a seeded level that no
      entry carries keeps 0. */
  lemma StatsCountsLevels(levels: seq<string>, entries: seq<LogEntry>)
    ensures var r := StatsOf(levels, entries);
      forall k :: k in r.values && k != All ==> r.values[k] == |Group(entries, k)|
  {
    var init := InitStats(levels);
    var groups := GroupByLevel(entries);
    var r := StatsOf(levels, entries);
    GroupByLevelContents(entries);
    InitStatsContents(levels);
    forall k | k in r.values && k != All
      ensures r.values[k] == |Group(entries, k)|
    {
      TallyMember(init, groups.keys, groups.values, k);
      TallyLevel(init, groups.keys, groups.values, k);
      if k !in groups.keys {
        GroupEmptyIffAbsent(entries, k);
      }
    }
  }

  /** The counter keys: the seeded keys come first and in their order, none is
      removed, and exactly the levels that occur in the collection are added. */
  lemma StatsKeys(levels: seq<string>, entries: seq<LogEntry>)
    ensures var r := StatsOf(levels, entries);
      && InitStats(levels).keys <= r.keys
      && forall k :: k in r.values <==> k == All || k in levels || k in LevelsOf(entries)
  {
    var groups := GroupByLevel(entries);
    GroupByLevelContents(entries);
    InitStatsContents(levels);
    TallyPrefix(InitStats(levels), groups.keys, groups.values);
    var r := StatsOf(levels, entries);
    forall k ensures k in r.values <==> k == All || k in levels || k in LevelsOf(entries) {
      TallyMember(InitStats(levels), groups.keys, groups.values, k);
    }
  }

  /** The keys of `ks` that have no counter in `seeded`, in the order of `ks`. */
  function Unseeded(ks: seq<string>, seeded: map<string, int>): seq<string> {
    if ks == [] then []
    else (if ks[0] in seeded then [] else [ks[0]]) + Unseeded(ks[1..], seeded)
  }

  /** Only which keys of `ks` have a counter matters. */
  lemma {:induction false} UnseededSameKeys(ks: seq<string>, seeded: map<string, int>, seeded': map<string, int>)
    requires forall k :: k in ks ==> (k in seeded <==> k in seeded')
    ensures Unseeded(ks, seeded) == Unseeded(ks, seeded')
  {
    if ks != [] {
      assert ks[0] in ks;
      UnseededSameKeys(ks[1..], seeded, seeded');
    }
  }

  /** One pass appends the level's key when it has no counter yet, and the keys
      after it that were unseeded stay unseeded. */
  lemma StepKeys(counters: OrderedMap<int>, ks: seq<string>, count: int)
    requires All in counters.values
    requires ks != [] && ks[0] !in ks[1..]
    ensures Step(counters, ks[0], count).keys
            == counters.keys + (if ks[0] in counters.values then [] else [ks[0]])
    ensures Unseeded(ks[1..], Step(counters, ks[0], count).values) == Unseeded(ks[1..], counters.values)
  {
    UnseededSameKeys(ks[1..], Step(counters, ks[0], count).values, counters.values);
  }

  /** The loop appends the keys of `ks` it has no counter for, in the order of
      `ks`, after the keys it started with. */
  lemma {:induction false} TallyKeys(counters: OrderedMap<int>, ks: seq<string>, groups: map<string, seq<LogEntry>>)
    requires All in counters.values
    requires forall k :: k in ks ==> k in groups
    requires Distinct(ks)
    ensures Tally(counters, ks, groups).keys == counters.keys + Unseeded(ks, counters.values)
    decreases |ks|
  {
    if ks != [] {
      var next := Step(counters, ks[0], |groups[ks[0]]|);
      var added := if ks[0] in counters.values then [] else [ks[0]];
      var rest := Unseeded(ks[1..], counters.values);
      DistinctTail(ks);
      calc {
        Tally(counters, ks, groups).keys;
      == { TallyStep(counters, ks, groups); }
        Tally(next, ks[1..], groups).keys;
      == { TallyKeys(next, ks[1..], groups); }
        next.keys + Unseeded(ks[1..], next.values);
      == { StepKeys(counters, ks, |groups[ks[0]]|); }
        (counters.keys + added) + rest;
      ==
        counters.keys + (added + rest);
      }
    }
  }

  /** The counter keys in full: the seeded keys in their order, then the levels
      of the collection that were not seeded, in the order of their groups, that
      is, in order of first appearance. */
  lemma StatsKeysOrder(levels: seq<string>, entries: seq<LogEntry>)
    ensures StatsOf(levels, entries).keys
            == InitStats(levels).keys + Unseeded(GroupByLevel(entries).keys, InitStats(levels).values)
  {
    var groups := GroupByLevel(entries);
    GroupByLevelContents(entries);
    InitStatsContents(levels);
    TallyKeys(InitStats(levels), groups.keys, groups.values);
  }

  /** When no entry carries the level `'all'`, the `'all'` counter is the number
      of entries. */
  lemma StatsCountsAll(levels: seq<string>, entries: seq<LogEntry>)
    requires forall e :: e in entries ==> e.level != All
    ensures StatsOf(levels, entries).values[All] == |entries|
  {
    var groups := GroupByLevel(entries);
    GroupByLevelContents(entries);
    InitStatsContents(levels);
    assert All !in LevelsOf(entries);
    assert All !in groups.values;
    TallyAll(InitStats(levels), groups.keys, groups.values, entries);
    forall e | e in entries ensures e.level in groups.keys {
      assert e.level in LevelsOf(entries);
    }
    LevelTotalCovers(entries, groups.keys);
  }

  lemma {:induction false} ValueSumIsLevelTotal(ks: seq<string>, values: map<string, int>, entries: seq<LogEntry>)
    requires forall k :: k in ks ==> k in values && values[k] == |Group(entries, k)|
    ensures ValueSum(ks, values) == LevelTotal(entries, ks)
  {
    if ks != [] {
      ValueSumIsLevelTotal(ks[1..], values, entries);
    }
  }

  /** When no entry carries the level `'all'`, the `'all'` counter is the sum of
      the counters that follow it. */
  lemma StatsAllIsSumOfLevels(levels: seq<string>, entries: seq<LogEntry>)
    requires forall e :: e in entries ==> e.level != All
    ensures var r := StatsOf(levels, entries);
      && r.keys != [] && r.keys[0] == All
      && (forall k :: k in r.keys[1..] ==> k in r.values)
      && r.values[All] == ValueSum(r.keys[1..], r.values)
  {
    var r := StatsOf(levels, entries);
    StatsValid(levels, entries);
    StatsKeys(levels, entries);
    StatsCountsLevels(levels, entries);
    StatsCountsAll(levels, entries);
    InitStatsContents(levels);
    assert r.keys[0] == All;
    DistinctTail(r.keys);
    var rest := r.keys[1..];
    assert r.keys == [All] + rest;
    forall e | e in entries ensures e.level in rest {
      assert e.level in LevelsOf(entries);
    }
    ValueSumIsLevelTotal(rest, r.values, entries);
    LevelTotalCovers(entries, rest);
  }

  lemma {:induction false} GroupOfSoleLevel(entries: seq<LogEntry>)
    requires forall e :: e in entries ==> e.level == All
    ensures Group(entries, All) == entries
  {
    if entries != [] {
      assert HasLevel(entries[0], All);
      GroupOfSoleLevel(entries[1..]);
    }
  }

  lemma {:induction false} GroupIntoSoleKey(groups: OrderedMap<seq<LogEntry>>, entries: seq<LogEntry>)
    requires groups.keys == [All] && All in groups.values
    requires forall e :: e in entries ==> e.level == All
    ensures GroupInto(groups, entries).keys == [All]
    decreases |entries|
  {
    if entries != [] {
      assert entries[0] in entries;
      GroupIntoSoleKey(AddToGroup(groups, entries[0]), entries[1..]);
    }
  }

  /** A pass over the `'all'` group sets the `'all'` counter to the group's size
      and then adds it, and the passes after it add their sizes. */
  lemma TallyCollisionHere(counters: OrderedMap<int>, ks: seq<string>, groups: map<string, seq<LogEntry>>,
                           entries: seq<LogEntry>)
    requires All in counters.values
    requires forall k :: k in ks ==> k in groups && groups[k] == Group(entries, k)
    requires ks != [] && ks[0] == All && All !in ks[1..]
    ensures Tally(counters, ks, groups).values[All] == 2 * |Group(entries, All)| + LevelTotal(entries, ks[1..])
  {
    var next := Step(counters, All, |groups[All]|);
    TallyStep(counters, ks, groups);
    StepShape(counters, All, |groups[All]|);
    TallyAll(next, ks[1..], groups, entries);
  }

  /** Over group keys in which `'all'` stands at position `i` and nowhere else,
      the loop ends with `'all'` holding twice that group's size plus the sizes
      of the groups after it: whatever the earlier passes added is overwritten
      when the loop sets the `'all'` counter to the size of the `'all'` group. */
  lemma {:induction false} TallyCollision(counters: OrderedMap<int>, ks: seq<string>, groups: map<string, seq<LogEntry>>,
                                          entries: seq<LogEntry>, i: nat)
    requires All in counters.values
    requires forall k :: k in ks ==> k in groups && groups[k] == Group(entries, k)
    requires i < |ks| && ks[i] == All
    requires forall j :: 0 <= j < |ks| && ks[j] == All ==> j == i
    ensures Tally(counters, ks, groups).values[All] == 2 * |Group(entries, All)| + LevelTotal(entries, ks[i + 1..])
    decreases |ks|
  {
    if i == 0 {
      assert All !in ks[1..] by {
        forall j | 0 <= j < |ks[1..]| ensures ks[1..][j] != All {
          assert ks[1..][j] == ks[j + 1];
        }
      }
      TallyCollisionHere(counters, ks, groups, entries);
    } else {
      TallyStep(counters, ks, groups);
      var rest := ks[1..];
      assert rest[i - 1] == All;
      assert rest[i..] == ks[i + 1..];
      forall j | 0 <= j < |rest| && rest[j] == All ensures j == i - 1 {
        assert ks[j + 1] == rest[j];
      }
      TallyCollision(Step(counters, ks[0], |groups[ks[0]]|), rest, groups, entries, i - 1);
    }
  }

  /** As written, when some entry carries the level `'all'`, the `'all'` counter
      loses the counts of the groups met before the `'all'` group (the pass over
      that group sets the counter to the group's size), counts the `'all'` group
      twice (the same pass then adds its size), and adds the groups after it. */
  lemma StatsAllCollision(levels: seq<string>, entries: seq<LogEntry>, i: nat)
    requires i < |GroupByLevel(entries).keys| && GroupByLevel(entries).keys[i] == All
    ensures StatsOf(levels, entries).values[All]
            == 2 * |Group(entries, All)| + LevelTotal(entries, GroupByLevel(entries).keys[i + 1..])
  {
    var groups := GroupByLevel(entries);
    GroupByLevelContents(entries);
    SeedKeeps(Put(Empty(), All, 0), levels, All);
    forall j | 0 <= j < |groups.keys| && groups.keys[j] == All ensures j == i {
      assert groups.keys[j] == groups.keys[i];
    }
    TallyCollision(InitStats(levels), groups.keys, groups.values, entries, i);
  }

  /** A collection whose every entry carries the level `'all'` reports twice its
      size under `'all'`. */
  lemma StatsAllOnlyAllLevel(levels: seq<string>, entries: seq<LogEntry>)
    requires forall e :: e in entries ==> e.level == All
    ensures StatsOf(levels, entries).values[All] == 2 * |entries|
  {
    if entries == [] {
      InitStatsContents(levels);
      assert StatsOf(levels, entries) == InitStats(levels);
    } else {
      var groups := GroupByLevel(entries);
      assert groups == GroupInto(AddToGroup(Empty(), entries[0]), entries[1..]);
      GroupIntoSoleKey(AddToGroup(Empty(), entries[0]), entries[1..]);
      GroupOfSoleLevel(entries);
      StatsAllCollision(levels, entries, 0);
    }
  }

  /** The smallest collection that shows the lost counts: two `error` entries and
      then one `all` entry, with no configured levels, report 2 under `'all'`
      although the collection holds 3 entries. */
  lemma StatsAllLosesEarlierGroups()
    ensures var entries := [LogEntry("error", "", ""), LogEntry("error", "", ""), LogEntry(All, "", "")];
      StatsOf([], entries).values[All] == 2 && |entries| == 3
  {
    var e := LogEntry("error", "", "");
    var a := LogEntry(All, "", "");
    var entries := [e, e, a];
    var g1 := AddToGroup(Empty(), e);
    var g2 := AddToGroup(g1, e);
    var g3 := AddToGroup(g2, a);
    assert entries[1..] == [e, a] && entries[1..][1..] == [a] && entries[1..][1..][1..] == [];
    assert g3.keys == ["error", All];
    assert GroupByLevel(entries) == g3 by {
      assert GroupInto(Empty(), entries) == GroupInto(g1, entries[1..]);
      assert GroupInto(g1, entries[1..]) == GroupInto(g2, entries[1..][1..]);
      assert GroupInto(g2, entries[1..][1..]) == GroupInto(g3, entries[1..][1..][1..]);
    }
    assert Group(entries, All) == [a] by {
      GroupCons(entries, All);
      GroupCons(entries[1..], All);
      GroupCons(entries[1..][1..], All);
    }
    StatsAllCollision([], entries, 1);
    assert g3.keys[2..] == [];
  }

  // ---------------------------------------------------------------------------
  // tree

  datatype TreeNode = TreeNode(name: string, count: int)

  /** `tree()`: every counter of `stats` becomes a `{name, count}` node, keeping
      the keys and their order; `displayName` is the level's translated label
      used when `trans` is set. */
  method Tree(levels: seq<string>, entries: seq<LogEntry>, trans: bool, displayName: string -> string)
    returns (tree: OrderedMap<TreeNode>)
    ensures Valid(tree)
    ensures tree.keys == StatsOf(levels, entries).keys
    ensures forall k :: k in tree.values <==> k in StatsOf(levels, entries).values
    ensures forall k :: k in tree.values ==>
              && tree.values[k].count == StatsOf(levels, entries).values[k]
              && tree.values[k].name == (if trans then displayName(k) else k)
  {
    var stats := Stats(levels, entries);
    StatsKeysPresent(levels, entries);
    tree := OrderedMap(stats.keys, map[]);
    for i := 0 to |stats.keys|
      invariant tree.keys == stats.keys
      invariant forall j :: 0 <= j < i ==> stats.keys[j] in tree.values
      invariant forall k :: k in tree.values ==> k in stats.values
      invariant forall k :: k in tree.values ==>
                  tree.values[k] == TreeNode(if trans then displayName(k) else k, stats.values[k])
    {
      var level := stats.keys[i];
      var node := TreeNode(if trans then displayName(level) else level, stats.values[level]);
      ghost var before := tree.values;
      tree := tree.(values := tree.values[level := node]);
      forall j | 0 <= j <= i ensures stats.keys[j] in tree.values {
        if j < i {
          assert stats.keys[j] in before;
        }
      }
    }
    StatsValid(levels, entries);
  }

  // ---------------------------------------------------------------------------
  // paginate

  function Min(a: int, b: int): int {
    if a <= b then a else b
  }

  /** Where page `page` starts: `max(0, (page - 1) * perPage)`. */
  function Offset(page: int, perPage: nat): nat {
    if page <= 1 then 0 else (page - 1) * perPage
  }

  /** `forPage(page, perPage)`: skip to the page's offset, then take at most
      `perPage` entries. */
  function ForPage(entries: seq<LogEntry>, page: int, perPage: nat): seq<LogEntry> {
    var n := |entries|;
    entries[Min(Offset(page, perPage), n) .. Min(Offset(page, perPage) + perPage, n)]
  }

  /** The page window holds at most `perPage` consecutive entries starting at the
      page's offset, as many as remain before the end. */
  lemma ForPageWindow(entries: seq<LogEntry>, page: int, perPage: nat)
    ensures var r := ForPage(entries, page, perPage);
      var offset := Offset(page, perPage);
      && |r| == Min(perPage, if offset <= |entries| then |entries| - offset else 0)
      && forall k :: 0 <= k < |r| ==> r[k] == entries[offset + k]
  {
  }

  /** What the paginator is built from: the page's items, the total number of
      entries, the page size and the requested page. */
  datatype Page = Page(items: seq<LogEntry>, total: nat, perPage: int, page: int)

  /** From page 1 on, a page starts `(page - 1) * perPage` entries in and ends
      `page * perPage` entries in. */
  lemma PageBounds(page: int, perPage: nat)
    requires page >= 1
    ensures Offset(page, perPage) == (page - 1) * perPage
    ensures Offset(page, perPage) + perPage == page * perPage
  {
    assert (page - 1) * perPage + perPage == page * perPage;
  }

  /** `paginate(perPage)` for the requested page: the items are the entries
      `(page - 1) * perPage` up to `page * perPage`, clipped to the collection,
      with pages below 1 read as the first page; the total is every entry. */
  function Paginate(entries: seq<LogEntry>, page: int, perPage: int): (p: Page)
    requires perPage > 0
    ensures p.total == |entries|
    ensures page >= 1 ==>
              p.items == entries[Min((page - 1) * perPage, |entries|) .. Min(page * perPage, |entries|)]
    ensures page < 1 ==> p.items == entries[.. Min(perPage, |entries|)]
  {
    if page >= 1 then
      PageBounds(page, perPage);
      Page(ForPage(entries, page, perPage), |entries|, perPage, page)
    else
      Page(ForPage(entries, page, perPage), |entries|, perPage, page)
  }

  /** Pages 1 to `m`, one after the other. */
  function FirstPages(entries: seq<LogEntry>, m: nat, perPage: nat): seq<LogEntry> {
    if m == 0 then [] else FirstPages(entries, m - 1, perPage) + ForPage(entries, m, perPage)
  }

  /** The pages tile the collection: pages 1 to `m` together are its first
      `m * perPage` entries, without gap or overlap. */
  lemma {:induction false} PagesTile(entries: seq<LogEntry>, m: nat, perPage: nat)
    ensures FirstPages(entries, m, perPage) == entries[.. Min(m * perPage, |entries|)]
  {
    if m > 0 {
      PagesTile(entries, m - 1, perPage);
      PageBounds(m, perPage);
      var lo := Min((m - 1) * perPage, |entries|);
      var hi := Min(m * perPage, |entries|);
      assert ForPage(entries, m, perPage) == entries[lo .. hi];
      assert entries[.. lo] + entries[lo .. hi] == entries[.. hi];
    }
  }

  /** Entry `i` is item `i % perPage` of page `i / perPage + 1`. */
  lemma PageOfEntry(entries: seq<LogEntry>, perPage: nat, i: nat)
    requires perPage > 0 && i < |entries|
    ensures var page := ForPage(entries, i / perPage + 1, perPage);
      i % perPage < |page| && page[i % perPage] == entries[i]
  {
    var q, r := i / perPage, i % perPage;
    PageBounds(q + 1, perPage);
    var off := Offset(q + 1, perPage);
    assert off + r == i && r < perPage by {
      assert q * perPage + r == i;
    }
  }

  /** A page that starts at or beyond the end is empty, and the total is still
      the number of entries. */
  lemma PageBeyondEnd(entries: seq<LogEntry>, page: int, perPage: int)
    requires perPage > 0 && page >= 1 && (page - 1) * perPage >= |entries|
    ensures Paginate(entries, page, perPage).items == []
    ensures Paginate(entries, page, perPage).total == |entries|
  {
  }
}
