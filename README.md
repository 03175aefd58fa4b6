# Log entry collection: a Dafny model

This project models the aggregation layer of a Laravel log viewer. That layer
is the `LogEntryCollection` class, a collection of parsed log entries. Each
entry carries a severity level, a one-line header and a stack body. Its
operations are:

- `load` wraps the parser's `(level, header, stack)` tuples into entries.
- `filterByLevel` keeps the entries that match a level.
- `stats` counts the entries per level, plus an `'all'` total, over counters
  that `initStats` seeds with `'all'` and every configured level at 0.
- `tree` turns each counter into a `{name, count}` record.
- `paginate` takes the window of one page and the total count.

The project has two modules:

- `OrderedArrays` (`ordered_arrays.dfy`) models the part of PHP's ordered array
  that the class relies on. A key order sits beside a map. Assigning to a
  present key keeps its place, and assigning to a new key appends it.
  `Valid` says the order lists every key of the map exactly once.
- `LogEntryCollection` (`log_entry_collection.dfy`) models the class. The
  collection is a finite `seq<LogEntry>` in parser order.
  - Loops become methods: the generator of `load`, the `foreach` of `stats`
    and the `array_walk` of `tree`.
  - Expressions become functions: `filterByLevel`, `initStats`,
    `groupBy('level')` and the `forPage` window.
  - `Stats` is proved equal to the specification function `StatsOf`. That is
    `initStats` followed by `Tally`, the fold of the loop body `Step` over
    the groups. `Step` is the body's two assignments: `Put` sets the level's
    counter, then `Add` increments `'all'`. The properties of the counters
    are lemmas about `StatsOf`.

Collaborators the class calls but does not define become parameters:

- The parser's output is the input of `Load`.
- The configured levels, `log_viewer()->levels(true)`, are the `levels` sequence.
- `LogEntry::isSameLevel` is the `isSameLevel` predicate argument of `FilterByLevel`.
- The level translation `log_levels()->get` is the `displayName` function
  argument of `Tree`.
- The page number read from the request is the `page` argument of `Paginate`.

## Model

| member | source | states |
|---|---|---|
| LogEntryCollection.Load | src/Entities/LogEntryCollection.php:15-24 | one entry per parsed tuple, in parser order, with level, header and stack taken positionally from the tuple |
| LogEntryCollection.FilterByLevel | src/Entities/LogEntryCollection.php:47-52 | the filtered collection is never longer than the collection |
| LogEntryCollection.FilterByLevelExact | src/Entities/LogEntryCollection.php:47-52 | the result is an order-preserving subsequence of the collection, and every entry occurs in it as often as in the collection when it matches the level and not at all otherwise |
| LogEntryCollection.FilterByLevelMembers | src/Entities/LogEntryCollection.php:49-51 | an entry is in the result if and only if it is in the collection and matches the level, so a level no entry matches yields nothing |
| LogEntryCollection.FilterPartition | src/Entities/LogEntryCollection.php:47-52 | the matching entries and the non-matching entries together are the whole collection, in length and as a multiset |
| LogEntryCollection.GroupByLevelContents | src/Entities/LogEntryCollection.php:59 | `groupBy('level')` lists each group once, has a group exactly for the levels that occur, and each group holds exactly that level's entries in collection order |
| LogEntryCollection.GroupByLevelOrder | src/Entities/LogEntryCollection.php:59 | the groups of every prefix of the collection are a prefix of its groups, in the same order |
| LogEntryCollection.GroupByLevelFirstAppearance | src/Entities/LogEntryCollection.php:59 | groups come in order of first appearance: when entry q is the first of its level and entry p comes before it, p's group comes before q's group |
| LogEntryCollection.GroupEmptyIffAbsent | src/Entities/LogEntryCollection.php:59 | a level's group is empty if and only if no entry carries that level |
| LogEntryCollection.InitStatsContents | src/Entities/LogEntryCollection.php:81-92 | the seeded counters list each key once, start with `'all'`, hold exactly `'all'` and the configured levels, and are all 0 |
| LogEntryCollection.InitStatsOrder | src/Entities/LogEntryCollection.php:84-91 | for distinct configured levels without `'all'`, the counter keys are exactly `'all'` followed by the levels in configured order |
| LogEntryCollection.Stats | src/Entities/LogEntryCollection.php:55-65 | the loop over the groups returns exactly the counters `StatsOf` describes, which the lemmas below characterise |
| LogEntryCollection.StatsValid | src/Entities/LogEntryCollection.php:55-65 | the counters list every key exactly once |
| LogEntryCollection.StatsKeys | src/Entities/LogEntryCollection.php:57-63 | no seeded key is removed or moved, the seeded keys come first, and the keys are exactly `'all'`, the configured levels and the levels that occur |
| LogEntryCollection.StatsKeysOrder | src/Entities/LogEntryCollection.php:57-63 | the counter keys are exactly the seeded keys in their order followed by the group keys that were not seeded, in group order, which is the order of first appearance |
| LogEntryCollection.StatsCountsLevels | src/Entities/LogEntryCollection.php:59-61 | every key other than `'all'` maps to the number of entries of that level, so a seeded level with no entries keeps 0 |
| LogEntryCollection.StatsCountsAll | src/Entities/LogEntryCollection.php:57-64 | when no entry's level is `'all'`, the `'all'` counter is the number of entries |
| LogEntryCollection.StatsAllIsSumOfLevels | src/Entities/LogEntryCollection.php:59-62 | when no entry's level is `'all'`, the `'all'` counter comes first and equals the sum of the counters after it |
| LogEntryCollection.StatsAllCollision | src/Entities/LogEntryCollection.php:59-61 | when the `'all'` group stands at position `i` of the group order, the `'all'` counter is twice that group's size plus the sizes of the groups after position `i`: the groups before it are lost, because line 60 sets the counter to the group size before line 61 adds it |
| LogEntryCollection.StatsAllOnlyAllLevel | src/Entities/LogEntryCollection.php:59-61 | when every entry's level is `'all'` (including no entries at all), the `'all'` counter reports twice the number of entries |
| LogEntryCollection.StatsAllLosesEarlierGroups | src/Entities/LogEntryCollection.php:59-61 | with no configured levels, the entries `error`, `error`, `all` report 2 under `'all'` although there are 3 entries |
| LogEntryCollection.Tree | src/Entities/LogEntryCollection.php:67-79 | the tree has the keys of `stats` in the same order, each node's count is that key's counter, and its name is the translated label when `trans` is set and the key itself otherwise |
| LogEntryCollection.ForPageWindow | src/Entities/LogEntryCollection.php:32 | a page holds the consecutive entries from its offset `max(0, (page - 1) * perPage)`, as many as `perPage` or as remain before the end |
| LogEntryCollection.Paginate | src/Entities/LogEntryCollection.php:26-37 | the items are the entries from `(page - 1) * perPage` to `page * perPage`, clipped to the collection, a page below 1 reads as page 1, and the total is the number of entries whatever the page |
| LogEntryCollection.PageBeyondEnd | src/Entities/LogEntryCollection.php:31-37 | a page that starts at or past the end has no items and still reports the full total |
| LogEntryCollection.PagesTile | src/Entities/LogEntryCollection.php:32 | pages 1 to m together are the first `m * perPage` entries, with no gap or overlap |
| LogEntryCollection.PageOfEntry | src/Entities/LogEntryCollection.php:32 | entry i is item `i % perPage` of page `i / perPage + 1` |
| OrderedArrays.PutAssigns | src/Entities/LogEntryCollection.php:60 | after assignment the key holds the new value, every other key keeps its presence and value, the old key order stays as a prefix, a new key is added once at the end and a present key adds nothing, and a valid array stays valid |
| OrderedArrays.Add | src/Entities/LogEntryCollection.php:61 | `+=` on a present key adds to its value and leaves the key order unchanged |
| OrderedArrays.PutValid | src/Entities/LogEntryCollection.php:60-61 | assignment keeps every key listed exactly once |

## Left out

- Laziness: `LazyCollection`'s generators, re-iteration and memory bounds are not modelled. The collection is a finite sequence.
- `LogParser::parse` is not part of this model. `Load` takes its output as a sequence of `(level, header, stack)` triples. A parsed array with more or fewer than three values is not modelled.
- `LogEntry` is not part of this model. `isSameLevel` is an arbitrary predicate argument, and `groupBy('level')` groups by exact equality of the level string.
- `log_viewer()->levels(true)` and `log_levels()->get`: the configured levels and the translated labels are parameters, not configuration lookups.
- `request()->get('page', 1)` and `request()->url()`: the page is a plain integer argument and the path is left out. A page given as a non-numeric string is not modelled.
- `LengthAwarePaginator`: the paginator object is reduced to the `Page` record it is built from (items, total, per-page size and page). The last-page computation and link rendering are left out.
- Paginate: requires `perPage > 0`. With 0, the paginator's last-page computation divides by zero. A negative size is not modelled.
- `forPage` belongs to the framework, not to this repository. The model takes `max(0, (page - 1) * perPage)` as the offset and then takes `perPage` entries.
- Stats: the loop's property ensures clauses (keys and counts) are stated by lemmas about `StatsOf` rather than on the method itself.
- PHP arrays cast numeric-string keys to integers. A level name such as `"1"` would be such a key; this is not modelled, and keys stay strings.
- Collection keys that `filter` preserves (gaps in the integer keys after filtering) are not modelled. The filtered collection is a plain sequence.
- The tree keeps the counter array's keys and order and replaces every value in place. The model builds a second ordered array over the same key order, which is equivalent.

Behaviour of the code worth knowing:

- The code seeds the counters only with `'all'` and the configured levels, with no separate fallback key for unknown levels. An entry whose level is not configured gets a key of its own, appended after the seeded keys in order of first appearance (`StatsKeysOrder` with `GroupByLevelFirstAppearance`).
- `tree` keeps the order of `stats`, so levels first seen in the entries come after the seeded levels. They are not sorted by severity.
- Invalid pagination arguments are not signalled. A page below 1 is read as page 1, and a page size of 0 fails in the paginator.
- An entry whose level is literally `'all'` breaks the `'all'` total. When the loop reaches the `'all'` group, it sets the counter to that group's size, which throws away the counts of the groups before it, and then adds the size again, so that group counts twice; the groups after it are added as usual (`StatsAllCollision`, `StatsAllLosesEarlierGroups`). Without such entries, `'all'` is the number of entries and the sum of the level counters.
