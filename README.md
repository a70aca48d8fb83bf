# ExplodableDataFrame, modelled in Dafny

`ExplodableDataFrame` is a table type that finds functional dependencies
between its own columns and uses them to split itself into smaller tables.

- **Classifying a pair of columns.** Counting distinct pairs and distinct
  values classifies columns `x` and `y` as *Independent*, `x` *Identifies*
  `y`, or *Injective* (`y` identifies `x`).
- **Analysing dependencies.** `detect_column_relationships` does the
  following:
  - sorts columns into Constant, Unique and the rest;
  - classifies every ordered pair of the rest;
  - pulls mutually identifying pairs out into Bijective groups;
  - prunes the remaining Identifies list.
- **Composite columns.** `add_composite_column` adds a column whose cells are
  the joined string forms of several columns, under a fresh name.
- **Splitting into subtables.** `break_into_subtables` works on a copy of the
  table and runs rounds of increasing composite depth. Each round:
  - adds composite columns;
  - extracts a subtable for every Bijective group;
  - extracts a subtable for every determinant of the Identifies pairs;
  - drops the extracted dependent columns and the composites.

  Each extracted subtable is a keep-first, duplicate-free projection onto
  the key columns followed by the dependent columns, with the keys suffixed
  by `key_flag`. The residual table comes first in the result, with its
  key columns flagged.

## How the model is organised

| module | file | what it holds |
|---|---|---|
| `Classifier` | classifier.dfy | `Classify` on two equal-length columns, and what each answer means |
| `Counting` | counting.dfy | Sequence helpers over Python lists: distinct counts, keep-first `Dedup` (pandas `drop_duplicates`), `RemoveFirst` (`list.remove`), `Without` (order-keeping filter), `AppendAbsent` |
| `Structures` | structures.dfy | Insertion-ordered `Dict` (Python `dict`), `Combinations` in `itertools.combinations` order, `Binomial` |
| `Tables` | tables.dfy | `Cell`, `Contents` (what a table holds at one moment), the `Table` class (ordered names, a column map and a height), `FreshName`, `AddCompositeColumn` |
| `Dependencies` | dependencies.dfy | `DetectColumnRelationships`, split into one method per loop of the source |
| `Decomposer` | decomposer.dfy | `BreakIntoSubtables` with its nested helpers, the rounds and the progress bookkeeping |

### How source concepts are represented

- **Cells and `str()`.** A cell is `Value(a)` for a source value, or `Text(s)`
  for the string a composite column holds. `str()` of a value is the
  parameter `show: A -> string`.
- **The working table.** It is a `Table` object that the methods change in
  place, through `modifies`.
- **Extracted subtables.** These are row-oriented values (`Frame`) that
  snapshot the projection at the time of extraction.
- **Lists and dicts.** The source's lists are `seq`s. Its dicts are `Dict`
  values (name to list of names) or `RelationshipDict` values (name to
  relationship), and both keep insertion order.
- **What a run did.** `BreakIntoSubtables` also returns, as a ghost value,
  the trace of its rounds. For each round it holds the composites the
  round added and its two passes. For each pass it holds the contents of
  the working table the pass saw (a `Contents` value), the relationships
  detected there, the column structure built from them, and the output
  before and after the pass.
- **Missing columns.** When a column is missing, pandas raises `KeyError`.
  Here that is the `KeyError(column)` case of `Result`, and every method that
  can meet one states when it does. A run that fails keeps its failing
  round as the last entry of its trace, and `StepFails` says what went
  wrong in it: a pass found a header of its column structure missing, or a
  pass had removed one of the round's composites as a dependent.

### What the code does at a few points that matter

The model follows the code at each of these points:

- **Every ordered pair is classified** (lines 168-172). A column is not
  skipped for having already left Independent. Both columns of a mutually
  identifying pair leave Independent, not only the one that later heads
  its group (lines 180-186).
- **Bijective pairs join the first group that shares a column** (lines
  201-210), and groups are never merged with each other. The pairs arrive
  earlier column first and in the row-major order of the pairwise loop,
  and identifying each other both ways is an equivalence. So the grouping
  still ends with exactly one group per class of mutually identifying
  columns: no column sits in two groups, each group lists its columns in
  the table's order, and its first column, the key at line 111, is the
  earliest column of its class.
- **Constant and Unique columns are recorded on every detection pass**
  (lines 107 and 117), not only at depth 1.
- **A single `key_flag` suffix marks key columns** (lines 63 and 136). There
  is no separate primary-key or foreign-key marker and no key registry.
  `schema[0]` is the concatenation of all key lists.
- **A round exits early** when the remaining non-constant, non-unique
  columns number exactly the depth (line 95).
- **The identification structure guards on the determinant** (line 122), not
  on the dependent. A dependent can therefore be listed under two
  determinants.
- **The pruning loop advances its index even after a removal** (lines
  214-221). The pair that moves into the removed slot is never examined.
- **An empty table is not an error.** Every column of a table with no rows is
  Unique.
- **A missing column is a `KeyError` result, not a precondition.** This
  happens when a key was already dropped (line 61) or when a composite was
  already dropped as a dependent (line 131).

## Model

| member | source | states |
|---|---|---|
| Classifier.ClassifyMeaning | ExplodableDataFrame.py:236-249 | `Classify` (which `Tables.Contents.CharacterizeColumnRelationship` applies to two columns) answers Independent iff no (x,y) pair repeats or neither column determines the other; Identifies iff some pair repeats and x determines y; Injective iff some pair repeats, x does not determine y and y determines x |
| Classifier.PairCountVersusX | ExplodableDataFrame.py:237-244 | Ux <= P <= rows; P == rows iff no pair repeats; P == Ux iff each x value occurs with a single y value |
| Classifier.DistinctRowsAreIndependent | ExplodableDataFrame.py:239-241 | when every projected row is a distinct pair the answer is Independent |
| Classifier.IndependentSymmetric | ExplodableDataFrame.py:240-249 | classify(x,y) is Independent iff classify(y,x) is Independent |
| Classifier.InjectiveMirrorsIdentifies | ExplodableDataFrame.py:244-247 | Injective for (x,y) implies Identifies for (y,x); Identifies for (y,x) without Identifies for (x,y) implies Injective for (x,y) |
| Classifier.IdentifiesTransitive | ExplodableDataFrame.py:244-245 | if x identifies y and y identifies z then x identifies z |
| Counting.DistinctCountBound | ExplodableDataFrame.py:158-159 | a column's distinct count is at most its length, with equality exactly when all values are distinct (the Unique test) |
| Counting.Dedup | ExplodableDataFrame.py:62 | keep-first dedup has exactly the input's members, no repeats, and is no longer than the input |
| Counting.DedupLength | ExplodableDataFrame.py:158 | the dedup's length is the number of distinct values |
| Counting.DedupKeepsFirstOrder | ExplodableDataFrame.py:62 | two first occurrences keep their relative order after dedup |
| Counting.RemoveFirst | ExplodableDataFrame.py:161 | removing a present element shortens the list by one and keeps every other member; an absent element leaves it unchanged; a distinct list stays distinct without the element |
| Counting.RemoveFirstIsWithout | ExplodableDataFrame.py:86 | on a distinct list, removing one element equals filtering it out in order |
| Counting.Without | ExplodableDataFrame.py:94 | the order-keeping filter keeps exactly the members outside the dropped set, never grows, and keeps distinctness |
| Counting.WithoutWithout | ExplodableDataFrame.py:68-71 | filtering twice equals filtering once by the union |
| Counting.WithoutInOrder | ExplodableDataFrame.py:161-167 | filtering a duplicate-free list keeps its elements in their relative order (the remaining columns stay in table order) |
| Counting.AppendAbsent | ExplodableDataFrame.py:74-77 | appending the absent elements keeps the old list as a prefix, contains both lists and nothing else, and keeps distinctness |
| Structures.Put | ExplodableDataFrame.py:112 | dict assignment sets the key, keeps every other entry, and appends the key to the order only when it is new |
| Structures.AppendTo | ExplodableDataFrame.py:123-125 | the key's list gains the value at its end (starting from empty), other keys are untouched, order is kept |
| Structures.CombinationsCount | ExplodableDataFrame.py:96 | there are exactly Binomial(n, k) combinations |
| Structures.CombinationMembers | ExplodableDataFrame.py:96 | each combination has k members, all from the input, distinct when the input is |
| Tables.FreshName | ExplodableDataFrame.py:29-31 | the returned name is unused and equals the base followed by k joiners, every shorter candidate being in use |
| Tables.Table.AddCompositeColumn | ExplodableDataFrame.py:27-33 | the returned name was not a column before and is `joiner.join(columns)` (or the given name) plus zero or more joiners; exactly that column is appended; existing columns and the height are unchanged; each new cell is the joiner-join of the string forms of the listed cells in that row |
| Tables.CompositeDeterminantSound | ExplodableDataFrame.py:32 | if a composite column determines y then any two rows that agree on all the component columns agree on y |
| Tables.Table.CharacterizeColumnRelationships | ExplodableDataFrame.py:226-233 | the keys are the other columns in column order, each mapped to its classification against the given column, and nothing else is mapped |
| Tables.Table.GetUniqueColumnPairs | ExplodableDataFrame.py:255-258 | the distinct (x,y) pairs: every row's pair is listed, every listed pair occurs in some row, no pair twice, count equals the number of distinct pairs |
| Tables.Table.Drop | ExplodableDataFrame.py:71 | dropping a column removes it from the names in order and from the map, height unchanged |
| Tables.Table.Copy | ExplodableDataFrame.py:42 | the copy has the same names, columns and height |
| Dependencies.SortOutConstantsAndUniques | ExplodableDataFrame.py:154-164 | Unique holds exactly the all-distinct columns, Constant exactly the single-valued not-all-distinct ones, Independent exactly the others; the three lists are duplicate-free, pairwise disjoint and in column order, so Independent is `Candidates`, the columns that are neither Unique nor Constant in column order |
| Dependencies.RecordPair | ExplodableDataFrame.py:174-186 | keeps the pairwise invariant (pairs are distinct, from the remaining columns and really Identifies), loses no pair, and the list becomes `Recorded`: (x,y) appended when x identifies y, (y,x) when x is Injective to y, each only when not yet listed, nothing for x == y or Independent |
| Dependencies.ClassifyRow | ExplodableDataFrame.py:170-186 | after the inner loop every y that x identifies is recorded with x, and the list is `RowFrom`: the `Recorded` steps of x's row applied in column order |
| Dependencies.ClassifyRemainingPairs | ExplodableDataFrame.py:167-186 | afterwards the list holds exactly the identifying ordered pairs of distinct remaining columns, each once, in the order the double loop first meets them: it is `PairwiseList`, the `Recorded` steps of every row in row-major order; Independent holds exactly the remaining columns that are no pair's dependent, in their order |
| Dependencies.IndependentMeaning | ExplodableDataFrame.py:154-186 | after classification Independent holds exactly the candidate columns that no other candidate identifies |
| Dependencies.ExtractBijectivePairs | ExplodableDataFrame.py:189-197 | the remaining list is the input with every mutually identifying pair filtered out in order; Bijective holds exactly the pairs met before their reverse (the first-met pair of each couple), in list order |
| Dependencies.MutuallyTransitive | ExplodableDataFrame.py:244-245 | two columns that each identify both ways with a third identify each other both ways |
| Dependencies.PickedCouples | ExplodableDataFrame.py:167-197 | the extracted bijective pairs are exactly the mutual couples of candidates, each written earlier column first, in the row-major order of the pairwise loop |
| Dependencies.FirstHolding | ExplodableDataFrame.py:203-208 | the position of the first group holding x or y: no earlier group holds either, and it does when it is within the list |
| Dependencies.JoinFirstGroup | ExplodableDataFrame.py:202-210 | the result is `Join`: the first group holding x or y gains whichever of them it lacks, and when no group holds either, [x, y] becomes a new last group; the groups stay well-formed (two or more distinct mutually identifying columns each), no group loses a member, and x and y end up in one group |
| Dependencies.JoinIntoGroup | ExplodableDataFrame.py:203-208 | adding the missing columns of a mutual pair to a group holding one of them keeps the groups well-formed, loses no member and puts the pair together |
| Dependencies.JoinAsNewGroup | ExplodableDataFrame.py:209-210 | a mutual pair appended as a group of its own keeps the groups well-formed and puts the pair together |
| Dependencies.GroupBijectivePairs | ExplodableDataFrame.py:200-211 | the loop computes `Grouped`, joining the pairs in turn; every group is well-formed and both columns of each bijective pair share a group |
| Dependencies.GroupedPartitioned | ExplodableDataFrame.py:200-211 | for pairs in the order the earlier phases deliver them, the groups after each prefix are disjoint, unrelated to each other, in column order, headed by the earliest column of their class, listed in the order of their heads, and hold every pair of the prefix together |
| Dependencies.GroupsPartitionClasses | ExplodableDataFrame.py:200-211 | the final groups are one per class of mutually identifying columns: disjoint, unrelated, in the table's column order and headed by the earliest column of the class, and the groups themselves are listed in the column order of their heads |
| Dependencies.CliqueExtend | ExplodableDataFrame.py:204-207 | adding a mutually identifying column to a group that holds its partner keeps every pair in the group mutually identifying |
| Dependencies.RemoveForGroupsFilters | ExplodableDataFrame.py:218-220 | the inner loop removes the pair exactly when its dependent is a non-first member of some group |
| Dependencies.RemoveForGroups | ExplodableDataFrame.py:218-220 | the inner loop never lengthens the Identifies list and never adds a pair to it |
| Dependencies.PruneFilters | ExplodableDataFrame.py:214-221 | pruning keeps a duplicate-free, order-kept sub-list, and every pair it drops has a dependent that is a non-first group member |
| Dependencies.PruneSkipsAfterRemoval | ExplodableDataFrame.py:214-221 | with group [a, b], pruning [(c,b), (d,b)] leaves [(d,b)]: the pair after a removed one is skipped |
| Dependencies.PruneIdentifications | ExplodableDataFrame.py:214-221 | the loop computes `Prune`, the as-written pruning, including the skip after a removal |
| Dependencies.BijectivePairsSound | ExplodableDataFrame.py:189-195 | each extracted bijective pair identifies in both directions between candidate columns |
| Dependencies.MutualPairsGrouped | ExplodableDataFrame.py:189-211 | any two candidates that identify each other end up in a common group |
| Dependencies.SurvivingPairsSound | ExplodableDataFrame.py:189-221 | every surviving pair identifies one way only, and every one-way pair whose dependent is not a non-first group member survives |
| Dependencies.DetectColumnRelationships | ExplodableDataFrame.py:142-223 | `Detected`: Unique and Constant are exact and in column order; Independent is exactly the candidates that nothing identifies, in column order; the lists are duplicate-free; the Identifies list is `Prune` (the as-written pruning) of `OneWayList`, the row-major pairwise list without its mutual couples, so each pair is one-way between distinct candidates and its order is fixed; the groups are one per class of mutually identifying columns: well-formed, disjoint, unrelated to each other, in column order, headed by the earliest column of the class and listed in the order of their heads |
| Decomposer.RemoveCompositeRedundancy | ExplodableDataFrame.py:79-88 | at depth 1 nothing changes; at greater depths exactly the non-redundant pairs survive (no composite y, no composite x with y among its components), in their original order |
| Decomposer.MarkConstantsAndUniques | ExplodableDataFrame.py:73-77 | each accumulator gains exactly the new columns not yet listed, at its end |
| Decomposer.AppendAll | ExplodableDataFrame.py:74-77 | the loop appends the absent elements in order |
| Decomposer.BijectiveStructureKeys | ExplodableDataFrame.py:109-112 | the keys of `BijectiveStructure` are the groups' first members, first occurrence first |
| Decomposer.BijectiveStructureValues | ExplodableDataFrame.py:110-112 | a key maps to the rest of the last group it heads |
| Decomposer.BijectiveStructure | ExplodableDataFrame.py:109-112 | the structure built from the groups is an insertion-ordered dict (its key order lists each key once, and only its keys) |
| Decomposer.EntryGroup | ExplodableDataFrame.py:110-112 | every entry of the bijective structure comes from a group whose head is the key and whose later members include the value |
| Decomposer.GroupsDetermine | ExplodableDataFrame.py:109-112 | given well-formed disjoint groups, each key of the bijective structure identifies each of its values both ways |
| Decomposer.BuildBijectiveStructure | ExplodableDataFrame.py:109-112 | the loop builds that structure |
| Decomposer.BuildIdentificationStructure | ExplodableDataFrame.py:119-126 | the loop builds `IdentificationStructure`, the as-written identification structure |
| Decomposer.IdentificationStructureSound | ExplodableDataFrame.py:121-125 | every recorded determinant and dependent is a listed Identifies pair |
| Decomposer.IdentificationStructureComplete | ExplodableDataFrame.py:121-126 | every pair whose determinant is never a dependent is recorded |
| Decomposer.IdentificationDependents | ExplodableDataFrame.py:126 | the dependent list holds only targets of listed pairs |
| Decomposer.IdentificationStructure | ExplodableDataFrame.py:119-126 | the identification structure is an insertion-ordered dict |
| Decomposer.PairsDetermine | ExplodableDataFrame.py:119-126 | when every listed pair is one-way, each key of the identification structure identifies each of its values one way |
| Decomposer.DependentUnderTwoDeterminants | ExplodableDataFrame.py:122 | with pairs (a,c), (b,c) the column c is listed under both a and b |
| Decomposer.NewTableRows | ExplodableDataFrame.py:59-63 | `NewTable` has keys-then-dependents columns, no duplicate rows, no more rows than the working table, every projected row and only those |
| Decomposer.SubtableLossless | ExplodableDataFrame.py:59-63 | when the keys determine the dependents, the subtable loses no row: its rows are distinct, one of them is the row's projection onto keys then dependents, and that is the only one that starts with the row's keys (`RowKept`) |
| Decomposer.CreateSubtables | ExplodableDataFrame.py:51-65 | either a header is missing (KeyError naming an absent column) or every entry appends its table, key list and foreign keys, keeping tables and schema aligned |
| Decomposer.ExtendedConsistent | ExplodableDataFrame.py:58-65 | appending the entries keeps tables and key lists aligned, foreign keys equal to their concatenation, and subtables duplicate-free |
| Decomposer.ConcatSplit | ExplodableDataFrame.py:58 | the concatenation of two runs of key lists is the concatenation of each |
| Decomposer.DependentsUpToAll | ExplodableDataFrame.py:68-69 | the second loop covers all dependents of the structure |
| Decomposer.DropColumns | ExplodableDataFrame.py:69-71 | the listed columns that are present are dropped, the rest kept in order |
| Decomposer.DropDependents | ExplodableDataFrame.py:68-71 | every dependent of the structure is gone from the working table, other columns are kept in order and unchanged |
| Decomposer.DropEntry | ExplodableDataFrame.py:68-71 | one turn of the outer drop loop removes the dependents of one more entry and keeps the rest in order with their values |
| Decomposer.ExtractColumnsToNewTable | ExplodableDataFrame.py:50-71 | on a missing header the table is unchanged and a KeyError names the column; otherwise the progress gains the new subtables and the dependents are dropped |
| Decomposer.CompositeColumnSameOn | ExplodableDataFrame.py:97 | a composite column depends only on its component columns |
| Decomposer.AddComposites | ExplodableDataFrame.py:92-98 | one fresh column per combination, in combination order, Binomial(n, depth) of them; the i-th maps to the i-th combination and holds its composite; old columns are unchanged |
| Decomposer.ExtractPass | ExplodableDataFrame.py:105-127 | the pass records the table it saw; its relationships meet `Detected` there; its structure is `BijectiveStructure` of the groups or `IdentificationStructure` of the Identifies pairs left by `RemoveCompositeRedundancy`; on a missing header a KeyError (`PassFailed`: some header of the structure is not a column of the table seen, and the error names an absent column) and an unchanged table; otherwise `Passed`: the output is the input output with the new Constant and Unique columns and one `NewTable` per structure entry, in order, over the columns seen, and exactly the structure's dependents are dropped, the rest kept in order |
| Decomposer.PassDetermines | ExplodableDataFrame.py:105-127 | in a successful pass every key of the structure identifies each of its dependents in the table the pass saw: both ways in the bijective pass, one way in the identification pass |
| Decomposer.PassKeyDetermines | ExplodableDataFrame.py:105-127 | in a successful pass the key column of every entry determines each of its dependent columns, row by row, in the table the pass saw |
| Decomposer.EntryOverInput | ExplodableDataFrame.py:51-60 | an entry over a table drawn from the input, whose key determines its dependents there, reads the input's own columns, and in the input its keys (a composite's components) determine its dependents |
| Decomposer.EntryFromInput | ExplodableDataFrame.py:51-63 | the subtable of each entry of a successful pass on a table drawn from the input is the input's projection onto the entry's keys then dependents, and in the input those keys determine those dependents |
| Decomposer.EntryLossless | ExplodableDataFrame.py:51-64 | that subtable, with the key list line 64 appends to the schema, is `Lossless` over the input |
| Decomposer.ExtendedLossless | ExplodableDataFrame.py:51-64 | appending subtables that are each lossless with their key lists keeps every subtable of the output lossless |
| Decomposer.PassLossless | ExplodableDataFrame.py:105-127 | a successful pass on a table drawn from the input whose dependents are no composites leaves every subtable of the output lossless over the input |
| Decomposer.FirstSeenFrom | ExplodableDataFrame.py:92-98 | the bijective pass of a round sees a table drawn from the input: the input's height, the input's values in every column that is not a composite, and each composite made of input columns that are not composites |
| Decomposer.RoundLossless | ExplodableDataFrame.py:102-127 | a successful round whose first pass saw a table drawn from the input, and which kept its composites, leaves every subtable lossless over the input |
| Decomposer.StepLossless | ExplodableDataFrame.py:90-133 | a round that extends a traced run as `StepOk` says keeps every subtable lossless over the input |
| Decomposer.LosslessUpTo | ExplodableDataFrame.py:90-133 | every subtable the first n rounds of a traced run extract is lossless over the input |
| Decomposer.TracedLossless | ExplodableDataFrame.py:90-133 | every subtable of a traced run is the input's projection onto its key list then dependents that the key list determines in the input |
| Decomposer.TracedRowKept | ExplodableDataFrame.py:36-139 | no input row is lost: for every input row and every extracted subtable, exactly one row of the subtable agrees with the input row on the subtable's key columns, and that row carries the input row's values of the subtable's dependents |
| Decomposer.BothPasses | ExplodableDataFrame.py:105-127 | on success both passes meet `Passed`, the second on what the first left and from its output, and the working table has lost exactly the dependents of both; a KeyError means `PassesFailed`: the bijective pass failed, or it succeeded and the identification pass on what it left failed |
| Decomposer.PassesThenDrop | ExplodableDataFrame.py:105-131 | as BothPasses; on success every composite was still present after both passes and is now gone as well; a KeyError means a pass failed, or both passed and the error names a composite no longer present |
| Decomposer.DropComposites | ExplodableDataFrame.py:129-131 | fails exactly when a composite is no longer present, naming it; otherwise the composites are gone and the rest kept in order |
| Decomposer.Round | ExplodableDataFrame.py:90-133 | the composites added are one per combination of the working columns at depth > 1, none at depth 1; on success both passes meet `Passed`, the first on the table as the round found it plus its composites, the second on what the first left and from its output; the working table has lost exactly both passes' dependents and the composites, and kept the other columns in order with their values, and no pass removed a composite as a dependent (`CompositesKept`); a KeyError means `RoundFailed`: a pass failed (`PassesFailed`), or both passed and one of them removed the named composite as a dependent |
| Decomposer.RoundNames | ExplodableDataFrame.py:68-71 | what a round leaves of the names: the input names without the dependents of both passes and the composites, in order |
| Decomposer.AddedFrom | ExplodableDataFrame.py:94-98 | every composite of a round is made of that round's working columns |
| Decomposer.RoundSawInput | ExplodableDataFrame.py:96-98 | what a round saw can be restated over the input's columns, which agree with the round's own on the names it started from |
| Decomposer.RunDepths | ExplodableDataFrame.py:90-133 | the trace is `Traced`: round i runs at depth i + 1 on what the earlier rounds left, adds the composites of that depth over the columns not yet Constant or Unique, both its passes meet `Passed`, and it ran only because the early exit of line 95 did not fire; the output is that of the last round and the table has lost exactly what the rounds dropped; at most max depth rounds, at least one when the depth is positive; an early exit happens only when the remaining working columns number the next depth; nothing happens below depth 1; a KeyError means `TracedFailure`: every round before the last is `Traced`, and the last round started as the depth loop starts one and failed as `StepFails` says |
| Decomposer.Deepen | ExplodableDataFrame.py:91-133 | one round past the early exit extends the trace of the earlier rounds: on success the new trace is `Traced`, its output is the round's output and the table has lost exactly what all rounds dropped, the remaining columns keeping their values; on a KeyError the trace with the round appended is `TracedFailure` |
| Decomposer.NextRound | ExplodableDataFrame.py:91-133 | a round that started as `StepStarted` says and succeeded extends the trace, and its dropped columns are removed from what the earlier rounds kept |
| Decomposer.RoundStarted | ExplodableDataFrame.py:91-98 | a round run on what the earlier rounds left, past the early exit, with the composites of its depth over the columns not yet Constant or Unique, started as `StepStarted` says |
| Decomposer.FailedRound | ExplodableDataFrame.py:90-133 | a round that started as `StepStarted` says and failed ends the run in a `TracedFailure` |
| Decomposer.StepOkKept | ExplodableDataFrame.py:90-133 | a round of a traced run keeps its place when the run grows |
| Decomposer.TracedStep | ExplodableDataFrame.py:90-133 | a round that follows the earlier rounds of a traced run extends the trace |
| Decomposer.ExtendedTrace | ExplodableDataFrame.py:90-133 | one more round adds its dropped columns to those of the run and its output becomes the run's output |
| Decomposer.BreakIntoSubtables | ExplodableDataFrame.py:36-139 | the trace is `Traced` on the input; the first table is the input projected onto the columns no round dropped, in order, with key columns flagged; the other tables and key lists are those the traced passes extracted, in order; tables and schema have equal length; `schema[0]` is the concatenation of all key lists; every subtable is duplicate-free with at most the input's rows, and `Lossless` over the input with its key list: it is the input's projection onto the key list then dependents that the key list determines, so every input row can be found in it by its keys (TracedRowKept); there are at most max depth rounds and at least one when the depth is positive, and a run with fewer rounds than the depth stopped because the columns neither Constant nor Unique number one more than the rounds run; below depth 1 the result is the unchanged input and `[[]]`; a KeyError means the trace is a `TracedFailure` on the input: the rounds before the last succeeded, and the last failed as `StepFails` says |
| Decomposer.Assembled | ExplodableDataFrame.py:135-139 | the output has as many tables as key lists; the first table has the kept columns with the key columns flagged and one row per input row; `schema[0]` is the concatenation of the other key lists; every other table is duplicate-free with at most the input's rows |
| Decomposer.PrependedLossless | ExplodableDataFrame.py:137-139 | putting the residual table and its key list in front keeps every later table lossless with its own key list |
| Decomposer.AssembledAlone | ExplodableDataFrame.py:42-48 | with nothing extracted the output is the unflagged input alone, with an empty key list |

## Left out

- `from_excel` (lines 23-24): spreadsheet file I/O.
- `visualize_relationships` (lines 261-278): graph plotting.
- `__init__` and `_constructor` (lines 11-19): plumbing for the pandas subclass.
- The `as_dict=True` branch of `get_unique_column_pairs` (line 254): it
  depends on the iteration order of a Python set.
- Pandas internals are abstract here: `str()` is the parameter `show`, and
  cells compare with Dafny equality. This leaves out dtypes, index labels,
  and NaN handling in `drop_duplicates`.
- Duplicate column labels: the model assumes column names are distinct.
- Dependencies.RemoveForGroups: a second `list.remove` of a pair already
  removed would raise `ValueError` in Python; the model treats it as a
  no-op. It would need a column that is a non-first member of two groups,
  and the groups the detection builds are disjoint
  (Dependencies.GroupsPartitionClasses), so it does not arise from
  `detect_column_relationships`.
- Tables.FreshName: an empty joiner with a taken name would loop forever in
  the source. A precondition excludes that case, and through it
  `break_into_subtables` at depth above 1 with an empty joiner.
- Decomposer.BreakIntoSubtables: after a `KeyError`, the model returns the
  error and the trace up to the failing round. It does not describe the
  partially built output the source leaves behind, and it names the missing
  column only as one the failing pass's table lacks, or as the composite
  removed, not as the first one the source meets.
- Decomposer.BreakIntoSubtables: neither a one-step round-trip nor
  idempotence is stated, because this code has neither. What holds is that
  no input row is lost (Decomposer.TracedRowKept and the `Lossless` clause).
  Idempotence fails on columns a, b and c where a identifies b, a
  identifies c and b identifies c, all one way. The identification pass
  takes a as the key of both and skips the pair (b, c) because b is
  already a dependent, so it extracts [a†, b, c]. Inside that subtable b
  still identifies c, so decomposing it again extracts [b†, c]. The
  round-trip fails when a identifies h one way and h and g are bijective.
  The bijective pass extracts [h†, g]. The identification pass then
  extracts [a†, h] and drops h. The residual [a†] shares no column with
  [h†, g], so joining each subtable directly onto the residual cannot
  rebuild the input; [h†, g] is reached only through [a†, h].
- The example dataset and scripted checks in `sample.py` are not part of
  this model.
