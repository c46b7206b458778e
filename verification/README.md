# Verification of the egrph graph engine

egrph is an embedded property-graph database with a Cypher front end. This
project models its in-memory storage, its path searches, the planning and
execution of MATCH, the rewrites that make queries fast, the clauses that write
(CREATE, MERGE, constraints), and the Cypher export, and proves what they keep.

The layers, each built on the one before:

- **Storage.** `MemoryStorages.MemoryStorage` is a class with the source's
  eight tables: nodes, edges, two adjacency tables, label, property and endpoint
  index, and the id counters. `View()` forgets the indexes and leaves an
  `AbstractGraph.Graph`. Every method keeps the tables in step and is proved to
  do on the view what one abstract operation says, so the rest of the project
  reasons about graphs. What each write changes, and that it changes nothing
  else, is also stated field by field.
- **Searches.** `Trails` and `ShortestWalks` say what a trail and a shortest
  walk are; `VarLengthExpand` and `ShortestPathSearch` run the source's arena
  searches and are proved to find exactly those, and their rows to show them.
- **MATCH.** `Planner` builds the plan, `MatchExecution` runs it,
  `MatchChain`, `StartScans` and `MatchQueries` prove which assignments come
  out. `ScanPushdown` proves WHERE pushdown, `ReverseWalk` and
  `PatternComprehension` the reverse walk of EXISTS and of pattern
  comprehensions, `RowOperations` the OPTIONAL MATCH hash join and UNION,
  `Aggregation` and `AggregateRows` grouping; `StableKeys` and `ListKeys` the
  text keys these use. `Expressions` evaluates what all of them filter by, and
  `ExpressionLaws` and `FloatValues` say what its answers mean.
- **Writing.** `CreateClauses`, `NodeMerge`, `ChainMerge`, `MergeProbe`,
  `MergeIdempotence`, and `ConstraintRules` with `ConstrainedStorages`;
  `CreatedPaths` and `MergedChains` say what a clause leaves behind in terms of
  the graph and the rows alone.
- **Export.** `StringLiterals`, `Decimals` and `Identifiers` give the tokens,
  `Export` prints a graph, `ExportReplay` reads the parts and replays them.

Floats are their 64 bits (`Floats.F64`), compared as IEEE 754 compares them, so
NaN and the two zeros are explicit wherever the source mixes `==`, `partial_cmp`
and index keys made of bits. `i64` ranges, checked sums and the conversion of an
integer to the nearest double are written out. Where the
source iterates a hash table the model takes some enumeration of it, so no result
depends on its order.

Where a property the source suggests is false, the model keeps the code as it is,
a lemma names an input on which it fails, and another states exactly when it
holds. "## Findings" lists them.

## Model

| member | source | states |
|---|---|---|
| AbstractGraph.ApplyKeepsGraphOk | egrph-core/src/graph/storage.rs:74-535 | one write of any kind, failed or not, leaves every node and edge filed under its own id, every edge with two live ends, and the id counters above all ids |
| AbstractGraph.RunsKeepGraphOk | egrph-core/src/graph/storage.rs:74-535 | the same over any sequence of writes; ids only grow and are never reused |
| MemoryStorages.MemoryStorage.Run | egrph-core/src/graph/storage.rs:62-535 | from any valid storage, any run of writes leaves all indexes holding exactly the live nodes and edges they should, and the graph is the one the abstract operations give |
| MemoryStorages.MemoryStorage.CreateNode | egrph-core/src/graph/storage.rs:74-102 | the new node has the next id and is filed in both indexes; the invariant is kept |
| MemoryStorages.MemoryStorage.CreateEdge | egrph-core/src/graph/storage.rs:104-135 | a missing end is an error that changes nothing; otherwise the edge is in both adjacency lists and the endpoint index |
| MemoryStorages.MemoryStorage.SetNodeProperty | egrph-core/src/graph/storage.rs:324-348 | the old value leaves the property index and the new one enters it; of the graph, one property of one node changes |
| MemoryStorages.MemoryStorage.SetNodeAllProperties | egrph-core/src/graph/storage.rs:359-381 | every old pair leaves the index, every new one enters it |
| MemoryStorages.MemoryStorage.MergeNodeProperties | egrph-core/src/graph/storage.rs:389-411 | the merged keys are reindexed one after another and the others left alone, whatever order the map gives them in; a key given anew has the new value, every other keeps its own |
| MemoryStorages.MemoryStorage.RemoveNodeProperty | egrph-core/src/graph/storage.rs:435-446 | property and index entry go together |
| MemoryStorages.MemoryStorage.AddNodeLabels | egrph-core/src/graph/storage.rs:421-433 | labels already present are not filed twice |
| MemoryStorages.MemoryStorage.RemoveNodeLabels | egrph-core/src/graph/storage.rs:448-457 | removed labels leave the label index |
| AbstractGraph.LabelsFollow | egrph-core/src/graph/storage.rs:421-433 | labels a node has stay where they are; the new ones follow in the order given, none twice |
| AbstractGraph.LabelsStay | egrph-core/src/graph/storage.rs:448-457 | the labels not removed stay, in their order, and no other |
| MemoryStorages.MemoryStorage.SetEdgeProperty | egrph-core/src/graph/storage.rs:350-357 | one property of one edge has the new value; every other property, edge, node and counter is what it was |
| MemoryStorages.MemoryStorage.SetEdgeAllProperties | egrph-core/src/graph/storage.rs:383-387 | one edge has the given properties and no other; nothing else changes |
| MemoryStorages.MemoryStorage.MergeEdgeProperties | egrph-core/src/graph/storage.rs:413-419 | key by key, the new value where there is one and the old one elsewhere; nothing else changes |
| MemoryStorages.MemoryStorage.RemoveEdgeProperty | egrph-core/src/graph/storage.rs:459-463 | the key is gone from one edge; nothing else changes |
| MemoryStorages.MemoryStorage.DeleteEdge | egrph-core/src/graph/storage.rs:784-797 | exactly this edge leaves the edge table, and with it both adjacency lists and the endpoint index; nodes and counters stay as they were, and an unknown id is an error that changes nothing |
| MemoryStorages.MemoryStorage.DeleteNode | egrph-core/src/graph/storage.rs:465-535 | refused without DETACH while an edge touches the node; otherwise the node, all its edges (self-loops once) and all its index entries go, and nothing else |
| MemoryStorages.MemoryStorage.EdgesBetween | egrph-core/src/graph/storage.rs:799-808 | the endpoint index returns the very list, in order, that the default scan of outgoing edges returns |
| AbstractGraph.BetweenMeans | egrph-core/src/graph/backend.rs:28-33 | that scan picks, in order, exactly the outgoing edges of the type that end at the node |
| MemoryStorages.MemoryStorage.MatchNodes | egrph-core/src/graph/storage.rs:183-196 | each node with the label once, no other |
| MemoryStorages.MemoryStorage.MatchNodesWithProps | egrph-core/src/graph/storage.rs:198-241 | the posting intersection, and the plain scan whenever no required value is a NaN or a zero float |
| AbstractGraph.IndexScanIsTight | egrph-core/src/graph/backend.rs:44-60 | the posting intersection is the default scan on every graph if and only if no required value is a NaN or a zero float |
| MemoryStorages.MemoryStorage.FindNodes | egrph-core/src/graph/storage.rs:251-310 | the ids returned are one possible smallest posting list filtered by labels and by `==` on every property, each id once |
| NodeLookup.FindsMeans | egrph-core/src/graph/storage.rs:251-310 | only nodes that fit are found, and every node that holds the values bit for bit is |
| NodeLookup.FindIsTight | egrph-core/src/graph/storage.rs:251-310 | the lookup is the plain scan on every graph if and only if no required value is a zero float, or one is a NaN so that nothing fits |
| GraphTypes.ExactIsTight | egrph-core/src/graph/storage.rs:811-819 | `==` on property values is identity of bits, against every other value, exactly for values that are neither NaN nor zero floats |
| Trails.AllTrailsExact | egrph-core/src/executor/mod.rs:1996-2130 | the breadth-first search finds each relationship-distinct walk that respects types and direction, of length 1 to the maximum, exactly as often as its undirected self-loops dictate, and nothing else |
| Trails.DirectedTrailsDistinct | egrph-core/src/executor/mod.rs:1996-2130 | on a directed pattern each such trail is found exactly once |
| Trails.WalkMeans | egrph-core/src/executor/mod.rs:2055-2110 | a list of edges is a walk exactly when it passes a sequence of nodes that begins at the start and whose neighbours each edge joins in the direction of the search, with an allowed type; the sequence is unique and the walk ends at its last node |
| VarLengthExpand.PathChainContains | egrph-core/src/executor/mod.rs:1964-1978 | climbing the arena answers whether the edge is on the chain that ends there |
| VarLengthExpand.ExpandRow | egrph-core/src/executor/mod.rs:2010-2147 | queue and arena together produce the rows of all trails in the order of the search, or the capacity error exactly when there are more trails than arena slots; each row shows its own trail: the node it ends at, a relationship list whose k-th item is its k-th edge, every other column as it was, with lengths up to the written maximum, or 100 |
| VarLengthExpand.VarLengthRowsExact | egrph-core/src/executor/mod.rs:2050-2147 | the rows of one input record are the images of exactly the trails of length max(1, min) to max, with their multiplicities; the relationship list is the trail from its first edge to its last |
| VarLengthExpand.RowsMean | egrph-core/src/executor/mod.rs:2110-2147 | row by row: the target variable holds the last node the trail passes and the relationship variable the edges of the trail from first to last |
| VarLengthExpand.ExpandAllMeans | egrph-core/src/executor/mod.rs:1996-2147 | the rows of a clause are one block per input row, in order |
| VarLengthExpand.ExecuteVarLengthExpand | egrph-core/src/executor/mod.rs:1996-2147 | all input rows in order, one block of such rows each; rows without a node to start from give an empty block; the default-limit error is never raised |
| ShortestWalks.RepeatedEdgeIsNear | egrph-core/src/executor/mod.rs:2451-2488 | retaking an edge of a walk only reaches nodes already passed, so pruning visited nodes loses no shortest walk |
| ShortestWalks.ShortestHasNoRepeats | egrph-core/src/executor/mod.rs:2451-2454 | a shortest walk repeats no edge |
| ShortestWalks.NothingBeyond | egrph-core/src/executor/mod.rs:2513-2516 | when a level is empty no node is farther, so stopping there is right |
| ShortestWalks.LevelMembers | egrph-core/src/executor/mod.rs:2434-2512 | a level of the search holds every shortest walk of its length, each once |
| ShortestWalks.AllShortestExact | egrph-core/src/executor/mod.rs:2434-2517 | allShortestPaths: the walks that arrive at the target on its level are all walks as long as its distance, each once |
| ShortestPathSearch.FindShortest | egrph-core/src/executor/mod.rs:2415-2517 | shortestPath finds one path and allShortestPaths all of them when the distance lies between min and the effective maximum, and nothing when it does not, for every graph, direction, type filter and bound |
| ShortestPathSearch.PathSpellsWalk | egrph-core/src/executor/mod.rs:2519-2545 | the path value read back from the arena starts at the start node, consecutive relationships connect its nodes, and none is dropped |
| ShortestPathSearch.FoundIsAsked | egrph-core/src/executor/mod.rs:2415-2517 | the walks found are the ones asked for: of all walks that lead from start to target none is shorter |
| ShortestPathSearch.RowShowsPath | egrph-core/src/executor/mod.rs:2519-2545 | the row of a walk holds the nodes and edges it passes, in order, and keeps the other columns |
| ShortestPathSearch.ZeroLength | egrph-core/src/executor/mod.rs:2398-2414 | equal ends: the path of length zero, exactly when min is 0 |
| ShortestPathSearch.ShortestRows | egrph-core/src/executor/mod.rs:2380-2560 | each row of a record shows a walk between its two bound nodes that no other undercuts: a path value whose first node is the start and last the target, whose relationships join neighbouring nodes in the direction of the pattern, the same relationships under their variable, and every other column as it was; all such walks once each or one of them, and none when they are shorter than min or longer than the written maximum, or 100 |
| ShortestPathSearch.ExecuteShortestPath | egrph-core/src/executor/mod.rs:2356-2563 | one block of such rows per record, in order; the default-limit error is never raised |
| Planner.PlanMatchScan | egrph-core/src/planner/mod.rs:125-317 | the loop over pattern elements builds the plan the recursive specification gives: scan, label and property filters, one expand per hop |
| Planner.AddPropertyFilters | egrph-core/src/planner/mod.rs:430-456 | one equality filter per identifier entry, in order; string and parameter keys are skipped |
| PatternNames.ChainVarsDistinct | egrph-core/src/planner/mod.rs:125-317 | names made up for anonymous nodes and relationships never meet each other or a written name, because no identifier begins with two underscores |
| PatternNames.HopNamesAlwaysDiffer | egrph-core/src/planner/mod.rs:180-300 | so within a hop the three variables differ, which the plan's meaning depends on |
| MatchExecution.ExecuteScan | egrph-core/src/executor/mod.rs:98-154 | the scan returns each node of the posting intersection for the evaluated inline properties once, nothing when a value cannot be stored, and fails when one does not evaluate |
| MatchExecution.ExecuteExpand | egrph-core/src/executor/mod.rs:156-238 | every row is extended by every candidate edge of the right type in adjacency order, one block per row |
| MatchExecution.RecordMeans | egrph-core/src/executor/mod.rs:156-238 | for each row first the edges that leave its node, then those that arrive, as the direction admits, each in order of ids: a new row holds the far node and the edge under their names and is otherwise the old one |
| MatchExecution.ExecuteFilter | egrph-core/src/executor/mod.rs:240-259 | the rows on which the condition is true stay, in order; it fails exactly when the condition is an error on some row |
| MatchExecution.Execute | egrph-core/src/executor/mod.rs:98-259 | the executor computes the meaning of the plan on the scanned nodes, errors included |
| MatchChain.ChainPlanMatches | egrph-core/src/planner/mod.rs:125-317 | running the plan of a pattern gives the rows of the pattern's matches, never an error, for constant properties |
| MatchChain.HopMeans | egrph-core/src/executor/mod.rs:156-238 | a hop of a match is satisfied exactly when the edge joins the two nodes in the direction of the pattern and has an allowed type, and its properties and the far node fit |
| MatchChain.MatchesExact | egrph-core/src/executor/mod.rs:98-259 | every assignment of nodes and edges that satisfies all labels, types, directions and properties is found, once unless an undirected hop crosses a self-loop, and nothing else is |
| MatchQueries.MatchPattern | egrph-core/src/planner/mod.rs:125-317 | plan and execute: the rows are those of a multiset of matches, and wherever the start lookup agrees with the start map that is every satisfying assignment, once each unless an undirected hop crosses a self-loop, and nothing else |
| MatchQueries.RowsShowMatches | egrph-core/src/executor/mod.rs:156-238 | a row binds every variable of the pattern to its own node or relationship of the match |
| StartScans.ScanIsFaithful | egrph-core/src/executor/mod.rs:98-142 | on a given graph the start scan finds exactly the nodes that fit the start map if and only if lookup and map agree on each node |
| StartScans.ScanIsTight | egrph-core/src/executor/mod.rs:98-142 | on all graphs it does so if and only if every key is pinned down by its last entry, or some entry holds a value no property can have |
| StartScans.PinnedMeansOnly | egrph-core/src/executor/expression.rs:582-594 | pinned down, a condition on the listed values alone, means that only the last value satisfies all entries of the key |
| StartScans.SingleKeyScanIsTight | egrph-core/src/executor/mod.rs:98-142 | for one inline property: if and only if its value has no numeric twin |
| StartScans.RepeatedKeyIsForgotten | egrph-core/src/executor/mod.rs:106-128 | `{x: 1, x: 2}` returns a node whose x is 2 |
| Expressions.TwinsExactly | egrph-core/src/executor/expression.rs:582-594 | a value has a twin exactly when comparison and identity part ways on some stored property: every integer, every float some integer converts to, NaN and the zeros |
| Expressions.AndIsTruthy | egrph-core/src/executor/expression.rs:604-610 | three-valued AND keeps a row exactly when both sides do |
| ExpressionLaws.IntegersByValue | egrph-core/src/executor/expression.rs:560-594 | the six comparison operators agree with the order of the integers |
| ExpressionLaws.FloatsByValue | egrph-core/src/executor/expression.rs:560-594 | and with the order of the values of floats, infinities beyond all; a NaN is incomparable |
| ExpressionLaws.MixedByValue | egrph-core/src/executor/expression.rs:582-594 | an integer and a float compare as the float nearest to the integer does |
| ExpressionLaws.TextOrder | egrph-core/src/executor/expression.rs:582-594 | texts are ordered by the first character in which they differ, or by which is a beginning of the other |
| ExpressionLaws.OthersAreIncomparable | egrph-core/src/executor/expression.rs:582-594 | two numbers, two texts and two truth values compare; every other pair gives null under every operator |
| ExpressionLaws.ConnectivesMean | egrph-core/src/executor/expression.rs:604-634 | when AND, OR, XOR and NOT are true and when false; anything else is null |
| ExpressionLaws.ConnectivesAreDual | egrph-core/src/executor/expression.rs:604-634 | De Morgan holds with nulls and with values that are no truth value |
| ExpressionLaws.PropertyMeans | egrph-core/src/executor/expression.rs:400-416 | a property is the stored scalar, or null when there is none |
| FloatValues.ComparesByValue | egrph-core/src/executor/expression.rs:582-594 | the comparison of float bits is the comparison of their values in units of the least positive float |
| FloatValues.ConvertsToNearest | egrph-core/src/executor/expression.rs:582-594 | an i64 converts to a float whose value is the multiple of the spacing nearest to it, the even one of two |
| ScanPushdown.FilterSplits | egrph-core/src/planner/mod.rs:486-544 | through any predicate tree: the filter asks that the pushed pairs compare equal and that what remains holds |
| ScanPushdown.LookupSplits | egrph-core/src/planner/mod.rs:486-544 | and the pushed scan asks that they are identical, besides what it asked for before; it fails exactly when the scan before it did |
| ScanPushdown.ExtractSound | egrph-core/src/planner/mod.rs:486-544 | so where comparison and identity agree on them, scan and leftover enforce what scan and predicate did |
| ScanPushdown.PushdownIsFaithful | egrph-core/src/planner/mod.rs:465-544 | on a given graph, for any label, inline properties and predicate the filter evaluates: the pushed plan does not fail, and returns the multiset of rows of the filtered scan if and only if on each live node the scan returned and the leftover keeps, the pushed pairs all compare equal exactly when they are all identical |
| ScanPushdown.PushdownPreserves | egrph-core/src/planner/mod.rs:465-544 | so it does when no node the scan returned holds a twin of a pushed value |
| ScanPushdown.NoTwinsPushExactly | egrph-core/src/planner/mod.rs:530-537 | pushed values without twins meet that hypothesis on every graph |
| ScanPushdown.PushdownIsTight | egrph-core/src/planner/mod.rs:465-544 | for any predicate: pushing is right on every graph if and only if both plans agree on every single node on which the predicate evaluates |
| ScanPushdown.ConjunctionIsTight | egrph-core/src/planner/mod.rs:486-544 | for a predicate pushed as a whole: if and only if no pushed value has a twin, or the lookup asks for a value no property can have |
| ScanPushdown.EqualityIsTight | egrph-core/src/planner/mod.rs:486-528 | for one equality: if and only if its value has no twin |
| ScanPushdown.TwinsMayCancel | egrph-core/src/planner/mod.rs:539-544 | a twin may be harmless when something is left over: `n.x = 1 AND n.x = 'a'` pushes one and is right on every graph |
| ScanPushdown.TwinBreaksPushdown | egrph-core/src/planner/mod.rs:486-528 | for any predicate pushed as a whole with a twin in it, a node on which the plans disagree |
| PatternMatching.UnmentionedIsIrrelevant | egrph-core/src/executor/expression.rs:159-355 | binding a variable an expression does not mention does not change its value or its failure |
| PatternMatching.SeedsCover | egrph-core/src/executor/expression.rs:2281-2311 | seeding from the index by strings and booleans only narrows: the nodes that pass the filter afterwards are exactly those that fit the pattern |
| PatternMatching.NodeCandidates | egrph-core/src/executor/expression.rs:2436-2462 | seed and filter return each fitting node once |
| ReverseWalk.ReverseEqualsForward | egrph-core/src/executor/expression.rs:2369-2533 | the matches found backwards from a bound far node are, with multiplicity, those found forwards if and only if the far node's pattern says the same with and without the start bound, at each match |
| ReverseWalk.ReverseIsTight | egrph-core/src/executor/expression.rs:2793-2884 | the walks agree on every graph if and only if no start node and edge that fit the pattern change what the far node's pattern says |
| ReverseWalk.IndependentAgrees | egrph-core/src/executor/expression.rs:2793-2884 | a far node whose map does not mention the start variable always meets that condition |
| ReverseWalk.ForwardMatches | egrph-core/src/executor/expression.rs:2464-2533 | the forward walk keeps an edge exactly when it is part of a match: two nodes that fit their patterns, joined by an edge that fits, with bound variables on their own nodes |
| ReverseWalk.BackwardMatches | egrph-core/src/executor/expression.rs:2369-2434 | and the reverse walk exactly when it is part of a match whose far node was checked before the start was known |
| ReverseWalk.NoErrorIsEvaluable | egrph-core/src/executor/expression.rs:2369-2533 | the walks succeed whenever no property expression of the pattern is an error |
| ReverseWalk.ExistsForward | egrph-core/src/executor/expression.rs:2464-2533 | the forward walk over the start candidates finds a match exactly when there is one |
| ReverseWalk.ExistsReverse | egrph-core/src/executor/expression.rs:2369-2434 | the reverse walk finds a match exactly when there is one backwards |
| ReverseWalk.EvalExistsHop | egrph-core/src/executor/expression.rs:2313-2367 | whichever walk is chosen, EXISTS is true exactly when a match exists: a start node, an edge that joins it to a far node in the direction of the pattern, and labels, type and properties that fit |
| PatternComprehension.ComprehensionReverses | egrph-core/src/executor/expression.rs:2688-2884 | under the condition above both walks project the same multiset of values and fail together |
| PatternComprehension.ProjectMeans | egrph-core/src/executor/expression.rs:2688-2884 | what filter and projection make of the matches found, value by value |
| PatternComprehension.EvalComprehensionHop | egrph-core/src/executor/expression.rs:2600-2686 | for either walk, in terms of matches alone: an error exactly when the filter, or the projection where the filter is true, is one on the row of some match; otherwise each value as often as matches whose row passes the filter project to it, where that row holds the start node, edge and far node of the match and is otherwise the outer row |
| PatternComprehension.DependentTerminalDiffers | egrph-core/src/executor/expression.rs:2793-2884 | `[(a)-->(b {x: a.x}) \| ...]` with b bound: forwards one match, backwards none |
| StableKeys.KeysIdentify | egrph-core/src/executor/expression.rs:2228-2268 | the stable keys of scalars, nodes, relationships, paths, and flat lists of scalars and entities without a comma in any string are equal exactly when the values are the same: floats by bits, entities by id, paths by the nodes they visit |
| StableKeys.ListKeysCollide | egrph-core/src/executor/expression.rs:2240-2243 | for any strings s and t a list of two has the key of a list of one |
| ListKeys.ListKeyIsTight | egrph-core/src/executor/expression.rs:2228-2243 | the key of a list of scalars and entities is that of no other such list if and only if strings stand only in its last place, and there none that reads like a scalar's key after one of its commas |
| StableKeys.KeyHasNoNul | egrph-core/src/executor/expression.rs:2235-2237 | no key holds the separator |
| StableKeys.CompositeKeysIdentify | egrph-core/src/executor/mod.rs:566-577 | two tuples of keyable values, of any lengths, have one composite key exactly when they are equal in every position |
| StableKeys.CompositeKeys | egrph-core/src/executor/mod.rs:566-577 | for any values at all: exactly when every key is equal |
| KeyClasses.BuildJoinKey | egrph-core/src/executor/mod.rs:566-577 | a separator before every part but the first gives the composite key |
| KeyClasses.BuildDistinctKey | egrph-core/src/executor/mod.rs:307-322 | a separator whenever something precedes gives the same key, since no key is empty |
| KeyClasses.OneFirstPerClass | egrph-core/src/executor/mod.rs:307-322 | deduplication keeps exactly one row of each class, the first |
| RowOperations.ExecuteLeftOuterJoin | egrph-core/src/executor/mod.rs:540-633 | the hash join returns, row for row and in order, what the nested-loop left outer join on the shared columns returns: one block per left row, under the left columns and the right ones that are new |
| RowOperations.EveryLeftRowSurvives | egrph-core/src/executor/mod.rs:586-630 | each left row owns one block of the result, in order, of max(1, partners) rows |
| RowOperations.JoinMeans | egrph-core/src/executor/mod.rs:540-633 | column by column: a block has one row per right row with the same keys in the shared columns, in order, or one row with nulls |
| RowOperations.UnmatchedRowMeans | egrph-core/src/executor/mod.rs:594-602 | a left row without partner keeps its bindings and has null in every column only the right side has |
| RowOperations.MatchedRowMeans | egrph-core/src/executor/mod.rs:603-628 | row j keeps the left bindings and takes the rest from its j-th partner |
| RowOperations.AlikeIsSameValues | egrph-core/src/executor/mod.rs:566-577 | on keyable values, joining is holding the same value in every shared column |
| RowOperations.Deduplicate | egrph-core/src/executor/mod.rs:307-322 | the first row of each class stays, in order |
| RowOperations.FirstRowsMean | egrph-core/src/executor/mod.rs:307-322 | the rows kept are, in order, exactly those that no earlier row equals key by key |
| RowOperations.ExecuteUnion | egrph-core/src/executor/mod.rs:748-795 | unequal column counts are the only error; UNION ALL keeps every row of both sides, UNION the first of each class |
| RowOperations.RemappedByPosition | egrph-core/src/executor/mod.rs:758-773 | the right side's columns are renamed by position |
| RowOperations.RemappedMeans | egrph-core/src/executor/mod.rs:758-773 | a renamed row has exactly the left names; when they are distinct each holds what the right column of its position held, or null |
| Aggregation.GroupRows | egrph-core/src/executor/aggregation.rs:168-202 | one pass with a key table gives the groups in order of first occurrence, each with its rows in order, or fails when a key does not evaluate |
| Aggregation.EveryRowHasOneGroup | egrph-core/src/executor/aggregation.rs:168-202 | each row is in exactly one group, whose rows are all those with its keys |
| Aggregation.SameGroupExactly | egrph-core/src/executor/aggregation.rs:168-202 | two rows share a group exactly when their key tuples have the same keys |
| Aggregation.GroupSizesAddUp | egrph-core/src/executor/aggregation.rs:168-202 | no row is lost and none is counted twice |
| Aggregation.ExecuteAggregation | egrph-core/src/executor/aggregation.rs:146-231 | keys, grouping and one output row per group, with the one row of an empty input and no key |
| AggregateRows.AggregationMeans | egrph-core/src/executor/aggregation.rs:146-231 | each output row stands for a class of input rows that agree on all grouping expressions, classes in the order of their first rows; it shows the grouping values and the count, list or sum over the class of the argument values without nulls, with DISTINCT the first of each key |
| AggregateRows.AggregationSucceeds | egrph-core/src/executor/aggregation.rs:146-231 | it fails when a grouping expression is an error on some row, and cannot fail otherwise but by an argument or a sum |
| Aggregation.CountsAddUp | egrph-core/src/executor/aggregation.rs:146-231 | the count(*) column of the output sums to the number of input rows, whatever the grouping |
| Aggregation.CollectNonNullValues | egrph-core/src/executor/aggregation.rs:358-379 | nulls are dropped and DISTINCT keeps the first value of each key |
| Aggregation.SumValues | egrph-core/src/executor/aggregation.rs:381-400 | an integer SUM is the mathematical sum, and fails exactly when some prefix sums to more than an i64 holds |
| AggregateRows.TotalAdds | egrph-core/src/executor/aggregation.rs:381-400 | the mathematical sum adds over parts and is each integer on its own |
| Aggregation.SumDependsOnOrder | egrph-core/src/executor/aggregation.rs:381-400 | three integers whose sum fits, in one order an error and in another not |
| ConstraintRules.CheckIsExact | egrph-core/src/graph/storage.rs:563-782 | for each kind of constraint: it holds with one more node exactly when the check does not reject that node |
| ConstraintRules.UniqueMeans | egrph-core/src/graph/storage.rs:563-595 | UNIQUE holds when no two labelled nodes store equal values of equal bits under the key |
| ConstraintRules.NodeKeyMeans | egrph-core/src/graph/storage.rs:690-732 | NODE KEY holds when every labelled node has all keys and any two differ under one of them, a NaN being the same as another |
| ConstraintRules.TypeMeans | egrph-core/src/graph/storage.rs:761-782 | PROPERTY TYPE holds when every stored value is of the declared kind |
| ConstraintRules.RegisteredAfter | egrph-core/src/graph/storage.rs:537-561 | after a registration exactly that constraint is registered besides those before it, less the type it replaces on the same label and key |
| ConstraintRules.NextMeans | egrph-core/src/graph/storage.rs:537-797 | one step of a run: a declaration that fails or a refused CREATE changes nothing, one that succeeds is registered, a node that passes is there with its labels and properties |
| ConstraintRules.CreateChecksAreExact | egrph-core/src/executor/mod.rs:851-873 | a checked CREATE goes through if and only if every registered constraint holds after it |
| ConstraintRules.StepKeepsRules | egrph-core/src/executor/mod.rs:851-873 | registration, checked CREATE, edge writes, label removal and deletion each keep every registered constraint |
| ConstraintRules.RunsKeepRules | egrph-core/src/executor/mod.rs:851-873 | so does any run of them |
| ConstraintRules.WritesAreExact | egrph-core/src/graph/storage.rs:324-457 | any write at all, the unchecked ones included, keeps the constraints if and only if no constraint rejects the node as it will be against the other nodes before the write |
| ConstraintRules.RunsAreExact | egrph-core/src/graph/storage.rs:324-457 | over any run, constraints hold throughout if and only if every write met that condition when it was made |
| ConstraintRules.SetCanBreakUnique | egrph-core/src/executor/mod.rs:1296-1390 | a SET that makes two nodes share a UNIQUE value |
| ConstraintRules.RegistrationIsStricterOnNaN | egrph-core/src/graph/storage.rs:537-561 | registering UNIQUE asks for the constraint and, beyond it, that no two nodes hold a NaN |
| ConstraintRules.UniqueUnderEquality | egrph-core/src/graph/storage.rs:563-595 | UNIQUE as enforced is UNIQUE under `==` exactly when no two nodes store zeros of both signs |
| ConstrainedStorages.ConstrainedStorage.AddUniqueConstraint | egrph-core/src/graph/storage.rs:537-561 | registered, beside all that were, exactly when no two labelled nodes print the same value; a failure registers nothing |
| ConstrainedStorages.ConstrainedStorage.AddNotNullConstraint | egrph-core/src/graph/storage.rs:607-626 | registered, beside all that were, exactly when every labelled node has the key; a failure registers nothing |
| ConstrainedStorages.ConstrainedStorage.AddNodeKeyConstraint | egrph-core/src/graph/storage.rs:648-688 | registered, beside all that were, exactly when every labelled node has all keys and no two print the same tuple; a failure registers nothing |
| ConstrainedStorages.ConstrainedStorage.AddPropertyTypeConstraint | egrph-core/src/graph/storage.rs:734-759 | registered, in place of an earlier type on the label and key, exactly when every labelled node's value is of the kind; a failure registers nothing |
| ConstrainedStorages.ConstrainedStorage.CheckUniqueConstraint | egrph-core/src/graph/storage.rs:563-595 | the index probe rejects exactly when a live labelled node holds an equal value of equal bits |
| ConstrainedStorages.ConstrainedStorage.CheckNotNullConstraints | egrph-core/src/graph/storage.rs:628-646 | passes exactly when no registered NOT NULL rejects the node |
| ConstrainedStorages.ConstrainedStorage.CheckNodeKeyConstraints | egrph-core/src/graph/storage.rs:690-732 | passes exactly when no registered NODE KEY rejects it |
| ConstrainedStorages.ConstrainedStorage.CheckPropertyTypeConstraints | egrph-core/src/graph/storage.rs:761-782 | passes exactly when no registered PROPERTY TYPE rejects it |
| ConstrainedStorages.ConstrainedStorage.CreateNode | egrph-core/src/executor/mod.rs:851-873 | created exactly when all four checks pass; otherwise nothing changes |
| ConstrainedStorages.ConstrainedStorage.Run | egrph-core/src/graph/storage.rs:537-797 | any run of registrations, checked CREATEs and rule-keeping writes ends with every constraint true of all live nodes |
| CreateClauses.ResolveProperties | egrph-core/src/executor/mod.rs:2335-2353 | entries in order, later keys winning; null and composite values are errors |
| CreateClauses.ResolvedMeans | egrph-core/src/executor/mod.rs:2335-2353 | it succeeds exactly when every named entry evaluates to a scalar; a key then holds the value of its last entry, and there is no other key |
| CreateClauses.PlaceChain | egrph-core/src/executor/mod.rs:889-1027 | bound nodes are reused and the others created along the chain; an error leaves what was created before it |
| CreateClauses.CreateFromRecords | egrph-core/src/executor/mod.rs:830-887 | one creation per input row, or one in all when there is no row |
| CreateClauses.ExecuteCreate | egrph-core/src/executor/mod.rs:44-96 | the parts of one CREATE in order, each seeing the bindings of the ones before |
| CreatedPaths.PathMeans | egrph-core/src/executor/mod.rs:889-1027 | a created path: one new edge per element, with consecutive ids, the type and the direction of the pattern, between the nodes of its two ends; each node is the one its name was bound to or a new one with the labels and properties of the pattern; nothing else is added or changed, and the row shows what each name was bound to last |
| CreatedPaths.RowCreatedMeans | egrph-core/src/executor/mod.rs:830-887 | one row of CREATE makes such a path, or one node that passes every constraint |
| CreatedPaths.RowsCreatedMean | egrph-core/src/executor/mod.rs:830-887 | the rows one after another, each on the graph the one before left |
| CreatedPaths.ClauseMeans | egrph-core/src/executor/mod.rs:44-96 | the parts of a clause one after another, each over the rows of the one before |
| NodeMerge.ExecuteMergeNode | egrph-core/src/executor/mod.rs:1499-1573 | the batch adds exactly one node for each distinct new map when values are exact, returns one row per found node or for the created one, each showing that node and otherwise the input row, and on an error keeps what was created |
| NodeMerge.BlocksMean | egrph-core/src/executor/mod.rs:1499-1573 | block by block: one row for each node found for an input row, in the order found, or one for the node made with the labels and properties it asks for; the node stands under the variable, or `_merge_node`, and the rest is the input row |
| NodeMerge.OneNodePerNewMap | egrph-core/src/executor/mod.rs:1525-1573 | a batch over one key set creates one node for each distinct map no node fitted before, in order of first occurrence |
| NodeMerge.OneNodePerNewRowMap | egrph-core/src/executor/mod.rs:1525-1573 | the maps that one pattern gives over a batch of rows always share their keys, so it holds of every node MERGE |
| NodeMerge.RerunCreatesNothing | egrph-core/src/executor/mod.rs:1499-1573 | run again, a batch without zero floats creates nothing if and only if it has no NaN |
| NodeMerge.BatchCreatesNothing | egrph-core/src/executor/mod.rs:1499-1573 | for any values: a batch creates nothing, however ties between posting lists fall, if and only if no row can be answered with nothing |
| NodeMerge.RerunIsExact | egrph-core/src/executor/mod.rs:1499-1573 | for any values, on the graph the batch left: it creates nothing if and only if no map has a NaN and each map is carried bit for bit by a node or cannot be missed by the lookup |
| ChainMerge.SeedCandidates | egrph-core/src/executor/mod.rs:1697-1731 | the start candidates: the bound node when it fits the pattern, else the nodes the lookup finds |
| ChainMerge.ExpandCandidate | egrph-core/src/executor/mod.rs:1733-1834 | one candidate is extended over every edge that fits, through the endpoint index when the far end is bound |
| ChainMerge.MergeChainRow | egrph-core/src/executor/mod.rs:1630-1690 | a row matches with one output row per walk, or creates what is not bound, never both |
| ChainMerge.ExecuteMergeChain | egrph-core/src/executor/mod.rs:1608-1690 | rows in order, each seeing what those before created; the first error ends the batch and keeps their work |
| MergedChains.ExpandedMeans | egrph-core/src/executor/mod.rs:1733-1834 | the candidates after an expansion are exactly those one fitting edge away, on the row that shows the edge and its far node |
| MergedChains.WalkedMeans | egrph-core/src/executor/mod.rs:1697-1834 | the candidates after all elements are exactly the ends of the walks that fit the whole chain |
| MergedChains.RowMeans | egrph-core/src/executor/mod.rs:1630-1690 | a row with such a walk leaves the graph alone and gives the rows of its walks; one without makes the path of the pattern |
| MergedChains.RunMeans | egrph-core/src/executor/mod.rs:1608-1690 | the rows of a batch one after another, each on the graph the one before left |
| MergeProbe.ProbeEqualsScan | egrph-core/src/executor/mod.rs:1761-1834 | with distinct types the endpoint probe yields the multiset of extensions the adjacency scan yields, self-loops included |
| MergeProbe.ProbeIsTight | egrph-core/src/executor/mod.rs:1761-1795 | probe and scan agree on every graph if and only if no type is listed twice |
| MergeIdempotence.CreateThenMatch | egrph-core/src/executor/mod.rs:1608-1933 | after a row took the create branch it takes the match branch, and creates nothing, if and only if its bound nodes fit the pattern and the pattern has no NaN |
| MergeIdempotence.MatchPersists | egrph-core/src/executor/mod.rs:1697-1834 | a match stays a match while the graph grows |
| MergeIdempotence.RerunCreatesNothing | egrph-core/src/executor/mod.rs:1608-1690 | a whole batch of chain MERGE run a second time changes nothing if and only if the bound nodes of every row fit the pattern and the pattern has no NaN |
| Export.ExportCypher | egrph-core/src/graph/mod.rs:142-179 | all nodes in order of id, then all edges, each printed with its labels or type and its properties |
| Export.FormatProperties | egrph-core/src/graph/mod.rs:182-214 | every property once, keys in ascending order |
| Export.ReadPrinted | egrph-core/src/graph/mod.rs:187-208 | a printed value is read unless it is the least integer; it evaluates to itself when it is finite, and a NaN or an infinity, which reads as a variable, to null |
| Export.RenumberedIsIsomorphic | egrph-core/src/graph/mod.rs:142-179 | renumbering nodes and edges by rank is an isomorphism that keeps labels, types, properties and the order of ids |
| ExportReplay.MapReadsBack | egrph-core/src/graph/mod.rs:182-214 | a printed map is read exactly when no value is the least integer and every key is an identifier; it then resolves to the map, or is an error when a float is not finite |
| ExportReplay.ExportReplays | egrph-core/src/graph/mod.rs:142-179 | the export of a non-empty graph is read exactly when no value is the least integer and every label, type and key is an identifier; replaying it in an empty graph then succeeds exactly when every float is finite, and gives the renumbered graph, isomorphic to the one exported |
| ExportReplay.UntypedRelationshipIsLost | egrph-core/src/graph/mod.rs:166-176 | `CREATE ()-[]->()` succeeds, and the export of what it made cannot be read |
| Identifiers.NameEndsWherePrinted | egrph-core/src/parser/cypher.pest:307-325 | a name is read up to where it was printed, whatever non-word character follows, exactly when it is an identifier |
| Identifiers.NumberedVariable | egrph-core/src/graph/mod.rs:153-165 | the exporter's variables are identifiers |
| Identifiers.NonNumbersRead | egrph-core/src/parser/cypher.pest:307-325 | `NaN` and `inf` are identifiers |
| Identifiers.NamesThatDoNotRead | egrph-core/src/parser/cypher.pest:307-325 | the empty type, a key with a space and `order_id` do not read |
| StringLiterals.ExportIsEscaped | egrph-core/src/graph/mod.rs:190-197 | the five replacements, one after another over the whole string, escape each character on its own |
| StringLiterals.ParseStringContent | egrph-core/src/parser/mod.rs:1997-2047 | the loop unescapes what is between the quotes as the recursive reading does, errors included |
| StringLiterals.EscapesMean | egrph-core/src/parser/mod.rs:1997-2047 | what each escape stands for, and that a character without a backslash stands for itself |
| StringLiterals.NumberedCharacter | egrph-core/src/parser/mod.rs:1997-2047 | a numbered escape stands for the character of that code |
| StringLiterals.StringRoundTrip | egrph-core/src/graph/mod.rs:190-199 | every string printed by the exporter parses back to itself |
| StringLiterals.TokenEndsWherePrinted | egrph-core/src/parser/cypher.pest:290-294 | the token ends at the quote that closed it, whatever follows: no quote inside is unescaped |
| Decimals.IntegerRoundTrip | egrph-core/src/parser/mod.rs:1968-1994 | a printed i64 parses back, except the least one |
| Decimals.PrefixedReads | egrph-core/src/parser/mod.rs:1968-1994 | a hexadecimal or octal literal has the value its digits spell in that base, after a minus its opposite, if it fits |
| Decimals.RadixStep | egrph-core/src/parser/mod.rs:1968-1994 | each further digit multiplies by the base and adds its own value |

## Findings

Properties the code does not have on all inputs, and exactly when it has them.

- Numeric twins. A scan by inline properties uses index keys of type and bits;
  a filter compares numbers, so `n.x = 1` filters in a node with x = 1.0 and the
  pushed scan does not. One equality is right exactly when its value has no twin
  (`ScanPushdown.EqualityIsTight`, `StartScans.SingleKeyScanIsTight`), and so is
  a conjunction pushed as a whole (`ScanPushdown.ConjunctionIsTight`). What is
  left over can make a twin harmless (`ScanPushdown.TwinsMayCancel`); the exact
  condition for any predicate is `ScanPushdown.PushdownIsFaithful` on a graph
  and `ScanPushdown.PushdownIsTight` on all.
- A key written twice in the start node's map. The lookup keeps the last entry
  only. `StartScans.ScanIsTight` is the exact condition on the map.
- Zero floats and NaN in index lookups. 0.0 and -0.0 are equal and have different
  keys; NaN has one key and equals nothing (`AbstractGraph.IndexScanIsTight`,
  `NodeLookup.FindIsTight`).
- The reverse walk checks the far node before the start variable is bound, so in
  a comprehension a far node that depends on the start differs
  (`ReverseWalk.ReverseEqualsForward`, `ReverseWalk.ReverseIsTight`,
  `PatternComprehension.DependentTerminalDiffers`).
- SET, MERGE and path CREATE check no constraint. Whether one of their writes is
  harmless is `ConstraintRules.WritesAreExact`.
- UNIQUE lets 0.0 stand beside -0.0, and its registration refuses two NaNs that
  its check lets in (`ConstraintRules.UniqueUnderEquality`,
  `ConstraintRules.RegistrationIsStricterOnNaN`).
- Lists can share stable keys (`StableKeys.ListKeysCollide`), so DISTINCT, UNION,
  joins and grouping can merge them. `ListKeys.ListKeyIsTight` says which lists
  of scalars and entities do. Paths are told apart by their nodes only, so two
  paths over parallel relationships share a key (`StableKeys.KeysIdentify`).
- An integer SUM can overflow in one row order and not in another
  (`Aggregation.SumDependsOnOrder`, exact in `Aggregation.SumValues`).
- A MERGE with a NaN in its pattern creates again each time it runs, and one with
  a zero float may (`NodeMerge.RerunCreatesNothing`, `NodeMerge.RerunIsExact`,
  `MergeIdempotence.CreateThenMatch`, `MergeIdempotence.RerunCreatesNothing`).
- A type listed twice in a MERGE chain is probed twice when both ends are bound
  (`MergeProbe.ProbeIsTight`).
- An export cannot be read when a relationship has no type, when a label,
  type or key is not an identifier (a key with a space; `order_id`, because the
  reserved-word test of egrph-core/src/parser/cypher.pest:308 does not count the
  underscore as part of the word), or when a property is the least i64. One with
  a NaN or an infinity is read, as a variable nobody bound, and replaying it stops
  at that part with what came before it created (`ExportReplay.ExportReplays`).
- docs/cypher.md:400 promises a RuntimeError when a search without upper bound
  passes 100 hops. The branches at egrph-core/src/executor/mod.rs:2046 and
  :2428 cannot be reached, since the bound already stops the search: such a
  pattern behaves as one with maximum 100. The model follows the code
  (`VarLengthExpand.ExecuteVarLengthExpand`,
  `ShortestPathSearch.ExecuteShortestPath`).

## Left out

- ShortestPathSearch.FindShortest: the arena-capacity error is stated in one direction (it implies more search steps than slots); which search just fits is stated exactly for variable-length expansion only.
- ShortestPathSearch.ShortestRows: the same.
- ShortestPathSearch.ExecuteShortestPath: the same.
- Planner.PlanMatchScan: fixed-length hops without a path variable.
- MatchQueries.MatchPattern: property maps of the pattern hold literals and parameters, negated or not; a map that reads other variables can fail row by row and is not described.
- ScanPushdown.PushdownIsFaithful: predicates the filter evaluates without error; a predicate that fails on a node the pushed scan no longer returns fails in one plan only.
- MergeIdempotence.RerunCreatesNothing: the pattern's properties are constant, its names distinct, and no zero float is looked up at its start, where ties between posting lists decide; a chain that binds one name twice or reads what it binds does not match itself.
- MergeIdempotence.MatchPersists: start properties without NaN and zero floats, for the same reason.
- StableKeys.KeysIdentify: nested lists, lists of paths, and lists of which a string holds a comma are outside; which lists of scalars and entities share their key is `ListKeys.ListKeyIsTight`.
- PatternMatching.NodeCandidates: says nothing when a pattern property fails to evaluate on a node or edge the pattern is about, since which one is met first depends on the walk.
- ReverseWalk.ExistsForward: the same.
- ReverseWalk.ExistsReverse: the same.
- ReverseWalk.EvalExistsHop: the same.
- PatternComprehension.EvalComprehensionHop: the same.
- NodeMerge.OneNodePerNewMap: maps without NaN and zero floats; a NaN map is created once per row, and what a zero finds depends on ties between posting lists.
- NodeMerge.OneNodePerNewRowMap: the same.
- NodeMerge.RerunCreatesNothing: batches without zero floats, where the answer does not depend on the graph; with them it is `NodeMerge.RerunIsExact`.
- Aggregation.ExecuteAggregation: count, collect and integer sum.
- Variable-length and shortest-path hops inside the MATCH planner, path variables, several comma-separated patterns (CartesianProduct), and a variable used twice in one MATCH, which the executor rebinds rather than joins.
- EXISTS and pattern comprehensions of more than one hop, where only the forward walk is used.
- ON CREATE and ON MATCH items of MERGE, and the executors of SET, REMOVE and DELETE above the storage methods they call.
- Sort, Skip, Limit, With, Unwind, LOAD CSV and MandatoryGuard: row plumbing.
- AVG, MIN, MAX, standard deviation and percentiles, and the value of a float SUM, which is a parameter: float arithmetic is not modelled, only comparison and conversion from integers.
- Maps, dates and timestamps as values, and the built-in functions: any expression outside the modelled ones is one node that may have any value or fail.
- The grammar beyond string, integer and identifier tokens: layout and delimiters of an exported statement, and the decimal text of a float, are not modelled; an exported part is read token by token.
- Error messages and the listing of constraints.
- The constraint tables are fields of the storage in the source and of an object beside it here.
- CREATE of a path and the create branch of chain MERGE are two copies of one algorithm in the source and one method here.
- `SledStorage`, the plan cache, the regular-expression cache, shared ownership and copy-on-write, and the wrap-around of 64-bit ids.
- The Python, Go, C and WebAssembly bindings and the command line.
