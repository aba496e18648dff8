# A verified model of GenMC's bookkeeping core

GenMC is a stateless model checker. While it explores the executions of a program it keeps an execution graph,
vector clocks, interval maps that stand in for the history of memory accesses, and relation matrices. This project
models those data structures in Dafny and proves what the checker relies on. `ASSERT` is taken as it is in a release
build, where it does nothing (`genmc/genmc/Support/Error.hpp:96-99`); every `VERIFY` is proved where it occurs, or the
operation reports its failure and the condition for it is proved.

`dafny verify dfyconfig.toml` checks the whole project.

## The parts

**Race detection.** `Views` is the copy-on-write vector clock: a reference-counted base shared by several views and a
one-event difference. Its methods change bases in place, and each is proved over a whole population of views: the
receiver's clock changes as promised and nobody else's does. `ViewRuns` lifts this to arbitrary runs. `AdaptiveView` is
the summary with five representations that forgets events covered by later ones. `IntervalMap` aggregates values over
half-open intervals; every reachable map is canonical. `RaceSummary` and `ExecutionState` put the three together: the
summaries answer, for clocks that contain the causes of what they contain, exactly as the full access history would;
`Containment` is their inclusion test on views as objects. `HeapState` keeps allocations and hazard-pointer counts, over
the bump allocator in `SAddrAllocator`; `Initialization` is the map of first writes and `LastWrites` that of last
non-atomic writes.

**Relations.** `Matrix` has the two-pass closure, the incremental closure and Kahn's sort, `TopoSearch` the enumeration
of topological sortings of one matrix and of combinations of several. `AdjList` is the depth-first search with closure
at exit, `AdjSearch` the enumeration over successor lists. All are measured against reachability and linear extensions
in `Relation`.

**The execution graph.** `Graph` says what a well-formed graph is and what each operation makes of it, on values;
`GraphEffects` says the same label by label and list by list; `ExecutionGraph` is the object whose methods do it in
place; `GraphCopy` is the deep-copy path, which agrees with cutting in place; `GraphRuns` is about every graph a run of
operations leads to.

**Containers and matchers.** `VSet` (sorted vectors with in-place bulk operations), `DepView` (clocks with holes),
`Trie` (the radix trie over a vector of nodes; `TrieShape` and `TriePrefix` are about its nodes as values) and `Locks`
(matching locks with unlocks).

## Where the code does not do what one might expect

- `View::contains(const View &)` compares bases without the receiver's own difference, so it can miss an inclusion
  (`genmc/genmc/ADT/View.cpp:67-72`). `Views.View.ContainsView` gives the exact condition, `Views.ContainsCanMiss` a
  pair of views it misses.
- That the only holder of a base has no difference, which `genmc/genmc/ADT/View.cpp:85`, `119` and `158` assert, is not
  an invariant. `updateIdx` and `update` are right all the same; `setMax` leaves a later difference in place.
  `Views.View.SetMax` gives the exact condition, `Views.SetMaxCanMiss` a view built by the operations where it matters.
- `Trie::Node::query` returns the length of a common part in eight bits, so a proper common part of 128 elements or
  more is reported as something else (`TrieShapes.CodeIsExact`). A string is legible if that does not happen on its way.
  `Tries.Trie.AddSeq` succeeds exactly for legible strings, and an answer of `lookup` other than null is right exactly
  for them; `Tries.LookupCanMislead` is a run in which `lookup` answers with the payload of another string.
- `Trie::findLongestCommonPrefix` counts one element for the last label however long it is, and then fails its VERIFY.
  `Tries.Trie.FindLongestCommonPrefix` gives the exact condition for every string: the search is trapped, or ends at a
  node whose label has more than one element. For a legible string that is to say that the trie knows the string, but
  not the string without its last element; `Tries.CommonPrefixCanFail` is a run, and `Tries.LookupCanMislead` one for a
  string that is not legible and unknown. The only caller (`genmc/genmc/Verification/Scheduler.cpp:249`) adds a string
  after the one without its last element.
- A removed label that is still in a coherence list dangles there. `ExecutionGraphs.ExecutionGraph.RemoveLast` says that
  this is the only way `removeLast` breaks the graph, `GraphRuns.RemovalCanBreak` gives a run after which it does.
- A request that the allocator denies is filed all the same, over the bytes from null on, and its record claims the
  addresses it covers. The freshness check of `onAlloc` fails exactly where it does (`HeapStates.HeapState.OnAlloc`),
  be the pool exhausted or not: `HeapStates.FreshnessCanFail` is a run of two requests. The checks of `getAllocAccess`,
  `updateHpCount` and `getMaxUnprotectedView` fail exactly where there is no allocation at the address, or its record
  was overwritten so: `HeapStates.RecordCanBeLost` is a run to a live allocation without its record. The driver reports
  the null address as an error (`genmc/genmc/Verification/GenMCDriver.cpp:1914-1919`).
- If `View::setMax` misses when it lowers the view in a `DepView`, `DepView::setMax` makes everything from the event up
  to what the view still shows seen, holes included (`DepViews.DepView.SetMax`).

## Model

| member | source | states |
|---|---|---|
| Matrix.Matrix2D.TransClosure | genmc/genmc/ADT/Matrix2D.hpp:439-452 | the two ordered passes leave exactly the transitive closure of any relation, cyclic or not, although rows grow while they are scanned |
| Matrix.Matrix2D.AddEdgeAndTransitive | genmc/genmc/ADT/Matrix2D.hpp:454-468 | on a closed matrix, exactly the closure of the old relation and the new edge, even if the edge closes a cycle |
| Matrix.IncrementalClosure | genmc/genmc/ADT/Matrix2D.hpp:454-468 | which pairs become reachable by one more edge |
| Matrix.Matrix2D.Absorb | genmc/genmc/ADT/Matrix2D.hpp:443-446 | one row absorbs the rows of the nodes it reaches through smaller intermediate nodes |
| Matrix.Matrix2D.GetInDegrees | genmc/genmc/ADT/Matrix2D.hpp:272-280 | the number of predecessors of every node |
| Matrix.Matrix2D.TopoSort | genmc/genmc/ADT/Matrix2D.hpp:282-315 | no node twice, edges between emitted nodes point forward, a node is missing iff it is on or behind a cycle, all are there iff there is no cycle |
| Matrix.KahnDone | genmc/genmc/ADT/Matrix2D.hpp:295-315 | when the stack is empty, exactly the nodes not behind a cycle have been emitted |
| Matrix.Matrix2D.IsIrreflexive | genmc/genmc/ADT/Matrix2D.hpp:431-437 | whether no node is related to itself, which on a closed matrix decides acyclicity |
| TopoSearch.AllTopoSort | genmc/genmc/ADT/Matrix2D.hpp:371-379 | true iff some topological sorting satisfies the predicate; no sorting is tried twice, and a failed search has tried all |
| TopoSearch.Search.AllTopoSortUtil | genmc/genmc/ADT/Matrix2D.hpp:317-369 | the same below a partial sorting; a failed branch leaves the in-degrees as they were |
| TopoSearch.Search.TryNode | genmc/genmc/ADT/Matrix2D.hpp:337-356 | one branch: schedules a node, searches on, and restores the in-degrees if that fails |
| TopoSearch.Search.Invoke | genmc/genmc/ADT/Matrix2D.hpp:360-368 | what the callback is told, and that it is told of each candidate once |
| TopoSearch.CombineAllTopoSort | genmc/genmc/ADT/Matrix2D.hpp:409-417 | true iff some combination of topological sortings, one per matrix, satisfies the predicate, which on acyclic matrices are the combinations of linear extensions; none is tried twice, a failed search has tried all |
| TopoSearch.Search.CombineAllTopoSortUtil | genmc/genmc/ADT/Matrix2D.hpp:381-407 | the same below the sortings chosen so far, which are restored |
| TopoSearch.CompleteIsLinearExtension | genmc/genmc/ADT/Matrix2D.hpp:317-369 | on an acyclic relation what the enumeration stops at are exactly the linear extensions |
| AdjLists.AdjList.AddEdge | genmc/genmc/ADT/AdjList.hpp:211-221 | an edge already known or implied is not added; in-degrees and rows stay right, also after a closure |
| AdjLists.AdjList.DfsUtil | genmc/genmc/ADT/AdjList.hpp:243-266 | the search below a node: nodes left list their successors first, and any cycle met is known to a row or still pending at an entered node |
| AdjLists.AdjList.SearchAll | genmc/genmc/ADT/AdjList.hpp:268-285 | leaves every node; a search that may not meet back edges stops early only on a cyclic graph |
| AdjLists.AdjList.TransClosure | genmc/genmc/ADT/AdjList.hpp:434-461 | afterwards there is a self-related node iff the edges added have a cycle; if not, rows are exactly reachability |
| AdjLists.AdjList.IsIrreflexive | genmc/genmc/ADT/AdjList.hpp:463-469 | after the closure, decides acyclicity of the edges added |
| AdjLists.AdjList.TopoSort | genmc/genmc/ADT/AdjList.hpp:301-326 | hits the trap at a back edge iff the graph is cyclic; otherwise every node once, edges forward |
| AdjLists.ReverseSorts | genmc/genmc/ADT/AdjList.hpp:317-325 | the reverse of the exit order is a linear extension |
| AdjLists.SearchDecides | genmc/genmc/ADT/AdjList.hpp:434-461 | a complete search decides reachability or knows a node on a cycle |
| AdjLists.LeaveKnown | genmc/genmc/ADT/AdjList.hpp:450-455 | a pending cycle is passed up to the parent's row, or found, when a node is left |
| AdjSearch.AllTopoSort | genmc/genmc/ADT/AdjList.hpp:382-392 | true iff some topological sorting of the list satisfies the predicate, which on an acyclic graph are the linear extensions of all edges ever added, implied ones too; no sorting is tried twice, a failed search has tried all |
| AdjSearch.Search.AllTopoSortUtil | genmc/genmc/ADT/AdjList.hpp:328-380 | the same below a partial sorting; a failed branch leaves the in-degrees as they were |
| AdjSearch.Search.TryNode | genmc/genmc/ADT/AdjList.hpp:346-369 | one branch: schedules a node, searches on, and restores the in-degrees if that fails |
| AdjSearch.CombineAllTopoSort | genmc/genmc/ADT/AdjList.hpp:423-432 | true iff some combination of topological sortings, one per list, satisfies the predicate, which on acyclic graphs are the combinations of linear extensions; none is tried twice, a failed search has tried all |
| AdjSearch.Search.CombineAllTopoSortUtil | genmc/genmc/ADT/AdjList.hpp:394-421 | the same below the sortings chosen so far; a failed search restores them, a successful one leaves an accepted combination in place |
| AdjSearch.SourcesArePreds | genmc/genmc/ADT/AdjList.hpp:382-392 | the in-degrees stored with the list are those the enumeration starts from |
| AdjSearch.CompleteSorts | genmc/genmc/ADT/AdjList.hpp:328-380 | what the enumeration stops at sorts along the edges that are not listed because the rows imply them |
| Views.ViewBase.SetMax | genmc/genmc/ADT/View.hpp:94-106 | exactly one entry changes and the vector stays trimmed |
| Views.ViewBase.Update | genmc/genmc/ADT/View.cpp:26-43 | the exact pointwise maximum, trimmed |
| Views.ViewBase.ContainsBase | genmc/genmc/ADT/View.hpp:57-73 | decides inclusion of trimmed vectors, although it compares lengths first |
| Views.View.SetBase | genmc/genmc/ADT/Rc.hpp:88-119 | the reference count stays the number of views that hold a base |
| Views.SoleHolder | genmc/genmc/ADT/Rc.hpp:49-57 | a base with count 1 is held by one view only |
| Views.View.Copy | genmc/genmc/ADT/View.hpp:141-144 | a copy sees what the original sees, and shares its base |
| Views.View.Assign | genmc/genmc/ADT/View.hpp:151-158 | the same for assignment |
| Views.View.UpdateIdx | genmc/genmc/ADT/View.cpp:77-105 | one event is seen, exactly, along every fast path; no other view changes |
| Views.View.Hydrate | genmc/genmc/ADT/View.cpp:136-144 | a base of one's own with the same clock |
| Views.View.Update | genmc/genmc/ADT/View.cpp:146-202 | the exact pointwise maximum, along every fast path; no other view changes |
| Views.View.SetMax | genmc/genmc/ADT/View.cpp:115-134 | the entry is exactly the event's index, unless the view is the only holder of its base and has a later difference in that thread: then it is that of the difference |
| Views.SetMaxCanMiss | genmc/genmc/ADT/View.cpp:115-134 | a view, built by the operations, that is the only holder of its base and has a later difference in the thread of an event, so that setMax misses |
| Views.View.ContainsView | genmc/genmc/ADT/View.cpp:58-73 | inclusion, if the base is covered without the receiver's difference; exact if there is none |
| Views.ContainsCanMiss | genmc/genmc/ADT/View.cpp:67-72 | two views, built by the operations: one includes the other, its base alone does not cover the other's, and the test says no |
| ViewRuns.Run | genmc/genmc/ADT/View.cpp:77-202 | every run over a population of views shows what the same run over plain clocks computes |
| IntervalMaps.IntervalMap.Add | genmc/genmc/ADT/IntervalMap.hpp:246-274 | exactly the points of [start, end) take the value, the others hold what they held; the map stays canonical |
| IntervalMaps.IntervalMap.Erase | genmc/genmc/ADT/IntervalMap.hpp:281-300 | exactly the points of [start, end) become the identity; the map stays canonical |
| IntervalMaps.IntervalMap.Rewrite | genmc/genmc/ADT/IntervalMap.hpp:253-273 | both loops end at an entry with key `end`, so the VERIFY holds |
| IntervalMaps.SameFunctionSameEntries | genmc/genmc/ADT/IntervalMap.hpp:312-346 | canonical maps that denote the same function have the same entries |
| IntervalMaps.IntervalMap.CreateSplit | genmc/genmc/ADT/IntervalMap.hpp:347-360 | an entry at the point, the same function |
| IntervalMaps.IntervalMap.Canonicalize | genmc/genmc/ADT/IntervalMap.hpp:365-377 | an entry goes iff it repeats what is in force before it |
| IntervalMaps.EraseRedundant | genmc/genmc/ADT/IntervalMap.hpp:365-377 | without such an entry the function is the same |
| IntervalMaps.InsertCopy | genmc/genmc/ADT/IntervalMap.hpp:347-360 | an entry that repeats the value in force changes nothing |
| IntervalMaps.Finish | genmc/genmc/ADT/IntervalMap.hpp:268-273 | dropping a redundant entry at the end of the interval makes the map canonical |
| IntervalMaps.IntervalMap.FindInternal | genmc/genmc/ADT/IntervalMap.hpp:383-392 | the segment with a value that covers the point, if any |
| IntervalMaps.IntervalMap.Get | genmc/genmc/ADT/IntervalMap.hpp:306-310 | the value in force at the point |
| IntervalMaps.IntervalMap.LowerBound | genmc/genmc/ADT/IntervalMap.hpp:173-192 | the first segment with a value that overlaps or follows the interval |
| IntervalMaps.IntervalMap.UpperBound | genmc/genmc/ADT/IntervalMap.hpp:201-208 | the first segment with a value strictly after the interval |
| IntervalMaps.IntervalMap.Range | genmc/genmc/ADT/IntervalMap.hpp:171-213 | iterating from the one to the other visits exactly the overlapping segments |
| AdaptiveViews.AddEventBelow | genmc/genmc/ADT/AdaptiveView.cpp:39-66 | adding an event, with the switch to a whole clock, adds exactly that event to what is stood for |
| AdaptiveViews.AdaptiveView.Join | genmc/genmc/ADT/AdaptiveView.cpp:95-151 | the union of what both stand for, in all 25 combinations of representations |
| AdaptiveViews.JoinedBelow | genmc/genmc/ADT/AdaptiveView.cpp:95-151 | a clock is above the join iff it is above both |
| AdaptiveViews.JoinedLists | genmc/genmc/ADT/AdaptiveView.cpp:95-151 | a join lists only what the two list, one event per thread if they do, and becomes a whole clock only if one of them is or there are more than eight events |
| AdaptiveViews.AdaptiveView.PlusAssign | genmc/genmc/ADT/AdaptiveView.cpp:153-197 | an update leaves just its event of a summary that its clock covers; of a list, no event its clock has seen remains, and nothing comes but the new event; a list becomes a whole clock only when it is full |
| AdaptiveViews.AccumulatedBelow | genmc/genmc/ADT/AdaptiveView.cpp:153-197 | dropping is unnoticeable for clocks that contain the update's clock whenever they contain its event |
| AdaptiveViews.AccumulatedDrops | genmc/genmc/ADT/AdaptiveView.cpp:153-197 | exactly which events are dropped, and when the result is a single event, a list or a whole clock |
| AdaptiveViews.BelowIsDenoted | genmc/genmc/ADT/AdaptiveView.cpp:26-35 | being above the summary is being above the clock it denotes |
| AdaptiveViews.AdaptiveView.PromoteToView | genmc/genmc/ADT/AdaptiveView.cpp:26-35 | the promotion keeps what is stood for |
| AdaptiveViews.AdaptiveView.ContainedIn | genmc/genmc/ADT/AdaptiveView.cpp:85-93 | sound; exact unless the representation is a whole clock |
| Containments.ContainedIn | genmc/genmc/ADT/AdaptiveView.cpp:85-93 | with the inclusion test of the views: true iff the summary is below the clock and, for a whole clock, the base of the view asked covers that of the summary's without its difference |
| AdaptiveViews.EqualIsEquivalence | genmc/genmc/ADT/AdaptiveView.hpp:184-206 | the equality that crosses representations is an equivalence |
| AdaptiveViews.EqualMeans | genmc/genmc/ADT/AdaptiveView.hpp:184-206 | summaries are equal iff they are one and the same event in any two representations, the same list, both empty, or clocks that show the same |
| AdaptiveViews.EqualBelow | genmc/genmc/ADT/AdaptiveView.hpp:184-206 | equal summaries stand for the same, so merging intervals is safe |
| RaceSummary.RecordByte | genmc/genmc/Execution/ExecutionState.cpp:318-327 | one more access turns the summary of a byte into that of the longer history |
| RaceSummary.RecordIn | genmc/genmc/Execution/ExecutionState.cpp:318-327 | the same for a whole map |
| RaceSummary.GetMaxView | genmc/genmc/Execution/ExecutionState.cpp:26-38 | for every closed clock and every access range: above the answer iff all recorded overlapping accesses are seen |
| RaceSummary.SegmentsAnswer | genmc/genmc/Execution/ExecutionState.cpp:30-37 | the segments an access touches stand for exactly the accesses that overlap it |
| ExecutionStates.ExecutionState.RecordMemAccess | genmc/genmc/Execution/ExecutionState.cpp:318-327 | the history of its kind grows by exactly this access, that of unprotected accesses by it iff some byte of it has no hazard pointer protecting its allocation, no other history changes, and all summaries go on answering for their histories |
| ExecutionStates.ExecutionState.OnATStore | genmc/genmc/Execution/ExecutionState.cpp:532-545 | the same for an atomic write, which is also the first write to exactly those of its bytes that had none; a hazard pointer stored over lets go; fails exactly if the record of what that pointer protects was overwritten |
| ExecutionStates.ExecutionState.GetMaxView | genmc/genmc/Execution/ExecutionState.cpp:178-206 | each kind of access answers as its full history |
| ExecutionStates.ExecutionState.GetMaxUnprotectedView | genmc/genmc/Execution/ExecutionState.cpp:208-215 | the unprotected accesses, atomic or not, to the allocation at an address; its VERIFYs hold iff the address is the base of an allocation whose record no denied request overwrote, or null after a denied request |
| HeapStates.SegmentIsAllocation | genmc/genmc/Execution/ExecutionState.cpp:397-405 | the segment found for an address is the whole allocation, or what a denied request has left of it, or all of the denied request |
| HeapStates.HeapState.AddStaticRange | genmc/genmc/Execution/ExecutionState.cpp:42-49 | null iff the space runs out; otherwise apart from all other ranges, also after denied requests |
| HeapStates.HeapState.GetFreshAddr | genmc/genmc/Execution/ExecutionState.cpp:361-383 | null iff the pool is exhausted; otherwise apart from everything allocated, below all static ranges that were granted, and aligned |
| HeapStates.HeapState.OnAlloc | genmc/genmc/Execution/ExecutionState.cpp:385-395 | a non-null, aligned allocation apart from all others, as long as the space lasts; the freshness VERIFY holds iff no record of a denied request claims the address; a denied request is filed over the bytes from null on |
| HeapStates.FreshnessCanFail | genmc/genmc/Execution/ExecutionState.cpp:385-395 | a run of two requests, of which the first is denied; the second takes an address from the pool that the record of the first claims, and fails the VERIFY |
| HeapStates.HeapState.OnFree | genmc/genmc/Execution/ExecutionState.cpp:397-413 | marks the whole record found; a hazard pointer stored there disappears, counts stay right; fails iff there is no record, or that of the allocation protected was overwritten |
| HeapStates.HeapState.UpdateHpCount | genmc/genmc/Execution/ExecutionState.cpp:415-422 | changes the count of exactly the bytes of the allocation protected; its VERIFYs hold iff the address protected is the base of an allocation and no denied request overwrote the record there |
| HeapStates.RecordCanBeLost | genmc/genmc/Execution/ExecutionState.cpp:385-395 | a run to a valid state with a live allocation whose record a denied request overwrote, so that every VERIFY about its record fails |
| HeapStates.HeapState.OnProtect | genmc/genmc/Execution/ExecutionState.cpp:424-434 | the count at every byte stays the number of hazard pointers protecting its allocation; fails iff the record of what was protected was overwritten, or what is to be protected is neither null nor the base of an allocation with its record |
| HeapStates.HeapState.OnStoreToHp | genmc/genmc/Execution/ExecutionState.cpp:538-544 | the same when a hazard pointer is stored over |
| HeapStates.Redirect | genmc/genmc/Execution/ExecutionState.cpp:424-434 | redirecting one hazard pointer moves one unit of count |
| HeapStates.HeapState.GetAllocAccess | genmc/genmc/Execution/ExecutionState.cpp:164-169 | an address resolves to exactly the allocation it lies in, and to nothing, where the VERIFY fails, iff it lies in none; unless the record of a denied request claims it |
| HeapStates.HeapState.IsProtected | genmc/genmc/Execution/ExecutionState.cpp:300-316 | true iff every byte of the access is protected by some hazard pointer |
| HeapStates.PositiveThroughout | genmc/genmc/Execution/ExecutionState.cpp:300-316 | the loop with its last uncovered byte decides whether all counts are positive |
| HeapStates.HeapState.ClearAllocations | genmc/genmc/Execution/ExecutionState.cpp:66-71 | nothing is allocated, denied or protected any more, every dynamic pool starts at 1 again, static ranges and their pool stay |
| ExecutionStates.ExecutionState.Clear | genmc/genmc/Execution/ExecutionState.cpp:66-100 | the same, and every history of accesses, of first writes and of last writes starts over |
| ExecutionStates.ExecutionState.OnNAStore | genmc/genmc/Execution/ExecutionState.cpp:518-530 | a non-atomic store is the first write to exactly those of its bytes that had none, the next non-atomic write and, unless every byte is protected, an unprotected access; no other history changes |
| LastWrites.Remember | genmc/genmc/Execution/ExecutionState.cpp:485-488 | every byte of the store holds it afterwards, every other byte what it held; the map answers for the longer history |
| LastWrites.GetMaxNAWriteEvent | genmc/genmc/Execution/ExecutionState.cpp:183-196 | exactly the events that were the last non-atomic write to some byte of the access |
| LastWrites.LastWriterIsLast | genmc/genmc/Execution/ExecutionState.cpp:485-488 | the last writer of a byte made a write that touches it, after which no write does; there is none iff no write touches it |
| Initialization.MarkInitialized | genmc/genmc/Execution/ExecutionState.cpp:495-516 | exactly the bytes of the access that held the identity take the value |
| Initialization.Uninitialized | genmc/genmc/Execution/ExecutionState.cpp:501-509 | the set left after subtracting the overlapping segments is the uninitialized part |
| Initialization.FoundWhole | genmc/genmc/ADT/IntervalMap.hpp:225-243 | a segment that contains the interval leaves nothing uninitialized |
| Initialization.MarkFirstWrite | genmc/genmc/Execution/ExecutionState.cpp:495-516 | every byte of the write is initialized afterwards; one that was not answers for this write, every other byte as before |
| SAddrAllocators.CreatedReadsBack | genmc/genmc/Support/SAddr.hpp:58-99 | the masks, shifts and exclusive-ors of create leave a word from which storage, durability, ownership, thread and index are read back |
| SAddrAllocators.CreatedIsSum | genmc/genmc/Support/SAddr.hpp:58-70 | that word is the sum of its fields |
| SAddrAllocators.AddressIsInjective | genmc/genmc/Support/SAddr.hpp:58-70 | as sums of fields, different places or indices have different addresses |
| SAddrAllocators.RoundUpIsLeast | genmc/genmc/Support/SAddrAllocator.hpp:51-53 | the aligned address is the least multiple of the alignment not below the pool |
| SAddrAllocators.Allocate | genmc/genmc/Support/SAddrAllocator.hpp:41-63 | denies iff the space runs out, with the 64-bit wrap-around; otherwise the pool moves past the new range |
| SAddrAllocators.AlignedAddress | genmc/genmc/Support/SAddr.hpp:58-70 | an aligned index gives an aligned address, for alignments up to 2^32 |
| Graphs.AddedWellFormed | genmc/genmc/Execution/ExecutionGraph.cpp:102-141 | adding a label keeps the graph well-formed |
| Graphs.RfSetWellFormed | genmc/genmc/Execution/EventLabel.cpp:125-160 | setRf keeps the graph well-formed: reads-from edges and reader lists agree |
| Graphs.CoAddedWellFormed | genmc/genmc/Execution/EventLabel.cpp:162-168 | addCo keeps the graph well-formed: coherence lists are duplicate-free lists of writes to their location |
| Graphs.CoMovedWellFormed | genmc/genmc/Execution/EventLabel.cpp:170-176 | the same for moveCo |
| Graphs.RemovedWellFormed | genmc/genmc/Execution/ExecutionGraph.cpp:154-201 | removing the last label keeps the graph well-formed iff it is in no coherence list |
| Graphs.CutWellFormed | genmc/genmc/Execution/ExecutionGraph.cpp:243-323 | cutting keeps the graph well-formed |
| Graphs.CutStamps | genmc/genmc/Execution/ExecutionGraph.cpp:319-322 | the new stamps keep the order of the old ones |
| Graphs.FromReadsAgree | genmc/genmc/Execution/ExecutionGraph.hpp:592-663 | fr_imm_succ and fr_imm_preds agree on all writes to the location iff there is none, or the read's source is the initializer or in coherence; fr_imm_succ is then the write next to the source, if there is one |
| Graphs.FrImmSuccIsNext | genmc/genmc/Execution/ExecutionGraph.hpp:592-634 | fr_imm_succ of a read is the first write in coherence, or the one directly after its source, and nothing iff there is no such write |
| Graphs.FrImmPredsRead | genmc/genmc/Execution/ExecutionGraph.hpp:636-663 | fr_imm_preds of a write are exactly the reads of what comes directly before it in coherence |
| GraphEffects.CutEffect | genmc/genmc/Execution/ExecutionGraph.cpp:243-323 | what a cut keeps: labels, kinds, reads-from edges, and the order in every list |
| GraphEffects.RfSetEffect | genmc/genmc/Execution/EventLabel.cpp:125-160 | what setRf changes in which list |
| GraphEffects.RemovedEffect | genmc/genmc/Execution/ExecutionGraph.cpp:154-201 | what removing the last label changes in which list |
| GraphEffects.KeepBefore | genmc/genmc/Execution/ExecutionGraph.cpp:225-237 | erasing what is outside the view leaves the order of the rest |
| ExecutionGraphs.ExecutionGraph.AddLabel | genmc/genmc/Execution/ExecutionGraph.cpp:102-141 | the label goes to the end of its thread and of the insertion order with the next stamp; a location not tracked yet gets empty lists, every tracked list stays as it is |
| ExecutionGraphs.ExecutionGraph.AddThread | genmc/genmc/Execution/ExecutionGraph.hpp:813-818 | a new thread with its begin label, and nothing else |
| ExecutionGraphs.ExecutionGraph.SetRf | genmc/genmc/Execution/EventLabel.cpp:125-160 | the read leaves the reader list of its old source, keeping the order of the others, and comes last in that of its new one; every other label and list stays; well-formedness is kept |
| ExecutionGraphs.ExecutionGraph.AddCo | genmc/genmc/Execution/EventLabel.cpp:162-168 | the write goes first, or directly after its predecessor; the order of the others and other locations stay |
| ExecutionGraphs.ExecutionGraph.MoveCo | genmc/genmc/Execution/EventLabel.cpp:170-176 | the write leaves its place, keeping the order of the others, and goes first or directly after its new predecessor; other locations stay |
| ExecutionGraphs.ExecutionGraph.RemoveLast | genmc/genmc/Execution/ExecutionGraph.cpp:154-201 | the last label goes, from its reader list and the insertion order too, its readers read from nothing, all else stays; the graph is well-formed iff the label was in no coherence list |
| ExecutionGraphs.ExecutionGraph.GetViewFromStamp | genmc/genmc/Execution/ExecutionGraph.cpp:50-64 | the view contains exactly the labels stamped at most that, and the begin labels |
| ExecutionGraphs.ExecutionGraph.RemoveAfter | genmc/genmc/Execution/ExecutionGraph.cpp:203-241 | exactly the locations accessed inside the view keep their lists, which keep what is inside the view, in order |
| ExecutionGraphs.ExecutionGraph.CutToStamp | genmc/genmc/Execution/ExecutionGraph.cpp:243-323 | exactly the labels up to the stamp remain, with their kinds, exactly the reads-from edges between them, and what is inside of every list, in order; stamps number the insertion order; well-formed |
| ExecutionGraphs.ExecutionGraph.Validate | genmc/genmc/Execution/ExecutionGraph.cpp:514-573 | accepts iff every reads-from edge leads to a label and reader lists hold exactly the reads of their write; accepts every well-formed graph |
| ExecutionGraphs.CutAtStamp | genmc/genmc/Execution/ExecutionGraph.cpp:243-323 | which labels remain after a cut to a stamp |
| GraphCopies.GetCopyUpTo | genmc/genmc/Execution/ExecutionGraph.cpp:325-508 | a new graph with exactly the labels inside the view, their kinds, the reads-from edges between them and what is inside of every list, in order; the original does not change |
| GraphCopies.CopyOrder | genmc/genmc/Execution/ExecutionGraph.cpp:376-385 | the copied insertion order and the stamps it gives |
| GraphCopies.FixLinks | genmc/genmc/Execution/ExecutionGraph.cpp:407-428 | a read of the copy keeps its source iff that is inside the view; a write lists the readers of the original inside the view, in order; nothing else changes |
| GraphCopies.CopyCoherence | genmc/genmc/Execution/ExecutionGraph.cpp:468-475 | the copied coherence lists are those of the original inside the view, in order |
| GraphCopies.OneCut | genmc/genmc/Execution/ExecutionGraph.cpp:50-64 | a stamp determines the cut |
| GraphCopies.CutAndCopyAgree | genmc/genmc/Execution/ExecutionGraph.cpp:243-508 | copying up to the view of a stamp and cutting to the stamp give the same graph, with exactly the labels up to the stamp and the reads-from edges between them |
| GraphRuns.RunsAreWellFormed | genmc/genmc/Execution/ExecutionGraph.cpp:102-323 | every graph a run of operations leads to is well-formed |
| GraphRuns.Execute | genmc/genmc/Execution/ExecutionGraph.cpp:102-323 | the operations on the graph object, in any run that is allowed, leave the graph of that run |
| GraphRuns.RemovalCanBreak | genmc/genmc/Execution/ExecutionGraph.cpp:154-201 | a run to a well-formed graph that removing a label breaks |
| GraphRuns.RunsAgreeOnFromReads | genmc/genmc/Execution/ExecutionGraph.hpp:592-663 | the same in every graph a run of operations leads to |
| VSets.VSet.InsertAll | genmc/genmc/ADT/VSet.hpp:172-245 | the union, in place, strictly sorted, also with itself; the result is the number of new elements |
| VSets.VSet.MergeBackwards | genmc/genmc/ADT/VSet.hpp:216-244 | filling from the end never overwrites an element still to be read |
| VSets.VSet.CountNew | genmc/genmc/ADT/VSet.hpp:186-211 | the parallel walk counts exactly the elements not in the set |
| VSets.MergeIsUnion | genmc/genmc/ADT/VSet.hpp:228-243 | the merge is strictly sorted and has the members of both |
| VSets.MergeSize | genmc/genmc/ADT/VSet.hpp:186-225 | its length is that of the first set plus the count |
| VSets.SameMembersSameList | genmc/genmc/ADT/VSet.hpp:30-92 | a sorted vector is determined by its members |
| VSets.VSet.EraseAll | genmc/genmc/ADT/VSet.hpp:270-316 | the sorted difference, in place, also with itself; the result is the size of the intersection |
| VSets.VSet.Insert | genmc/genmc/ADT/VSet.hpp:159-166 | one more element, in order, unless it is there |
| VSets.VSet.Erase | genmc/genmc/ADT/VSet.hpp:258-267 | one element less |
| VSets.VSet.SubsetOf | genmc/genmc/ADT/VSet.hpp:318-341 | decides inclusion, although it gives up early on lengths |
| VSets.VSet.Intersects | genmc/genmc/ADT/VSet.hpp:343-357 | decides whether there is a common element |
| VSets.VSet.IntersectWith | genmc/genmc/ADT/VSet.hpp:359-377 | exactly the common elements, in order |
| VSets.VSet.Diff | genmc/genmc/ADT/VSet.hpp:379-388 | exactly the elements not in the other set, in order |
| DepViews.DepView.UpdateIdx | genmc/genmc/ADT/DepView.hpp:77-87 | exactly one more event is seen; holes stay within the maximum |
| DepViews.DepView.SetMax | genmc/genmc/ADT/DepView.hpp:91-101 | the event becomes the last one seen of its thread, what was seen before it stays; if the embedded view misses when lowering, everything from the event up to what the view still shows is seen |
| DepViews.DepView.Update | genmc/genmc/ADT/DepView.cpp:47-67 | exactly the union, also with itself |
| DepViews.DepView.AddHolesInRange | genmc/genmc/ADT/DepView.cpp:23-33 | exactly the range becomes holes; each is within the maximum, as addHole demands |
| DepViews.DepView.RemoveHolesInRange | genmc/genmc/ADT/DepView.cpp:35-43 | exactly the range stops being holes |
| DepViews.GetViewFromStamp | genmc/genmc/Execution/DepExecutionGraph.cpp:16-28 | for stamps in any order along a thread, contains an event of index 1 or more iff its stamp is at most the given one |
| Locks.FindMatchingUnlock | genmc/genmc/Execution/GraphUtils.cpp:70-95 | finds u iff the lock and u enclose a balanced stretch that never has an unlock too many |
| Locks.FindMatchingLock | genmc/genmc/Execution/GraphUtils.cpp:45-68 | the same relation, looking back from the unlock |
| Locks.SearchesAreInverse | genmc/genmc/Execution/GraphUtils.cpp:45-95 | the unlock found for l is u iff the lock found for u is l, in any sequence |
| Locks.BothEnds | genmc/genmc/Execution/GraphUtils.cpp:45-95 | a balanced stretch can be judged from either end |
| Locks.MatchedIsBracketed | genmc/genmc/Execution/GraphUtils.cpp:45-95 | a lock and an unlock are matched iff what they enclose is bracketed: inner locks, each followed by a bracketed stretch and its unlock, and labels that have nothing to do with the address |
| Locks.Nested | genmc/genmc/Execution/GraphUtils.cpp:45-95 | matched pairs are nested |
| TrieShapes.CodeIsExact | genmc/genmc/ADT/Trie.hpp:129-150 | the answer of query is right iff a proper common part is shorter than 128 |
| TrieShapes.LongLabelsFool | genmc/genmc/ADT/Trie.hpp:129-150 | any two strings that part after 253 elements, up to multiples of 256, are taken for the same, however they go on |
| Tries.Trie.Query | genmc/genmc/ADT/Trie.hpp:129-150 | the loop computes that answer |
| TrieShapes.PrefixIsAbove | genmc/genmc/ADT/Trie.hpp:260-295 | whatever node spells a prefix of a node's word is above it |
| TrieShapes.WordsDiffer | genmc/genmc/ADT/Trie.hpp:260-295 | no two nodes spell the same word |
| TrieShapes.SplitKeepsShape | genmc/genmc/ADT/Trie.hpp:329-346 | splitting an edge keeps siblings sorted with distinct first elements and labels nonempty |
| TrieShapes.LeafKeepsShape | genmc/genmc/ADT/Trie.hpp:110-119 | so does adding a leaf |
| Tries.Trie.SplitEdge | genmc/genmc/ADT/Trie.hpp:329-346 | what the relinking makes of the nodes; its VERIFYs hold |
| Tries.Trie.SetEdge | genmc/genmc/ADT/Trie.hpp:121-127 | replaces the child that begins alike; its VERIFY holds |
| Tries.Trie.AddSeq | genmc/genmc/ADT/Trie.hpp:171-217 | for every string and every trie: it does what it should iff the string is legible, that is, shares no proper part of 128 elements or more with a label on its way. What it should: refuse, changing nothing, iff the string is empty or known; otherwise make the trie hold exactly s with its payload and, iff s and a word part where no word ends, that place with a default payload |
| Tries.Trie.Lookup | genmc/genmc/ADT/Trie.hpp:260-295 | a null answer is right for every string, any other answer iff the string is legible; so a legible string gets its payload if it is known, and null iff it is not |
| Tries.Trie.SetData | genmc/genmc/ADT/Trie.hpp:302-309 | refuses only unknown strings; otherwise replaces the payload of exactly one known word, which is s iff s is legible |
| Tries.LookupCanMislead | genmc/genmc/ADT/Trie.hpp:260-295 | a run: of two strings of 254 elements that share 253 the trie knows one; looking up the other gives the payload of the first, and its longest common prefix fails the VERIFY |
| Tries.Trie.FindLongestCommonPrefix | genmc/genmc/ADT/Trie.hpp:219-258 | for every nonempty string: it fails iff the search for it is trapped or ends at a node whose label has more than one element. For a legible string, that is iff the trie knows the string but not what is left without its last element; otherwise the result is the length of the longest part that some word of the trie begins with |
| Tries.CommonPrefixCanFail | genmc/genmc/ADT/Trie.hpp:219-258 | a run to a trie that knows a legible string, but not what is left without its last element, for which the VERIFY fails |
| Tries.OneGrown | genmc/genmc/ADT/Trie.hpp:171-217 | where a walk ends, what was added is the string itself iff it is legible |
| TrieShapes.KnownIsLegible | genmc/genmc/ADT/Trie.hpp:260-295 | every string in the trie is legible |
| TrieShapes.ShortIsLegible | genmc/genmc/ADT/Trie.hpp:129-150 | so are all strings shorter than 128, and all strings where all labels are |
| TrieShapes.SearchTells | genmc/genmc/ADT/Trie.hpp:260-295 | a search that goes by the codes is right when it finds nothing, and otherwise iff the string is legible |
| TrieShapes.BranchesAreKnown | genmc/genmc/ADT/Trie.hpp:171-217 | where two words of the trie part, a word of the trie ends |
| TrieShapes.OneFork | genmc/genmc/ADT/Trie.hpp:207-213 | a string that leaves an edge in the middle has one place, and only one, where a node is missing |
| TrieShapes.TwinBreaksShape | genmc/genmc/ADT/Trie.hpp:110-119 | a leaf whose label begins like that of another child breaks the order of siblings |

## Left out

- The interpreter, passes, consistency checkers, the driver, printing, hashing and name information: wrappers and I/O.
- Matrix elements and their mapper, and the flat row-major layout: nodes are their numbers and the matrix is two-dimensional.
- The predicate given to `allTopoSort` is a total function of the sorting, and the nested closure of `combineAllTopoSort` is a case of a datatype.
- In `AdjList`: search parents and timestamps, which no caller reads; `addNode` after construction.
- Interval-map keys are unbounded integers, so the conventional end of the last segment (`key_max`) does not occur; values and their `+=` are parameters.
- AdaptiveViews.AdaptiveView.ContainedIn: for a whole clock the source's inclusion test can miss, depending on how the clock is represented; it is an arbitrary sound test here, and results hold for each such test. `Containments.ContainedIn` has the test itself.
- ExecutionStates.ExecutionState.OnATStore: the release and effect flags, the type of the last write, and the loop side-effect check.
- ExecutionStates.ExecutionState.OnNAStore: the value stored, the type of the last write, the previous non-atomic event of the thread, and the loop side-effect check.
- ExecutionStates.ExecutionState.Clear: the maps of values, of types of last writes and of loops, which are not modelled.
- HeapStates.HeapState.ClearAllocations: the same maps; the histories of accesses are ExecutionStates.ExecutionState.Clear.
- SAddrAllocators.AddressIsInjective: addresses are unbounded sums of fields; that the 64-bit word of `create` is that sum is `CreatedIsSum`, in 64-bit arithmetic. The mask of an alignment is rounding down to a multiple of a power of two.
- `isStatic`, `getNAWriteValue`, `reconstructMemValue` and memory values in general: `SVal` is not part of this model.
- `IntervalSet::overlaps` and `intersects` and the loop side-effect check built on them, which answer true for any later interval.
- GraphCopies.GetCopyUpTo: views are po-prefixes, so the hole labels for events missing inside a `DepView` do not occur; the deep copies of the labels' own views are not modelled.
- In the graph: thread create, join and finish links, symmetry links and the removal of begin labels without a create; method begin and end labels; free labels; `accessMap_`; the replacement of empty labels; the flag that a write was added coherence-maximally; `DepExecutionGraph::cutToStamp`.
- ExecutionGraphs.ExecutionGraph.Validate: without the RMW atomicity check, which looks at attributes of labels not modelled.
- DepViews.DepView.SetMax: the embedded view is its clock; what it shows after its own `setMax` is a parameter.
- ExecutionGraphs.ExecutionGraph.AddLabel: without the replacement of an empty label.
- Graphs.FromReadsAgree: for a read without a source, and for a source that is a write outside the coherence list, the cast and the list iterator of `fr_succs` are undefined; here the search starts at the front of the list, where the two directions disagree.
- ExecutionGraphs.ExecutionGraph.CutToStamp: the removal of begin labels without a create, as create links are not modelled.
- Tries.Trie.FindLongestCommonPrefix: of a string that is not legible, the length returned where it does not fail, which can be right by coincidence.
- Strings and labels in a trie are shorter than 2^32, where `query` narrows their lengths; elements are integers; the walk that `addSeq`, `lookup` and `findLongestCommonPrefix` each spell out is one method.
- Moved-from views and vectors, iterators as objects, and the constructor of a sorted set from a vector it takes over, which does not remove duplicates.
