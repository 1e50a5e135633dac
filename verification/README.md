# memoir: a verified model

This project models the hard parts of memoir, a compiler for collections in SSA form, and proves
what they promise. It is a plain Dafny project: `dafny verify dfyconfig.toml` checks all of it.

## What is modelled

**SSA destruction.** `Ssa` is a small MEMOIR: allocations, copies, updates (write, the inserts,
the removes, clear), queries (read, has, size) and scalars, in a control-flow graph with PHIs, with a
step function in which every update makes a new collection. `Lowered` is what destruction emits:
calls that mutate collections in cells, with every use renamed. `Operations` says element by element and key by key what
the operations make and answer. `Linearity` holds what verification,
liveness and dominance say about a program, and `Preservation` proves that the two programs run in
lockstep. The passes themselves are `Verifier`, `Liveness`, `Coalescing` and `SSADestruction`, and
`Pipeline` runs them together. The partition against which the verifier checks is that of
`Verifier.TrackedPairs`, a function of the program (`Verifier.TrackedPairIff` says which). `EdgeCheck` is a loop
that only the check of an edge rejects. The theorem asks that it be closed under PHIs
(`Verifier.ClosedUnderPhis`), for which `Verifier.InputsKnown` is enough, and that the operand of every
update is dead after it; the latter follows when every result is live (`Linearity.LiveResultsConsume`), and neither is checked by
the code. `DeadUpdate` shows a program that is accepted and changes its answer. `SelfPhi` shows
another, where the fault is in liveness: `compute_out` inserts what a PHI reads and erases the PHI's
name, one PHI after the other, and so loses a PHI that feeds itself. `Liveness.PathSensitiveExactIff`
says for which PHIs the analysis is exact along an edge, `Liveness.SoundLivenessIff` for which programs
the live sets that it computes are sound, and `Pipeline.CodeLivenessPreserves` that lowering is then right.

**Graphs.** `GraphLite` is the double adjacency with its edge count; `Tarjan`, `TopologicalOrder` and
`Condensation` are the algorithms on top. The condensation only has the edges between the keys of
components, so it does not keep reachability; `Condensation.KeepsReachIff` says when it does.

**Types.** `TypeMap` is the linker's speculative isomorphism check on cyclic types, with its rollback;
`TypeCheck` is unification by bindings; `Implementation` matches types against templates.
`UnionFind` serves the verifier.

**Representations.** `KeyedStore` is the meaning of the three bitmaps (`TwinedBitMap`, `BitMap`,
`SparseBitMap`), including values that outlive a removal; `StlVector` and `LowerFold` are the iterators
and the loops of lowered folds. `NestedObjects` and `NestedAccess` are objects within objects in memory
and the chains of calls that reach them. `SortedVector` and `BoundsCheckResult` are set algebra on sorted
vectors; `NextSize` and `TypeLayout` are the layout of tuples with bit fields.

Sets and maps whose order the code does not fix are iterated by taking any element that is left, so
the results hold for every order. Parameters passed by reference and changed by recursive helpers go
in and come out as values. `Paths` holds reachability and equivalence closure, which the modules share.

## Where the code differs from its comments

- `get_next_size` says that it returns the next power of two; it rounds the number of bytes down
  first, so that it returns 8 for a width of 12 (`NextSize.NextSizeSufficesIff`), and from 2056 on it may return no
  power of two at all (`NextSize.NextSizeIsSomePowerIff` says when).
- In `visitTupleType` a bit field that fills a run up to the size of an integer type pushes two struct
  elements and counts one, so later fields' offsets stand for elements made for other fields
  (`TypeLayout.FourPairsSpoil`). A last run of nine bits gets an integer of eight (`TypeLayout.NineBitsDoNotFit`).
- `remove_edge` by value decrements the edge count a second time, after the overload it calls.
- `merge` of two items of one class adds the class's size to itself; `UnionFind.LinkExact` says that this
  is the only way for a recorded size to become inexact.
- The function-level `Verifier::verify` returns before it calls `verify_linearity`
  (`memoir/ir/src/Verifier.cpp:268-269`). The model is of `verify_linearity` itself.
- `check_call` never adds to the set of arguments it looks in (`memoir/ir/src/Verifier.cpp:104-137`),
  so it rejects nothing.

## Model

| member | source | states |
|---|---|---|
| `Preservation.LoweringPreservesMeaning` | memoir/lower/src/SSADestruction.cpp:757-1086 | the main theorem: over a control-flow graph with PHIs, any number of steps of the functional program and of the destructed program stay in lockstep, with equal values for every live name and no shared cell that could be mutated, or both have returned the same value, or both are stuck |
| `Preservation.SameOutcome` | memoir/lower/src/SSADestruction.cpp:757-1086 | an observer sees the same result at the same step, or no result on either side |
| `Preservation.UpdateFaithfulIff` | memoir/ir/src/Verifier.cpp:42-78 | which hypothesis the linearity check leaves open: for an accepted program, one in-place update is faithful exactly when its operand is dead afterwards or the update does not change it |
| `Preservation.UpdateStep` | memoir/lower/src/SSADestruction.cpp:757-1086 | mutating the operand's cell and letting the result name it keeps every live name's value, given that the operand is consumed |
| `Preservation.PlainInstStep` | memoir/lower/src/SSADestruction.cpp:683-755 | every other instruction, renamed to the ends of the coalescing chains, does the same on both sides and aliases no cell that could be mutated |
| `Preservation.PhiStep` | memoir/lower/src/SSADestructionPass.cpp:203-219 | PHIs whose incoming values have been replaced keep all live names equal and apart, whichever edge control came by |
| `Preservation.TermStep` | memoir/lower/src/SSADestructionPass.cpp:203-219 | branches and returns with renamed operands go the same way with the same value |
| `Preservation.MutateSim` | memoir/lower/src/SSADestruction.cpp:920-965 | the frame argument: mutating one cell changes the value of the update's result and of no other live name |
| `Linearity.LiveResultsConsume` | memoir/ir/src/Verifier.cpp:238-258 | if every update's result is live after it, at most one live name per part means that every operand is dead after its update |
| `Linearity.NoStaleAlias` | memoir/lower/src/SSADestruction.cpp:1369-1407 | where a name has just been defined, no live name is coalesced onto it, by single assignment and dominance |
| `Linearity.ChainEndFirst` | memoir/lower/src/SSADestruction.cpp:1369-1407 | the end of a live name's coalescing chain has been defined on every path, before the name itself |
| `DeadUpdate.DeadUpdateIsMiscompiled` | memoir/ir/src/Verifier.cpp:42-78 | a concrete program with a dead update that every check accepts, which returns 0 before lowering and 1 after |
| `SelfPhi.LostPhiIsMiscompiled` | memoir/analysis/src/Liveness.cpp:121-157 | a concrete loop whose PHI feeds itself and is not carried: with live sets that solve the code's own equations every check passes, every result is live and the partition is closed under PHIs, yet lowering makes the loop end |
| `SelfPhi.FixedPoint` | memoir/analysis/src/Liveness.cpp:103-157 | the live sets of that program satisfy the transfer functions, including the treatment of PHIs in `compute_out` |
| `Coalescing.CoalesceStep` | memoir/lower/src/SSADestruction.cpp:1382-1407 | one `do_coalesce` keeps `replaced_values` acyclic and moves every use of the name to the first unfinished name on its chain |
| `Coalescing.ChainEndEnds` | memoir/lower/src/SSADestruction.cpp:1382-1390 | following a chain ends at a name with no entry, and the whole chain agrees on it |
| `SSADestruction.Visitor.VisitBlock` | memoir/lower/src/SSADestruction.cpp:757-1086 | visiting a block replaces each instruction by its call and records exactly the updates, whatever was recorded before |
| `SSADestruction.Visitor.Visit` | memoir/lower/src/SSADestructionPass.cpp:162-176 | the first pass leaves the lowered program and records every update, in any order of blocks |
| `SSADestruction.Visitor.FindReplacement` | memoir/lower/src/SSADestruction.cpp:1382-1390 | the loop terminates, at the first name of the chain that has not been coalesced yet |
| `SSADestruction.Visitor.DoCoalesce` | memoir/lower/src/SSADestruction.cpp:1392-1407 | replacing all uses of one name keeps the code equal to the emitted code renamed along all finished chains |
| `SSADestruction.Visitor.CoalesceAll` | memoir/lower/src/SSADestructionPass.cpp:206-219 | order independence: any list of names that holds every recorded one leaves each use naming the end of its chain |
| `SSADestruction.Visitor.Run` | memoir/lower/src/SSADestructionPass.cpp:162-219 | both passes together leave the destructed program of the preservation theorem |
| `Lowered.RenameTwice` | memoir/lower/src/SSADestruction.cpp:1404-1404 | two replace-all-uses in a row are one, when the names compose |
| `Operations.WriteElement` | memoir/impl/stl_vector/definition.hpp:39-41 | defined exactly at an element, which changes and no other |
| `Operations.InsertElement` | memoir/impl/stl_vector/definition.hpp:55-57 | defined exactly up to the end: one longer, a default element at the position, later ones one up |
| `Operations.InsertGivenElement` | memoir/impl/stl_vector/definition.hpp:59-61 | the same with the element given |
| `Operations.InsertElements` | memoir/impl/stl_vector/definition.hpp:63-65 | longer by the other sequence, whose elements stand at the position in their order, later ones that much up |
| `Operations.RemoveElement` | memoir/impl/stl_vector/definition.hpp:43-45 | defined exactly at an element: one shorter, those before it stay, those after it are one down |
| `Operations.RemoveElements` | memoir/impl/stl_vector/definition.hpp:47-49 | defined exactly for a range within the sequence: shorter by it, later elements that much down |
| `Operations.WriteEntry` | memoir/impl/stl_unordered_map/definition.hpp:32-34 | defined exactly at a key that is there, whose value changes and no other |
| `Operations.InsertEntry` | memoir/impl/stl_unordered_map/definition.hpp:36-38 | a key that is there keeps its value, a new one gets the default |
| `Operations.InsertGivenEntry` | memoir/impl/stl_unordered_map/definition.hpp:40-42 | the key is there with the value, all others are as before |
| `Operations.RemoveEntry` | memoir/impl/stl_unordered_map/definition.hpp:44-46 | exactly the key goes, if it was there |
| `Operations.ClearAll` | memoir/impl/stl_unordered_map/definition.hpp:55-57 | nothing is left |
| `Operations.NewElements` | memoir/impl/stl_vector/definition.hpp:22-22 | so many default elements, or no keys |
| `Operations.CopyElements` | memoir/impl/stl_vector/definition.hpp:75-82 | all of the collection, or exactly the elements of a range in their order |
| `Operations.Answers` | memoir/impl/stl_unordered_map/definition.hpp:28-65 | size counts the elements or keys, has says whether the key is there, read gives the element or the value of a key that is there and is undefined elsewhere |
| `Operations.RemoveUndoesInsert` | memoir/impl/stl_vector/definition.hpp:43-61 | a remove at the position of an insert gives back the sequence |
| `Operations.InputComesOut` | memoir/impl/stl_vector/definition.hpp:47-82 | what has been inserted from another sequence can be copied out, and removing its range gives back the sequence |
| `Operations.InstMeans` | memoir/lower/src/SSADestruction.cpp:683-1086 | an instruction is defined exactly when its operand is a collection, its arguments have values and the operation is defined, and then has that outcome |
| `Operations.InstStepMeans` | memoir/lower/src/SSADestruction.cpp:683-1086 | a step gives the instruction's name its value and leaves every other name alone |
| `Operations.PhiStepMeans` | memoir/lower/src/SSADestructionPass.cpp:203-219 | PHIs take the values that their incoming names had before, all at once |
| `Operations.TermStepMeans` | memoir/lower/src/SSADestructionPass.cpp:203-219 | a branch goes one way on zero and the other way on every other number |
| `Verifier.CheckLiveSet` | memoir/ir/src/Verifier.cpp:42-78 | the verdict on a live set is exact: at most one name of each part is live |
| `Verifier.CheckGroup` | memoir/ir/src/Verifier.cpp:55-72 | the inner loop reports a failure exactly when two names under one key are live |
| `Verifier.UpperBound` | memoir/ir/src/Verifier.cpp:60-60 | the end of the run of equal keys in the ordered multimap |
| `Verifier.MergeInputs` | memoir/ir/src/Verifier.cpp:29-40 | a PHI is merged with all its incoming values, and with nothing else |
| `Verifier.GatherVariables` | memoir/ir/src/Verifier.cpp:29-40 | an update's operand that is a PHI is merged with exactly what it reads, wherever it stands; any other with nothing |
| `Verifier.CollectDefinitions` | memoir/ir/src/Verifier.cpp:152-182 | exactly the pairs of updates and operands, and of operand PHIs and what they read, are merged, and exactly their names, the allocations and the copies are known |
| `Verifier.FirstPairIff` | memoir/ir/src/Verifier.cpp:152-182 | instruction by instruction: the first pass relates an update and its operand, or a PHI that is an operand and a name it reads, and nothing else |
| `Verifier.FirstNameIff` | memoir/ir/src/Verifier.cpp:152-182 | the first pass knows the results of allocations and copies and the ends of what it relates, and nothing else |
| `Verifier.CollectPhis` | memoir/ir/src/Verifier.cpp:189-208 | merging with a moving parent connects just what merging with the name would: exactly the reads of names known before the loop are added |
| `Verifier.TrackedPairIff` | memoir/ir/src/Verifier.cpp:152-208 | every tracked pair is an update with its operand, or a PHI with a name it reads where the PHI is an operand or the name was known after the first pass; and all of these are tracked |
| `Verifier.TrackedIff` | memoir/ir/src/Verifier.cpp:152-208 | the tracked names are the results of allocations and copies and the ends of these pairs |
| `Verifier.NewStandsAlone` | memoir/ir/src/Verifier.cpp:166-169 | the result of an allocation or copy that no update takes and no PHI reads shares its part with no other name |
| `Verifier.WithoutUpdatesIsLinear` | memoir/ir/src/Verifier.cpp:139-258 | a program in which no two names go together passes, however many collections are live at once |
| `Verifier.BuildPartition` | memoir/ir/src/Verifier.cpp:210-216 | the multimap inverts the parent map: every name once, under its parent, in key order |
| `Verifier.CheckBlock` | memoir/ir/src/Verifier.cpp:220-254 | the edges out of a block and its instructions all pass exactly when the block is linear |
| `Verifier.CheckedAlongIff` | memoir/ir/src/Verifier.cpp:80-93 | name by name, what is checked along an edge: live after the PHIs and none of them, or read by one, or one of them that is in OUT of the source block |
| `Verifier.EdgesAddNothing` | memoir/ir/src/Verifier.cpp:220-231 | when the live sets are sound, the edges are checked by the checks of the terminators |
| `EdgeCheck.OnlyTheEdgeFails` | memoir/ir/src/Verifier.cpp:220-231 | a concrete loop, with live sets that solve the code's own equations, that every instruction check passes and the check of an edge rejects |
| `Verifier.BuildReaching` | memoir/ir/src/Verifier.cpp:148-208 | the two passes divide exactly the tracked names, and two of them share a part exactly when the tracked pairs of the program connect them |
| `Verifier.VerifyLinearity` | memoir/ir/src/Verifier.cpp:139-258 | the partition is exactly that of the tracked pairs, which are a function of the program, and the verdict is exact for it |
| `Verifier.DividesUpdates` | memoir/ir/src/Verifier.cpp:169-174 | in that partition every update is with its operand |
| `Verifier.PhiClosedIff` | memoir/ir/src/Verifier.cpp:189-208 | the one pass over the uses closes the partition under PHIs exactly when, in the program, PHI and input of each read are both tracked and connected or neither is tracked |
| `Verifier.KnownInputsClose` | memoir/ir/src/Verifier.cpp:189-208 | that is so when every tracked name that a PHI reads, and every input of a tracked PHI, was known after the first pass |
| `Verifier.LatecomersUnread` | memoir/ir/src/Verifier.cpp:189-208 | a second pass that also came by names it had itself entered would then merge the same pairs |
| `Verifier.OperandInputsKnown` | memoir/ir/src/Verifier.cpp:29-40 | whatever a PHI that is an update's operand reads is known after the first pass |
| `Pipeline.VerifyAndDestruct` | memoir/lower/src/SSADestructionPass.cpp:162-219 | end to end: if the verifier says yes and the program and its liveness are as assumed, which can be checked before the call, the emitted program behaves as the SSA program on every run |
| `Pipeline.CodeLivenessPreserves` | memoir/lower/src/SSADestructionPass.cpp:162-219 | for live sets that solve the code's own equations, lowering preserves every run when each PHI read along an edge is carried |
| `Liveness.SoundLivenessIff` | memoir/analysis/src/Liveness.cpp:103-157 | live sets that solve the code's equations are a sound liveness exactly when every PHI that some PHI reads along an edge is read by a later PHI or lives at the end of the source block anyway |
| `Liveness.ReadLaterIsSound` | memoir/analysis/src/Liveness.cpp:137-149 | in particular when every such PHI is read by a later one |
| `Liveness.PathSensitiveExactIff` | memoir/analysis/src/Liveness.cpp:137-149 | `compute_out` is exact along an edge exactly when every PHI read along it is also read by a later PHI |
| `Liveness.PathSensitiveIn` | memoir/analysis/src/Liveness.cpp:136-149 | which names are left after the PHIs have been inserted and erased one by one |
| `Liveness.ComputeOut` | memoir/analysis/src/Liveness.cpp:121-157 | OUT of a block is what goes on into any of its successors |
| `Liveness.ComputeGen` | memoir/analysis/src/Liveness.cpp:86-94 | GEN is the set of operands, each of them and nothing else |
| `Liveness.ComputeIn` | memoir/analysis/src/Liveness.cpp:103-119 | IN is (OUT - KILL) U GEN when what IN held before is within it |
| `Liveness.LiveValues` | memoir/analysis/src/Liveness.cpp:35-75 | the live set of an edge is what the linearity theorem means by it, and PHI names live out of the source block besides |
| `UnionFind.SameRootIffConnected` | memoir/support/UnionFind.hpp:67-93 | two members have one root exactly when the equivalence closure of the merged pairs relates them |
| `UnionFind.DepthIsLogarithmic` | memoir/support/UnionFind.hpp:83-89 | with the larger root as parent, two to the depth of a member is at most its root's recorded size |
| `UnionFind.PointersLeadToRoot` | memoir/support/UnionFind.hpp:45-65 | the parent pointers of a member lead to its root, in finitely many steps |
| `UnionFind.LinkBounded` | memoir/support/UnionFind.hpp:87-89 | a merge keeps every root's recorded size at least the size of its class |
| `UnionFind.LinkExact` | memoir/support/UnionFind.hpp:87-89 | an exact record stays exact exactly when the merge joins two different roots |
| `UnionFind.UnionFind.Insert` | memoir/support/UnionFind.hpp:34-43 | a stranger becomes its own root of size one, and nothing else changes |
| `UnionFind.UnionFind.TryFind` | memoir/support/UnionFind.hpp:45-65 | a member is answered by its root; path compression changes no root and no size |
| `UnionFind.UnionFind.Find` | memoir/support/UnionFind.hpp:67-76 | as above, and a stranger is inserted |
| `UnionFind.UnionFind.Merge` | memoir/support/UnionFind.hpp:78-93 | the classes of the two are joined; the order, asked about the two roots and their recorded sizes, decides which of them becomes the root of all, and it is returned |
| `UnionFind.UnionFind.Reify` | memoir/support/UnionFind.hpp:126-131 | afterwards every parent pointer points to the root, and roots and sizes are as before |
| `UnionFind.UnionFind.PerformAll` | memoir/support/UnionFind.hpp:34-93 | over any sequence of operations, having one root is exactly the closure of the merged pairs |
| `Tarjan.TarjanScc` | memoir/support/Graph.hpp:222-242 | the components partition the nodes, each key is in its own, and each is the class of its key under mutual reachability; the recursion terminates |
| `Tarjan.Helper` | memoir/support/Graph.hpp:181-220 | a visit keeps the stack ordered and anchored, the low links exact enough, and the components found so far right |
| `Tarjan.PopComponent` | memoir/support/Graph.hpp:209-217 | popping down to the node takes off exactly what lies at it and above |
| `Tarjan.SameComponentIffMutual` | memoir/support/Graph.hpp:222-242 | two nodes share a component exactly when each reaches the other |
| `Tarjan.ComponentsPartition` | memoir/support/Graph.hpp:222-242 | every node is in exactly one component |
| `TopologicalOrder.Sort` | memoir/support/Graph.hpp:150-175 | there is a value exactly when the graph is acyclic, self-loops included, and it is a permutation of the nodes in which every edge points forward |
| `TopologicalOrder.Helper` | memoir/support/Graph.hpp:111-147 | failure means a cycle; success leaves every marked node after its successors |
| `TopologicalOrder.OrderedIsAcyclic` | memoir/support/Graph.hpp:150-175 | a graph with a topological order has no cycle |
| `Condensation.Condense` | memoir/support/Graph.hpp:326-365 | the condensation is exactly the graph induced on the component keys, for any order of the components |
| `Condensation.InducedIsAcyclic` | memoir/support/Graph.hpp:326-365 | that graph has no cycle |
| `Condensation.SortCondensation` | memoir/analysis/src/LiveRangeAnalysis.cpp:115-141 | the order that is dereferenced without a check always has a value |
| `Condensation.KeepsReachIff` | memoir/support/Graph.hpp:349-361 | the condensation keeps reachability between components exactly when every edge between two components has a path through their keys |
| `Condensation.LosesReach` | memoir/support/Graph.hpp:349-361 | a concrete graph for which it does not |
| `Condensation.AddIncoming` | memoir/support/Graph.hpp:350-354 | trying each edge into a key adds just those that come from keys already there |
| `Condensation.AddOutgoing` | memoir/support/Graph.hpp:356-360 | trying each edge out of a key adds just those that go to keys already there |
| `GraphLite.Graph.AddEdge` | memoir/support/graph_lite.h:618-658 | an edge that exists or has an absent end is dropped; otherwise both adjacencies hold it and it is counted |
| `GraphLite.Graph.AddNode` | memoir/support/graph_lite.h:526-540 | a node that exists is left alone; a new one has no edges |
| `GraphLite.Graph.RemoveEdge` | memoir/support/graph_lite.h:1542-1567 | both adjacencies lose exactly the edge, and the count follows |
| `GraphLite.Graph.RemoveEdgeByValue` | memoir/support/graph_lite.h:1569-1616 | the edge goes, and the count is then off by one exactly when there was an edge |
| `GraphLite.Graph.PurgeOutgoing` | memoir/support/graph_lite.h:1653-1690 | the node disappears from the in-neighbours of its out-neighbours, itself excepted |
| `GraphLite.Graph.PurgeIncoming` | memoir/support/graph_lite.h:1653-1690 | the node disappears from the out-neighbours of its in-neighbours, itself excepted |
| `GraphLite.Graph.RemoveNode` | memoir/support/graph_lite.h:1695-1726 | the node and all its edges go, and the count corrects for a self-loop |
| `GraphLite.Graph.PerformAll` | memoir/support/graph_lite.h:1540-1730 | over any sequence of operations the double adjacency agrees with a plain graph, and the count is the total out-degree |
| `GraphLite.EdgesAreTotalOutDegree` | memoir/support/graph_lite.h:656-656 | the number of edges is the sum of the out-degrees |
| `TypeMap.TypeMapTy.AddTypeMapping` | memoir/llvm/src/IRMover.cpp:93-123 | a request succeeds exactly when some consistent mapping keeps what is there and relates the two types, and then adds the least such; otherwise everything but identities is rolled back |
| `TypeMap.TypeMapTy.AreTypesIsomorphic` | memoir/llvm/src/IRMover.cpp:127-209 | the comparison is sound and complete on cyclic types, and terminates because the unmapped types decrease |
| `TypeMap.TypeMapTy.SpeculateContents` | memoir/llvm/src/IRMover.cpp:193-208 | speculating that two types line up and comparing what they contain |
| `TypeMap.TypeMapTy.RollBack` | memoir/llvm/src/IRMover.cpp:99-107 | rolling back leaves what was there and identities, and the lists of opaque types as before |
| `TypeMap.TypeMapTy.AddTypeMappings` | memoir/llvm/src/IRMover.cpp:93-123 | over any sequence of requests the mapping stays consistent: contents are mapped to contents and no opaque struct gets two bodies |
| `TypeMap.ConsistentIff` | memoir/llvm/src/IRMover.cpp:127-209 | what a consistent mapping is, kind by kind: between types with equal address space, variable arguments, literalness and packing, number of elements, or element count, and with each part mapped to the corresponding part; no integer goes to another; structs without a body are given at most one |
| `TypeMap.SettledIff` | memoir/llvm/src/IRMover.cpp:169-209 | the same for one entry |
| `TypeMap.RestoredExactly` | memoir/llvm/src/IRMover.cpp:99-107 | a failed request leaves no trace when no unmapped type lies below both of its types |
| `TypeMap.SameUnrolling` | memoir/llvm/src/IRMover.cpp:193-208 | a consistent mapping relates the two type graphs at every place of their unrolling, up to identities and opaque structs |
| `TypeMap.Refuse` | memoir/llvm/src/IRMover.cpp:129-191 | types that differ in kind, entry or shape are related by no consistent mapping |
| `TypeMap.RefuseSecondBody` | memoir/llvm/src/IRMover.cpp:156-169 | no consistent mapping gives an opaque struct a second body |
| `TypeCheck.TypeChecker.NewTypeVariable` | memoir/ir/src/TypeCheck.cpp:491-497 | a fresh variable is its own root |
| `TypeCheck.TypeChecker.Find` | memoir/ir/src/TypeCheck.cpp:499-531 | a type is answered by its root, to which its binding then leads; no root changes, and the recursion terminates |
| `TypeCheck.TypeChecker.Unify` | memoir/ir/src/TypeCheck.cpp:533-581 | it fails exactly when the closure of the pairs would equate two distinct concrete types |
| `TypeCheck.TypeChecker.UnifyAll` | memoir/ir/src/TypeCheck.cpp:533-581 | a run of requests goes through exactly when the pairs have a unifier, and the roots are then a most general one |
| `TypeCheck.SameRootIffConnected` | memoir/ir/src/TypeCheck.cpp:499-581 | two types have one root exactly when the unified pairs relate them |
| `TypeCheck.RootsAreMostGeneral` | memoir/ir/src/TypeCheck.cpp:499-581 | the roots unify all pairs, and every unifier factors through them |
| `Implementation.Match` | memoir/lower/src/Implementation.cpp:7-58 | the substitutions that solve the pair and agree with the environment are exactly those that agree with the environment afterwards; a pattern that hides a variable in an array is refused |
| `Implementation.MatchTemplate` | memoir/lower/src/Implementation.cpp:62-71 | for every template: a type matches exactly when the template hides no variable and some substitution without void makes the two equal up to selections, and the environment is then the most general one |
| `Implementation.MatchInstance` | memoir/lower/src/Implementation.cpp:7-71 | a template matches its own ground instances exactly when it hides no variable in an array |
| `Implementation.HiddenVariable` | memoir/lower/src/Implementation.cpp:40-57 | the input that shows it: an array of any type is refused by an array of a variable, of which it is an instance |
| `Implementation.NumDimensions` | memoir/lower/src/Implementation.cpp:73-82 | the loop counts the collections nested along the elements of the template |
| `Implementation.DimensionsIff` | memoir/lower/src/Implementation.cpp:73-82 | that number is n exactly when the first n types along the elements are collections and the next is none |
| `Implementation.EraseIff` | memoir/lower/src/Implementation.cpp:43-55 | types that are equal up to selections differ in the selections of sequences and associative arrays only |
| `Implementation.MatchingIsAsDeep` | memoir/lower/src/Implementation.cpp:73-82 | a type that matches has at least as many dimensions as the template |
| `Implementation.Instantiations.Instantiate` | memoir/lower/src/Implementation.cpp:101-140 | one instance for each name and list of bound types, however often it is asked for |
| `Implementation.Environment.Find` | memoir/support/AssocList.hpp:16-20 | the position of a key in the association list, or its end |
| `KeyedStore.RunIsMapRun` | memoir/impl/twined_bitmap/definition.hpp:90-153 | when every insert gives a value and only present keys are read and written, no run can be told from the same run on a finite map |
| `KeyedStore.RunIsHistory` | memoir/impl/twined_bitmap/definition.hpp:90-153 | after any run, plain inserts included, a key is present exactly when its last operation since the last clear put it in, and has the value last given or written to it |
| `KeyedStore.AnswersAreHistory` | memoir/impl/twined_bitmap/definition.hpp:90-153 | has, read and size answer by that history |
| `KeyedStore.EachOperation` | memoir/impl/twined_bitmap/definition.hpp:110-127 | operation by operation, the present keys and the values after it |
| `KeyedStore.EnumerationUnique` | memoir/impl/twined_bitmap/definition.hpp:174-188 | a set of keys has one ascending enumeration |
| `TwinedBitMap.TwinedBitMap.Resize` | memoir/impl/twined_bitmap/definition.hpp:73-77 | growing the chunk vector changes no key and no value |
| `TwinedBitMap.TwinedBitMap.Insert` | memoir/impl/twined_bitmap/definition.hpp:110-113 | exactly the key becomes present, with whatever value is stored for it |
| `TwinedBitMap.TwinedBitMap.InsertValue` | memoir/impl/twined_bitmap/definition.hpp:115-121 | exactly the key becomes present, with the value |
| `TwinedBitMap.TwinedBitMap.Remove` | memoir/impl/twined_bitmap/definition.hpp:123-127 | exactly the key becomes absent |
| `TwinedBitMap.TwinedBitMap.Write` | memoir/impl/twined_bitmap/definition.hpp:106-108 | exactly the value of the key changes, whether the key is present or not, as long as its chunk is there |
| `TwinedBitMap.TwinedBitMap.Size` | memoir/impl/twined_bitmap/definition.hpp:147-153 | the chunks' bit counts add up to the number of present keys |
| `TwinedBitMap.TwinedBitMap.PerformAll` | memoir/impl/twined_bitmap/definition.hpp:90-153 | over any sequence of operations the chunks answer as the keyed store does |
| `TwinedBitMap.Iterator.FindNext` | memoir/impl/twined_bitmap/definition.hpp:161-172 | both loops terminate, at the first present key from the cursor on or at the end |
| `TwinedBitMap.Iterator.Next` | memoir/impl/twined_bitmap/definition.hpp:174-188 | it yields the present key at the cursor with its value and moves on past it |
| `TwinedBitMap.Enumerate` | memoir/impl/twined_bitmap/definition.hpp:155-197 | every present key is yielded exactly once, in strictly ascending order, with its value, and as many as the size says |
| `BitMap.BitMap.Insert` | memoir/impl/bitmap/definition.hpp:30-39 | exactly the key becomes present; bits and values grow together |
| `BitMap.BitMap.Size` | memoir/impl/bitmap/definition.hpp:104-106 | the bit count is the number of present keys |
| `BitMap.BitMap.PerformAll` | memoir/impl/bitmap/definition.hpp:30-106 | over any sequence of operations the bitset and the vector answer as the keyed store does |
| `BitMap.Iterator.Next` | memoir/impl/bitmap/definition.hpp:116-128 | it yields the key at the cursor with its value and goes to the next set bit |
| `BitMap.Enumerate` | memoir/impl/bitmap/definition.hpp:108-135 | every present key exactly once, in ascending order, with its value |
| `SparseBitMap.SparseBitMap.Insert` | memoir/impl/sparse_bitmap/definition.hpp:50-52 | exactly the key becomes present; a chunk made on the way changes nothing |
| `SparseBitMap.SparseBitMap.Size` | memoir/impl/sparse_bitmap/definition.hpp:85-91 | the chunks' bit counts add up to the number of present keys |
| `SparseBitMap.SparseBitMap.PerformAll` | memoir/impl/sparse_bitmap/definition.hpp:30-91 | over any sequence of operations the ordered map of chunks answers as the keyed store does |
| `StlVector.Iterator.Next` | memoir/impl/stl_vector/definition.hpp:90-101 | the index, which starts one before zero modulo the word size, is the position of the element yielded |
| `StlVector.ReverseIterator.Next` | memoir/impl/stl_vector/definition.hpp:118-129 | the same from the last element backwards |
| `LowerFold.FoldVector` | memoir/lower/src/LowerFold.cpp:204-234 | the lowered loop terminates with the left fold over the elements in index order |
| `LowerFold.FoldVectorReverse` | memoir/lower/src/LowerFold.cpp:204-234 | the same in reverse index order |
| `LowerFold.FoldTwined` | memoir/lower/src/LowerFold.cpp:204-234 | the same in ascending order of the present keys, for the twined bitmap |
| `LowerFold.FoldBitMap` | memoir/lower/src/LowerFold.cpp:204-234 | the same in ascending order of the present keys, for the bitmap |
| `LowerFold.CollectVector` | memoir/lower/src/LowerFold.cpp:204-234 | a body that collects its arguments gets each index with its element, and in reverse the same list backwards |
| `LowerFold.CollectStore` | memoir/lower/src/LowerFold.cpp:204-234 | over a bitmap it gets each present key once, in ascending order, with its value |
| `LowerFold.FoldIsUnique` | memoir/lower/src/LowerFold.cpp:204-234 | the ascending order of the present keys, and so the fold over them, is unique |
| `LowerFold.SameAnswersSameFold` | memoir/impl/sparse_bitmap/definition.hpp:30-91 | after one run the three bitmaps have given the same answers, those of a finite map if no insert was plain, and the two that can be folded fold to the same value |
| `NestedAccess.GetNestedObject` | memoir/lower/src/SSADestruction.cpp:520-658 | how the indices are split: all become calls of the chain but the last, which is left over for a collection or for a field that is no object; fully qualified, none is left over for a collection |
| `NestedAccess.ChainReaches` | memoir/lower/src/SSADestruction.cpp:520-658 | the calls of the chain lead to the object that lies at the end of the path, with the value that the path selects |
| `NestedAccess.ReadIsRead` | memoir/lower/src/SSADestruction.cpp:683-755 | the chain and the final read get what one read along the whole path gets |
| `NestedAccess.ReadWellFormedIff` | memoir/lower/src/SSADestruction.cpp:693-755 | the emitted read has an index to read at unless the last index selects an object out of a tuple |
| `NestedAccess.StoreIsPut` | memoir/lower/src/SSADestruction.cpp:757-818 | a store at the end of a chain changes the whole object just at the end of the path, for any nest of tuples and collections held inside or by pointer |
| `NestedAccess.AtPut` | memoir/lower/src/SSADestruction.cpp:757-818 | what has been put at the end of a path is read there |
| `NestedAccess.AtOtherPut` | memoir/lower/src/SSADestruction.cpp:757-818 | a path that leaves it reads what it did before |
| `NestedAccess.WriteIsWrite` | memoir/lower/src/SSADestruction.cpp:757-818 | the chain and the final write put the value at the end of the path, and change nothing else |
| `NestedAccess.RemoveIsRemove` | memoir/lower/src/SSADestruction.cpp:968-1008 | the chain and the final remove take the element away at the end of the path, a sequence closes up, and nothing else changes |
| `NestedAccess.InsertIsInsert` | memoir/lower/src/SSADestruction.cpp:859-965 | the chain and the final insert of a word put it in at the end of the path, a sequence opens up, and nothing else changes |
| `NestedAccess.InsertedParts` | memoir/impl/stl_vector/definition.hpp:59-61 | part by part: the new one is at the position or key; all other keys stay, and the later elements of a sequence are one up |
| `NestedAccess.RemovedParts` | memoir/impl/stl_vector/definition.hpp:43-45 | part by part: all other keys stay, and the later elements of a sequence are one down |
| `NestedAccess.RemoveUndoesInsert` | memoir/lower/src/SSADestruction.cpp:859-1008 | removing what was inserted gives back what was there, for keys and for positions of a sequence |
| `NestedAccess.ClearIsClear` | memoir/lower/src/SSADestruction.cpp:1053-1086 | a fully qualified clear empties the collection at the end of the path, and changes nothing else |
| `NestedAccess.SizeIsSizeHasIsHas` | memoir/lower/src/SSADestruction.cpp:824-857 | size and has ask the collection at the end of the path |
| `NestedAccess.VisitRead` | memoir/lower/src/SSADestruction.cpp:683-755 | splitting the indices, running the chain and reading what is left over reads the word at the end of the whole path |
| `NestedAccess.VisitWrite` | memoir/lower/src/SSADestruction.cpp:757-818 | the same for a write: the whole object becomes the one with the word put at the end of the path |
| `NestedAccess.VisitInsert` | memoir/lower/src/SSADestruction.cpp:859-965 | the same for an insert of a word into the collection that all but the last index lead to |
| `NestedAccess.VisitRemove` | memoir/lower/src/SSADestruction.cpp:968-1008 | the same for a remove |
| `NestedAccess.VisitClear` | memoir/lower/src/SSADestruction.cpp:1053-1086 | the same for a clear, whose indices are fully qualified |
| `NestedAccess.VisitSize` | memoir/lower/src/SSADestruction.cpp:1089-1133 | the same for a size, whose indices are fully qualified |
| `NestedAccess.VisitHas` | memoir/lower/src/SSADestruction.cpp:824-857 | the same for a has |
| `NestedObjects.Frame` | memoir/lower/src/SSADestruction.cpp:636-649 | an object keeps its meaning when none of the cells below it changes |
| `SortedVector.SortedVector.Insert` | memoir/support/SortedVector.hpp:14-22 | the value is there afterwards, once; the answer says whether it was not there before |
| `SortedVector.SortedVector.SetUnion` | memoir/support/SortedVector.hpp:42-60 | strictly sorted, the union, and true exactly when something changed |
| `SortedVector.SortedVector.SetIntersection` | memoir/support/SortedVector.hpp:62-84 | strictly sorted, the intersection, and true exactly when something changed |
| `SortedVector.SortedVector.SetDifference` | memoir/support/SortedVector.hpp:86-108 | the loop stays within the other vector exactly when this one is empty or the other's last element is at least this one's last; then it is the difference, and true exactly when something changed |
| `Sorted.EqualRange` | memoir/support/SortedVector.hpp:15-17 | between the two bounds lies the value, if it is there at all, and nothing else |
| `Sorted.SortedUnique` | memoir/support/SortedVector.hpp:11-14 | strictly sorted vectors with the same elements are the same |
| `BoundsCheckResult.IndexOrder` | memoir/analysis/src/BoundsCheckResult.cpp:23-43 | the comparison decides exactly when the lists differ, and agrees with a total order wherever it stays within both lists |
| `BoundsCheckResult.IndexLessIsOrder` | memoir/analysis/src/BoundsCheckResult.cpp:23-43 | the order of index lists is total |
| `BoundsCheckResult.FirstDifferenceDecides` | memoir/analysis/src/BoundsCheckResult.cpp:31-39 | between lists of one length the first position where they differ decides |
| `BoundsCheckResult.ShorterIsLess` | memoir/analysis/src/BoundsCheckResult.cpp:27-29 | the shorter list is less |
| `BoundsCheckResult.BoundsCheckSet.Join` | memoir/analysis/src/BoundsCheckResult.cpp:72-111 | for checks with index lists of one length, exactly the facts of either side that the other does not contradict; the answer is the growth in size |
| `BoundsCheckResult.BoundsCheckSet.Meet` | memoir/analysis/src/BoundsCheckResult.cpp:113-141 | for checks with index lists of one length, exactly the facts of both sides; the answer is zero exactly when nothing changed |
| `BoundsCheckResult.MergeNext` | memoir/analysis/src/BoundsCheckResult.cpp:80-107 | merging one more check inserts it in its place, or cancels its negation, or leaves it |
| `NextSize.NextSizeIsPowerOfTwo` | memoir/lower/TypeLayout.hpp:137-147 | below 2056, eight times the least power of two that is at least n / 8 rounded down and at least one; so eight for every n below 16 |
| `NextSize.NextSizeIsPowerIff` | memoir/lower/TypeLayout.hpp:137-147 | from 8 on the result is eight times a given power of two exactly when the positions with a set bit of n / 8 - 1 among the eight from there on are those below its exponent |
| `NextSize.NextSizeIsSomePowerIff` | memoir/lower/TypeLayout.hpp:137-147 | so it is a power of two bytes exactly when n / 8 - 1 has no eight clear bits in a row below a set one |
| `NextSize.NextSizeFails` | memoir/lower/TypeLayout.hpp:137-147 | the inputs that show it: one byte more than a power of two bytes from 256 on, and up to seven bits more, give no power of two bytes |
| `NextSize.NextSizeSufficesIff` | memoir/lower/TypeLayout.hpp:137-147 | for every width, the size is at least the width unless the width is a power of two bytes and some bits more |
| `NextSize.SmearFixedIff` | memoir/lower/TypeLayout.hpp:141-144 | the shifts never make a number smaller, and leave it alone exactly when it is all ones |
| `NextSize.SmearBit` | memoir/lower/TypeLayout.hpp:141-144 | the shifts set every bit that has a set bit among the seven above it |
| `TypeLayout.BitFieldIff` | memoir/lower/TypeLayout.hpp:149-169 | an integer is a bit field exactly when its width is no power of two bytes |
| `TypeLayout.VisitTupleType` | memoir/lower/TypeLayout.hpp:261-385 | fields at one offset are bit fields with disjoint ranges, always; each struct element is made for the fields at its offset exactly when no field but the last fills a run up to the size of an integer type; then every bit field fits exactly when the last run fits its rounded size; a run that is open at the end gets its rounded size, eight below sixteen bits |
| `TypeLayout.FieldAdds` | memoir/lower/TypeLayout.hpp:281-356 | what each field adds: a bit field gets the bits that follow those of its run, and a run that is filled or ended gets an integer exactly as wide as it is |
| `TypeLayout.RunIsSum` | memoir/lower/TypeLayout.hpp:281-356 | the width of a run is the sum of the widths of its fields |
| `TypeLayout.SizesAre` | memoir/lower/TypeLayout.hpp:122-133 | the sizes at which a run ends are the powers of two from one to sixteen bytes |
| `TypeLayout.ShortRunsAreRight` | memoir/lower/TypeLayout.hpp:261-385 | runs of fewer than eight bits meet both conditions |
| `TypeLayout.FourPairsSpoil` | memoir/lower/TypeLayout.hpp:333-356 | an input that fails the first condition: four two-bit fields and a whole one get a layout in which the last field's offset stands for an element made for the fourth |
| `TypeLayout.NineBitsDoNotFit` | memoir/lower/TypeLayout.hpp:362-371 | an input that fails the second: two-bit and one-bit fields that end in a run of nine get a byte |

## Left out

- LLVM and NOELLE objects, IR building, name mangling and callee lookup. Only the meaning of the loops and calls that are built is modelled.
- UsePHI, RetPHI and calls between functions. Incoming collections are assumed not to be aliased (`Preservation.Initial`), because `check_call` does not find aliases.
- `keys`, `fold` and type assertions as instructions of the SSA language, and shallow copies of nested collections.
- How the data-flow engine finds its live sets: it is NOELLE's and not part of this model. The results are for live sets that are sound (`Linearity.SoundLiveness`), or that solve the code's equations (`Liveness.CodeSound`) and carry every PHI.
- Verifier.CollectPhis: the code adds to the union-find while it iterates over it. The model iterates over the names that were known when the loop began; `Verifier.LatecomersUnread` says when coming by the others as well makes no difference.
- Verifier.CollectDefinitions: does not model the insertion of `keys` results and of asserted collections, which the language does not have.
- The order in which instructions are staged and visited again, debug information, and the deletion of dead instructions.
- `TypeMapTy::get` and `linkDefinedTypeBodies`, which fill the mapping and the opaque structs after all requests, and the names of structs.
- Null types in `unify`, and the visitors of `TypeCheck.cpp`, which only recurse.
- Implementation.MatchTemplate: tuple and reference types are leaves.
- The prefix and type names of instantiations, and the choice among candidates.
- `SparseBitMap`'s iterator, whose `begin` does not look for the first set bit, and the iterators of `Vector<bool>`.
- `boost::dynamic_bitset`, `std::bitset` and `std::equal_range` are taken by contract: `BitMap.FirstSet`, `KeyedStore.Ones` and the bounds of `Sorted`.
- LowerFold.FoldVector: the rewiring of basic blocks is modelled by the loop it builds, for an element type that is not void.
- NestedAccess.GetNestedObject: does not model arrays, nor implementations that cover more than one dimension. Paths follow the type of the object.
- NestedAccess.InsertIsInsert: only a word is inserted. Inserting a new nested collection, inserting another collection's elements, and removing a range are not modelled.
- The multi-edge and undirected instances of `graph_lite.h`, its iterators, and its list of edge properties, from which the property of a self-loop is erased once for each direction.
- The bounds-check analysis itself, `index_order` on lists of which the second is shorter, where it reads past the end, and `BoundsCheckSet::insert`.
- NextSize.NextSizeIsPowerIff: widths for which the result does not fit 32 bits, above 2^31, are taken without wrap-around.
- TypeLayout.VisitTupleType: what a field's type is beyond being a bit field of some width is not modelled, nor is the memoisation of layouts.
- Overflow of sizes, indices and the 32-bit counters of Tarjan's algorithm. Only the vector iterator's index wraps.
