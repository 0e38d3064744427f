# Dataflow scheduler: a model of its pipeline transformations

The dataflow scheduler turns a tile program into a pipeline of stages that load, compute and store on
separate engines, and then reshapes that pipeline. This project models the parts of it in which most can
go wrong, and proves what they promise for all inputs.

* **Pipeline tree and legalizer.** `OperationTree` holds the nodes with their parent, first-child and
  next-sibling links; its methods edit the links in place and are proved against ordered child lists.
  `LegalizerRules`, `IllegalGroups` and `PipelineTreeLegalizer` repair violated rules on the links,
  `Legalizer` repeats that until none is left, `LegalizedOrder` says in which order the original nodes
  survive. `StageDependencies` and `StageCoarsening` take dependencies across pipelines to the stages they
  belong to.
* **Stage graphs.** `StageOrdering` sorts stages and checks chains, `StageTokens` matches tokens and
  searches for cycles, `GlobalStageDag` stitches nested pipelines into one graph, `StitchCounts` says how
  often an edge is in it and `GlobalStageOrder` which order it keeps.
* **Routing and path expansion.** `RoutingGraph` finds shortest paths, `PathExpansion` joins them and
  rebuilds the stage chain, `PathPlacement` assigns resources and places stages along the path,
  `PlacedStages` says when it places all of them, `PrivateBlock` and `Materializer` write private results
  and tokens.
* **Index arithmetic.** `TileNormalized`, `TileNest`, `TileVisits`, `TileUses` and `TileRuns` tile loop
  nests again and again; `GridNormalization` flattens grids.
* **Double buffering.** `DoubleBuffering` decides which buffers may be doubled, `BufferProtocol` is the step
  protocol that makes that safe, `BufferPhaseLowering` the offsets that each engine computes.
* **Reductions, hoisting, pruning.** `LoopNests` gives loops over FIFO and tensor operations a meaning;
  `ReductionSlots`, `ReductionLoopExposure`, `ReductionRuns`, `ReductionOrder`, `ReductionElements` and
  `MapReductionPartials` expose reductions and move accumulators into buffers. `TransferHoisting` hoists
  invariant transfers, `TransferRuns` gives the program before and after a meaning, `HoistedReads` and
  `LostReads` say which reads see the same data. `HoistedOps`, `HoistedOrder`, `HoistedShape` and `HoistedRuns` take
  that to whole runs of hoists. `BackwardSlices` and `RegionClonePrune` keep what some results need, `PrunedValues`
  and `SearchOrder` say when that is enough.

`Sequences`, `Digraph`, `Arithmetic` and `TreeShape` hold what several of these share. Code that changes
things in place is modelled by methods with loops, on object links where the source has links and on
sequences and maps where it has vectors and maps; what it promises is stated about the functions and
predicates that the methods refer to. Operations whose meaning does not matter, such as the body of a
generic operation, are arbitrary functions, so the results hold for every one of them.

## Where the code does less than its documentation says

In each of these cases the model does what the code does, and the lemmas named give the case and the
condition under which the promise holds: the exact one, unless it says otherwise.

* The scan for stages with dependents does not move past a child that is no stage
  (lib/Transforms/Utils/PipelineTreeLegalizer.cpp:222-230). It returns exactly when a stage with dependents
  comes first or there is no such child (`ScanReturnsIffReachable`). The legalizer therefore asks for a tree
  in which every scan returns, which all repairs keep; a private node first, or stages only, is enough.
* The pipeline that takes up misplaced stages is appended when a stage is the first child
  (lib/Analysis/OperationTree.cpp:80-81), so the program order can change. `LegalizedTree` says exactly when.
* The walk that picks the nested pipeline of a stage is post-order and takes the innermost one of the first
  nest (lib/Dialect/KTDF/Analysis/GlobalStageDAG.cpp:189 and 219). Orders between outer stages can be lost
  (`DeepNestingLosesOrder`); `KeepsOrderIffNarrow` says when, for nests of any depth. The graph stays acyclic
  in any case.
* Edges between different pipelines of equal depth are left alone
  (lib/Dialect/KTDF/Transforms/StageCoarsening.cpp:607-624); `LiftByDepth` says which edges are moved. An
  edge between a stage and one nested in it becomes an edge from the outer stage to itself, a cycle for the
  sort that follows (`LiftedToLoopIff`, `LiftedHasLoopIff`).
* Placing stages along a path can leave original stages out; `AllStagesPlacedIff` says when it does, for
  compute stages met in the order of the chain.
* Cleaning up a private block follows operands only: what just the region of a needed operation uses is
  erased (`CapturedIsErased`). `CleanupPrivateOp` is right exactly on blocks that are `SelfContained`.
* Tiling: the first index fix-up uses the tile size as stride whatever the stride was, and the second one
  leaves out the tile loops around (`FixAExactIff`, `FixBExactIff`).
* Pruning a region to an anchor follows operands only: what an operation beside the anchor yields from
  inside is erased (`YieldFromInsideIsLost`), and a loop whose counter is not used is passed over, with its
  results and what it carries (`ResultOfIdleLoopIsLost`, `CarriedByIdleLoopIsLost`). `PruningKeepsIff` gives
  a condition on the input, `Clean`, under which the anchor always reads the same values; it is the exact one
  where no loop is met whose counter is used beside the way (`NoSideLoop`). With such a loop the order of the
  search can decide (`KeptThoughNotClean`); what is exact then is that everything demanded is in the set that
  the search arrives at (`KeptIffDemandedKept`). Pruning does keep operations around the root once an operand
  is defined outside (`OutsideIsKeptToo`).
* Exposing a reduction replaces the index of the transfer by the counter instead of adding it
  (`RightElementIff`), and starts from a new empty tensor instead of what the original operation started from
  (`ExposureKeepsReductionIff`). Patching allocations by type can shrink one twice (`ShrunkTwice`,
  `AllAllocationsAgreeIff`), and a slot for the result whose size is a multiple of the number of iterations
  is shrunk too (`OutputSlotHoldsResultIff`).
* The accumulator buffer is filled once per stage, so loops around the one that started the accumulator
  change the result as soon as they run twice (`SurroundedIsKeptIff`). Whatever the accumulator started from,
  the buffer starts from zero (`ExposureKeepsReductionIff`).
* Hoisting a transfer does not rewire the donor stage, so a read that stays there sees stale data
  (`SentOnIsLost`, `HoistKeepsReadsIff`). In an `Orderly` program, in which no stage reads what is transferred
  in it, no hoist of a whole run loses anything (`RunKeepsReads`); that condition is a sufficient one.
* Writing dependencies as tokens drops those of a stage on itself or outside the pipeline (`RoundTripIff`).

## Model

| member | source | states |
|---|---|---|
| OperationTree.Node.GetLastChild | lib/Analysis/OperationTree.cpp:48-55 | returns the last entry of the child list that the first-child and next-sibling links spell out, or nothing for a node without children |
| OperationTree.Node.GetPrevSibling | lib/Analysis/OperationTree.cpp:57-66 | for an attached node, which the source asserts: the entry before it in its parent's child list, nothing for a first child |
| OperationTree.Node.InsertChildNode | lib/Analysis/OperationTree.cpp:68-83 | on links that spell out child lists: afterwards they spell out the lists in which the child stands right after the given child, or last when the position is null; parent links stay consistent and nothing outside the list changes; that the child is not above its new parent is up to the caller |
| OperationTree.Node.InsertAsFirstChild | lib/Analysis/OperationTree.cpp:85-93 | the links then spell out the forest with the child before all others |
| OperationTree.Node.Unlink | include/dataflow-scheduler/Analysis/OperationTree.h:169-177 | takes a whole subtree out: the links spell out the forest whose list lost exactly that entry, the subtree itself unchanged |
| OperationTree.Node.UnlinkNode | lib/Analysis/OperationTree.cpp:108-154 | takes one node out and splices its children, in order, into its place in the parent's list |
| OperationTree.Node.AddDependency | include/dataflow-scheduler/Analysis/PipelineTree.h:196 | appends the target to the list of dependents |
| OperationTree.Node.ReplaceDependency | include/dataflow-scheduler/Analysis/PipelineTree.h:204-211 | replaces the first entry for the old target only |
| OperationTree.Node.NullifyDependency | include/dataflow-scheduler/Analysis/PipelineTree.h:214-221 | blanks the first entry for the target only |
| OperationTree.Node.RemoveNullifiedDependencies | include/dataflow-scheduler/Analysis/PipelineTree.h:229-233 | keeps exactly the entries that are not blank, in order |
| OperationTree.ReplacesFirst | include/dataflow-scheduler/Analysis/PipelineTree.h:204-221 | of equal entries the first one is replaced or blanked, the others stay |
| OperationTree.PresentInOrder | include/dataflow-scheduler/Analysis/PipelineTree.h:229-233 | removing blanks keeps all other entries in order |
| OperationTree.InsertedLinks | lib/Analysis/OperationTree.cpp:68-93 | link updates of an insertion on a forest spell out the forest with the insertion, for every other node too |
| OperationTree.RemovedLinks | include/dataflow-scheduler/Analysis/OperationTree.h:169-177 | the same for a removal |
| OperationTree.SplicedLinks | lib/Analysis/OperationTree.cpp:108-154 | the same for replacing a node by its children |
| TreeShape.PreOrderNoDup | lib/Analysis/OperationTree.cpp:156-165 | a pre-order walk of a forest meets no node twice |
| TreeShape.WalkReachesAll | lib/Analysis/OperationTree.cpp:156-165 | and from the root of a rooted forest it meets every node |
| LegalizerRules.ScanEnds | lib/Transforms/Utils/PipelineTreeLegalizer.cpp:209-232 | the loop that looks for a stage with dependents ends within one pass per child and gives the right answer, unless it meets a child that is no stage |
| LegalizerRules.ScanHangs | lib/Transforms/Utils/PipelineTreeLegalizer.cpp:222-230 | from such a child on it answers for no number of steps |
| LegalizerRules.ScanReturnsIffReachable | lib/Transforms/Utils/PipelineTreeLegalizer.cpp:209-232 | the scan fails to return exactly when a child that is no stage comes before every stage with dependents |
| LegalizerRules.PrivateFirstOrStagesOnly | lib/Transforms/Utils/PipelineTreeLegalizer.cpp:209-232 | a private node in front, or stages only, is enough for the scan to return |
| LegalizerRules.NestImproves | lib/Transforms/Utils/PipelineTreeLegalizer.cpp:134-203 | moving the stages of a node that is no pipeline into a nested pipeline lowers the total weight, keeps the forest scannable and adds only the new pipeline |
| LegalizerRules.AddPrivateImproves | lib/Transforms/Utils/PipelineTreeLegalizer.cpp:234-250 | so does giving a pipeline its private node |
| IllegalGroups.WrapSomeImproves | lib/Transforms/Utils/PipelineTreeLegalizer.cpp:56-116 | so does wrapping groups of illegal children in new stages |
| IllegalGroups.GroupsAreRuns | lib/Transforms/Utils/PipelineTreeLegalizer.cpp:56-90 | the groups are exactly the maximal runs of neighbouring children that are neither private nor stages, in order |
| LegalizerRules.NoWeightNoViolation | lib/Transforms/Utils/PipelineTreeLegalizer.cpp:39-54 | a forest in which the scans return weighs nothing exactly when the three rules hold, so the weight measures what is left to repair |
| LegalizerRules.ArrangedIsSameIff | lib/Transforms/Utils/PipelineTreeLegalizer.cpp:134-203 | repairing a misplaced stage moves nothing in the walk exactly when the stages are neighbours with something before them or nothing behind them |
| PipelineTreeLegalizer.CollectGroups | lib/Transforms/Utils/PipelineTreeLegalizer.cpp:56-90 | reads off the maximal runs of illegal children, in order |
| PipelineTreeLegalizer.FixPipelineChildren | lib/Transforms/Utils/PipelineTreeLegalizer.cpp:56-116 | on the links: every such run ends up, in order, under a new stage with the next free number in its place, and everything else stays |
| PipelineTreeLegalizer.FixStageParent | lib/Transforms/Utils/PipelineTreeLegalizer.cpp:134-203 | on the links: all stages among the siblings move, in order, into one new pipeline that stands where the first stage stood, or last when a stage came first |
| PipelineTreeLegalizer.FixPrivateMustExist | lib/Transforms/Utils/PipelineTreeLegalizer.cpp:234-250 | on the links: a new private node becomes the first child, nothing else changes |
| Legalizer.PipelineChildrenViolated | lib/Transforms/Utils/PipelineTreeLegalizer.cpp:39-54 | answers whether some child of a pipeline is neither a stage nor a private node |
| Legalizer.StageParentViolated | lib/Transforms/Utils/PipelineTreeLegalizer.cpp:122-132 | answers whether a stage has a parent that is no pipeline |
| Legalizer.PrivateMustExistViolated | lib/Transforms/Utils/PipelineTreeLegalizer.cpp:209-232 | answers whether a pipeline without a leading private node has a stage with dependents; it ends because the tree is scannable |
| Legalizer.PreOrderWalk | lib/Analysis/OperationTree.cpp:156-165 | visits all nodes, parents first, each once |
| Legalizer.CollectViolations | lib/Transforms/Utils/PipelineTreeLegalizer.cpp:339-369 | lists exactly the pairs of rule and node that are violated, in pre-order of the nodes |
| Legalizer.NextStageId | lib/Transforms/Utils/PipelineTreeLegalizer.cpp:268-283 | one past the largest stage number in the tree, and at least zero |
| Legalizer.FixViolation | lib/Transforms/Utils/PipelineTreeLegalizer.cpp:313-322 | repairs one violation on the links, with the next free stage numbers |
| Legalizer.RepairedImproves | lib/Transforms/Utils/PipelineTreeLegalizer.cpp:313-332 | whatever rule is repaired, the weight drops, the tree stays repairable and the surviving order of the original nodes is kept |
| Legalizer.FindAndFixViolations | lib/Transforms/Utils/PipelineTreeLegalizer.cpp:268-337 | the loop repairs the first violation of each collection, rules in order within the pre-order of nodes, hands out stage numbers in that order from one past the largest old number, and ends with no rule violated, in a tree that still holds every original node: children of pipelines are stages or private, stages sit in pipelines, and a pipeline with a stage with dependents starts with a private node |
| LegalizedOrder.OrderIsPreOrderIff | lib/Transforms/Utils/PipelineTreeLegalizer.cpp:134-203 | the order of the original nodes that survives all repairs is their original pre-order exactly when all child lists are tidy |
| LegalizedOrder.LegalizedTree | lib/Transforms/Utils/PipelineTreeLegalizer.cpp:268-337 | of a finished run: the walk meets every node once, the original nodes in an order that is given in advance, in their original order exactly when the tree was tidy; and there were no more repairs than the initial weight |
| StageDependencies.NestedIsDeeper | lib/Dialect/KTDF/Transforms/StageCoarsening.cpp:580-606 | a pipeline below a stage of another pipeline lies deeper than that, so looking at depths first misses no edge |
| StageDependencies.LiftByDepth | lib/Dialect/KTDF/Transforms/StageCoarsening.cpp:580-624 | the two branches on depths find the sibling stages to which an edge belongs; edges between pipelines of equal depth stay |
| StageDependencies.LiftTwice | lib/Dialect/KTDF/Transforms/StageCoarsening.cpp:607-624 | an edge that has been taken to where it belongs is not moved again, and if it moved it joins two stages of one pipeline |
| StageDependencies.LiftedToLoopIff | lib/Dialect/KTDF/Transforms/StageCoarsening.cpp:580-624 | an edge becomes one from a stage to itself exactly when it was, or when one of its ends is nested in the other |
| StageDependencies.LiftedHasLoopIff | lib/Dialect/KTDF/Transforms/StageCoarsening.cpp:561-650 | and so the corrected edges have a stage that depends on itself exactly when some edge joined a stage with itself or with one nested in it |
| StageDependencies.FindStageAtPipeline | lib/Dialect/KTDF/Transforms/StageCoarsening.cpp:541-556 | climbs from a stage to the stage of the target pipeline around it, if there is one |
| StageDependencies.CorrectEntry | lib/Dialect/KTDF/Transforms/StageCoarsening.cpp:580-650 | after one entry is corrected, all edges still belong where they did, and that entry stands for an edge in its place |
| StageDependencies.CorrectStage | lib/Dialect/KTDF/Transforms/StageCoarsening.cpp:561-650 | after the walk over one list, which edits lists while walking, and after removing the blanks, every edge of that list is where it belongs |
| StageCoarsening.LegalTreeAncestry | lib/Dialect/KTDF/Transforms/StageCoarsening.cpp:532-556 | in a tree without violations every stage sits in a pipeline, as the correction needs |
| StageCoarsening.BuildDepthMap | lib/Dialect/KTDF/Transforms/StageCoarsening.cpp:532-556 | records for every pipeline how many pipelines are around it, and lists all stages |
| StageCoarsening.CorrectStageDependencies | lib/Dialect/KTDF/Transforms/StageCoarsening.cpp:532-657 | the edges afterwards are exactly the edges before, each taken to the two enclosing sibling stages when one end is nested below a stage of the other end's pipeline, all others unchanged; none is lost or added; an edge is listed as often as entries of its own stage belong to it, or once more if entries of other stages do |
| Digraph.AcyclicHasOrder | lib/Analysis/PipelineTree.cpp:283-333 | a finite graph has a topological order when it has no cycle |
| Digraph.OrderedIsAcyclic | lib/Analysis/PipelineTree.cpp:283-333 | and only then |
| Digraph.StuckSetHasCycle | lib/Analysis/PipelineTree.cpp:318-331 | stages that all wait for one of themselves lie on a cycle |
| StageOrdering.CountIncoming | lib/Analysis/PipelineTree.cpp:283-300 | fills the in-degree map with the number of edges, repeated ones counted, into each stage and into each dependent elsewhere |
| StageOrdering.Release | lib/Analysis/PipelineTree.cpp:305-326 | taking a stage out lowers the count of its dependents and queues exactly those whose count reaches zero |
| StageOrdering.TopologicalSortStages | lib/Analysis/PipelineTree.cpp:283-333 | where all dependents are stages of the pipeline: returns every stage exactly once with every edge, repeated or not, pointing forward, and nothing exactly when the graph has a cycle; on stages without a cycle it succeeds exactly when all dependents are stages of the pipeline |
| StageTokens.LocalGraphClosed | lib/Analysis/PipelineTree.cpp:183-217 | the dependents that the tree is built with are siblings, as the sort needs |
| StageTokens.ProducerIsLast | lib/Analysis/PipelineTree.cpp:183-217 | of several stages that put out the same token the last one counts |
| StageTokens.SuppliersInOrder | lib/Dialect/KTDF/Analysis/GlobalStageDAG.cpp:59-68 | a stage is supplied by the producers of its tokens, token by token, and by nobody else |
| StageTokens.ConsumersInOrder | lib/Dialect/KTDF/Analysis/GlobalStageDAG.cpp:59-68 | and its consumers are listed in the order of the stages |
| StageOrdering.ValidateLinearChain | lib/Transforms/PathExpansion/Planner.cpp:251-297 | accepts a topologically sorted list exactly when it is empty or the only dependent of each stage is the next one in the list |
| StageOrdering.ChainOrderIsUnique | lib/Transforms/PathExpansion/Planner.cpp:251-297 | a chain has no other topological order |
| StageTokens.AnalyzeStageDependencies | lib/Dialect/KTDF/Analysis/GlobalStageDAG.cpp:42-107 | its predecessor and successor lists are inverse to each other, repetitions included, and it succeeds exactly when the token graph has no cycle |
| StageTokens.LocalDagIsMutual | lib/Dialect/KTDF/Analysis/GlobalStageDAG.cpp:59-68 | a stage supplies another as often as it is listed as its predecessor |
| StageTokens.HasCycle | lib/Dialect/KTDF/Analysis/GlobalStageDAG.cpp:71-82 | from a white stage: either reports a cycle that exists, or blackens what it reaches and leaves no edge from black to white or gray |
| StageTokens.SearchAll | lib/Dialect/KTDF/Analysis/GlobalStageDAG.cpp:84-91 | the three-colour search over all stages reports a cycle exactly when there is one |
| GlobalStageDag.RootsAreInnermost | lib/Dialect/KTDF/Analysis/GlobalStageDAG.cpp:187-213 | the roots of a stage are stages inside it that hold no pipeline, or the stage itself |
| GlobalStageDag.LeavesAreInnermost | lib/Dialect/KTDF/Analysis/GlobalStageDAG.cpp:217-243 | and so are its leaves |
| GlobalStageDag.GetRootStages | lib/Dialect/KTDF/Analysis/GlobalStageDAG.cpp:187-213 | computes the roots: through the pipeline that the post-order walk meets first, all stages without predecessor, recursively; a cyclic inner pipeline gives the stage itself |
| GlobalStageDag.GetLeafStages | lib/Dialect/KTDF/Analysis/GlobalStageDAG.cpp:217-243 | the same for the stages without successor |
| GlobalStageDag.GlobalGraphIsAcyclic | lib/Dialect/KTDF/Analysis/GlobalStageDAG.cpp:251-290 | however pipelines are nested: when each pipeline's own graph is acyclic, the stitched graph is |
| GlobalStageDag.GlobalEdgesJoinInnermost | lib/Dialect/KTDF/Analysis/GlobalStageDAG.cpp:266-284 | its edges join stages that hold no pipeline |
| GlobalStageDag.AllAcyclic | lib/Dialect/KTDF/Analysis/GlobalStageDAG.cpp:251-265 | checking every pipeline on its own is checking the nest |
| GlobalStageDag.BuildGlobalStageDag | lib/Dialect/KTDF/Analysis/GlobalStageDAG.cpp:251-290 | fails exactly when some pipeline's own graph is cyclic; otherwise successor lists are the stitched edges of all pipelines, y listed under x as often as the sum, over all pipelines and all entries of their consumer lists, of how often x is a leaf of the producer times how often y is a root of the consumer; the predecessor lists are their inverse |
| StitchCounts.FlatCounts | lib/Dialect/KTDF/Analysis/GlobalStageDAG.cpp:266-284 | in a pipeline without pipelines inside, each edge is there once for each token that makes it |
| StitchCounts.RootsOnce | lib/Dialect/KTDF/Analysis/GlobalStageDAG.cpp:187-213 | no stage is listed twice among the roots of a stage |
| StitchCounts.LeavesOnce | lib/Dialect/KTDF/Analysis/GlobalStageDAG.cpp:217-243 | nor among its leaves, so one entry of a consumer list adds an edge at most once |
| GlobalStageOrder.KeepsOrderIffNarrow | lib/Dialect/KTDF/Analysis/GlobalStageDAG.cpp:187-290 | for every pipeline of a nest of any depth: A before B makes every innermost stage of A come before every innermost stage of B, for all A and B, exactly when on the way out of each A, and into each B, nowhere are two pipelines side by side and in each pipeline with pipelines inside all stages lead to, or from, the first stage that holds one |
| GlobalStageOrder.KeepsOrderIffSinglyNested | lib/Dialect/KTDF/Analysis/GlobalStageDAG.cpp:251-290 | one level deep that is: no ordered stage holds two pipelines |
| GlobalStageOrder.DeepPipeIsBuilt | lib/Dialect/KTDF/Analysis/GlobalStageDAG.cpp:251-265 | a nest two levels deep with one pipeline per stage, acyclic and with distinct stages, for which the graph is built |
| GlobalStageOrder.DeepNestingLosesOrder | lib/Dialect/KTDF/Analysis/GlobalStageDAG.cpp:189-190 | and in which the order is lost |
| RoutingGraph.Routing.AddNode | lib/Analysis/ArchViews/RoutingGraph.cpp:228-235 | adds one node with a new number and no edges |
| RoutingGraph.Routing.AddEdge | lib/Analysis/ArchViews/RoutingGraph.cpp:237-242 | appends one edge after the others of its source |
| RoutingGraph.Routing.GetNeighbors | lib/Analysis/ArchViews/RoutingGraph.cpp:255-264 | the targets of the edges of a node, in order |
| RoutingGraph.Routing.FindShortestPath | lib/Analysis/ArchViews/RoutingGraph.cpp:277-322 | returns a walk from source to target with the fewest edges, and nothing exactly when an end is not in the graph or the target cannot be reached |
| RoutingGraph.FirstHit | lib/Analysis/ArchViews/RoutingGraph.cpp:288-301 | when a node comes up for expansion no walk to it is shorter than its distance |
| RoutingGraph.NotVisited | lib/Analysis/ArchViews/RoutingGraph.cpp:303 | when nothing is left to expand, nothing undiscovered can be reached |
| PathExpansion.BuildFullShortestPath | lib/Transforms/PathExpansion/Planner.cpp:350-375 | fails exactly when some waypoint cannot be reached from the one before; otherwise one walk through all waypoints in order whose length is the sum of the distances between neighbours |
| PathExpansion.ThroughWaypoints | lib/Transforms/PathExpansion/Planner.cpp:350-375 | at the places listed the walk is at the waypoints |
| PathExpansion.RebuildChain | lib/Transforms/PathExpansion/Planner.cpp:702-712 | clears all dependencies and joins each placed stage to the next one |
| PathExpansion.AllPlacedIsChain | lib/Transforms/PathExpansion/Planner.cpp:702-712 | with every stage placed the rebuilt graph is one chain and the placed list is its topological order |
| PathExpansion.UnplacedBreaksChain | lib/Transforms/PathExpansion/Planner.cpp:702-712 | a stage that was not placed breaks every chain of two or more |
| PathExpansion.ResortAndValidate | lib/Transforms/PathExpansion/Planner.cpp:327-348 | sorting and validating the rebuilt graph succeeds exactly when every stage was placed or there is at most one, and returns the placed order |
| PathPlacement.AssignOriginalStageResources | lib/Transforms/PathExpansion/Planner.cpp:402-509 | ends with the unit of a stage that computes, the source of the first transfer, the destination of the last one, the only memory of one in between, and of two memories the one that a neighbour leaves, where the left neighbour is believed first if it knows by itself; no neighbour helps a stage that has none |
| PathPlacement.Sweep | lib/Transforms/PathExpansion/Planner.cpp:465-502 | one pass resolves a stage or finds that nothing changes any more |
| PathPlacement.FindStage | lib/Transforms/PathExpansion/Planner.cpp:584-593 | the stage in the first place of the stretch that has this resource and has not been placed, nothing when no place has |
| PathPlacement.HandleMemoryNode | lib/Transforms/PathExpansion/Planner.cpp:606-632 | places the stage found for the memory, or a new one, on the unit to its right if that moves data; without such a unit the stage found, and nothing exactly when there is none |
| PathPlacement.HandleLoadStoreNode | lib/Transforms/PathExpansion/Planner.cpp:634-660 | places the stage found for the memory to its right, or a new one for that memory, on this unit; without a memory to the right a new stage |
| PathPlacement.HandleComputeNode | lib/Transforms/PathExpansion/Planner.cpp:662-681 | places the stage of the next anchor, which is then looked up behind; nothing exactly when the anchors are used up or that stage has been placed |
| PathPlacement.AnchorIndices | lib/Transforms/PathExpansion/Planner.cpp:540-556 | lists, in order of the path, every compute node whose unit some stage of the chain has, each with the first place in the chain that has it |
| PathPlacement.BuildExpandedStageList | lib/Transforms/PathExpansion/Planner.cpp:517-715 | a result means: every compute node of the path is taken by the first stage of the chain with its resource, which counts as many units before it as the path does; so there is none when such a resource has no stage; every stop of the path has a stage with the resource and the unit of that stop, in order; no stage is placed twice, new stages have new numbers, and the units of the placed stages are exactly the load/store and compute units of the path in the same order |
| PlacedStages.WalkPlacesAllIff | lib/Transforms/PathExpansion/Planner.cpp:540-702 | from the beginning of a stretch between compute stages on, with these in the order of the chain: the walk places all further stages exactly when, stretch by stretch, each resource is looked up on the path at least as often as stages of the stretch have it |
| PlacedStages.AllStagesPlacedIff | lib/Transforms/PathExpansion/Planner.cpp:517-715 | so the whole walk places every original stage exactly under that condition on path and chain |
| PlacedStages.ExpandAlongPath | lib/Transforms/PathExpansion/Planner.cpp:702-714 | the rebuilt chain, if it were sorted and validated as the chain before the walk is (lib/Transforms/PathExpansion/Planner.cpp:327-348), would pass exactly when every original stage was placed or there is at most one stage, and then in the placed order; every original stage is placed exactly when there are enough lookups |
| TileNormalized.SplitTerms | lib/Dialect/KTDF/Transforms/TileNormalized.cpp:118-143 | erases the first term of an index that uses the old variable and inserts the tile term and the point term there |
| TileNormalized.FixesKeepValue | lib/Dialect/KTDF/Transforms/TileNormalized.cpp:118-160 | when tile and point stand for the old index, both fixes keep the value of every expression in which the old variable occurs once, with stride 1 |
| TileNormalized.FixAExactIff | lib/Dialect/KTDF/Transforms/TileNormalized.cpp:118-143 | the first fix is right in every tile exactly when the stride was 1 or there is only one tile |
| TileNormalized.FixBExactIff | lib/Dialect/KTDF/Transforms/TileNormalized.cpp:145-160 | the second fix is right in every tile exactly when no tile loop around leaves a choice |
| TileNest.CustomTileNormalizedPerfectlyNested | lib/Dialect/KTDF/Transforms/TileNormalized.cpp:30-165 | fails exactly when a loop is not normalized or the sizes do not match; otherwise it builds the tile loops, the point loops with their chain of clamps and the rewritten uses |
| TileVisits.DownVisits | lib/Dialect/KTDF/Transforms/TileNormalized.cpp:56-116 | every iteration of the tiled nest, from lower bound to upper bound in steps, stands for an iteration of the original one, last tiles of any size included |
| TileVisits.UpVisits | lib/Dialect/KTDF/Transforms/TileNormalized.cpp:56-116 | every iteration of the original nest has one in the tiled nest |
| TileVisits.DownUp | lib/Dialect/KTDF/Transforms/TileNormalized.cpp:56-116 | from the index, tile and point are read back |
| TileVisits.UpDown | lib/Dialect/KTDF/Transforms/TileNormalized.cpp:56-116 | and from tile and point the index |
| TileVisits.UsesKeepValues | lib/Dialect/KTDF/Transforms/TileNormalized.cpp:118-160 | in matching iterations every rewritten use has the value of the original use |
| TileRuns.RoundNamed | lib/Dialect/KTDF/Transforms/TileNormalized.cpp:56-116 | a tiled nest is again a normalized nest with names used once, which can be tiled |
| TileRuns.RoundRewritable | lib/Dialect/KTDF/Transforms/TileNormalized.cpp:118-160 | and its uses can be rewritten again |
| TileRuns.TiledIterations | lib/Dialect/KTDF/Transforms/TileNormalized.cpp:30-165 | after any number of rounds with any positive sizes, each iteration of the last nest stands for one of the first and every use has the original value there |
| TileRuns.OriginalIterations | lib/Dialect/KTDF/Transforms/TileNormalized.cpp:30-165 | and every original iteration is visited exactly once |
| DoubleBuffering.ScanProducersConsumers | lib/Transforms/DoubleBuffering.cpp:195-225 | all stages that write the buffer and all that read it, nothing when some stage does both |
| DoubleBuffering.ReadersAscend | lib/Transforms/DoubleBuffering.cpp:195-225 | the readers are listed in the order of the stages, each once |
| DoubleBuffering.WaitsForIff | lib/Transforms/DoubleBuffering.cpp:233-262 | a stage waits for another exactly when a token that it takes in is put out by that one and by none before it |
| DoubleBuffering.ProducerTransitivelyPrecedes | lib/Transforms/DoubleBuffering.cpp:227-275 | answers whether tokens lead from the producer to the target |
| DoubleBuffering.CheckProducerConsumer | lib/Transforms/DoubleBuffering.cpp:277-312 | accepts a buffer exactly when it has one writer, some reader, no stage in both roles, and tokens lead from the writer to every reader |
| BufferProtocol.BehindTheWriter | lib/Transforms/DoubleBuffering.cpp:195-312 | in every interleaving in which no stage is two iterations ahead of another, a stage behind the only writer sees what was written for its iteration, and the copy it sees is not being written |
| BufferProtocol.ReadersSeeTheirIteration | lib/Transforms/DoubleBuffering.cpp:277-312 | hence all readers of an accepted buffer do |
| BufferProtocol.UnorderedReaderMisses | lib/Transforms/DoubleBuffering.cpp:227-275 | without such tokens there is an interleaving in which the reader is in its first iteration before anything was written |
| BufferProtocol.SafeIffPrecedes | lib/Transforms/DoubleBuffering.cpp:227-312 | with one writer and acyclic tokens a stage always sees its own iteration exactly when the writer precedes it |
| BufferPhaseLowering.CloneLoopChain | lib/Conversion/backend/ScheduleIRToDFIR/KTDFLowToDFIR/BufferPhaseLowering.cpp:69-138 | each loop of the chain gets its start value from the loop around it and yields what the loop inside it yields, the innermost one the toggled offset |
| BufferPhaseLowering.ToggleSwaps | lib/Conversion/backend/ScheduleIRToDFIR/KTDFLowToDFIR/BufferPhaseLowering.cpp:237-262 | subtracting from the sum swaps the two offsets, also when the machine word wraps around |
| BufferPhaseLowering.RunsAlternate | lib/Conversion/backend/ScheduleIRToDFIR/KTDFLowToDFIR/BufferPhaseLowering.cpp:69-138 | for any trip counts, zero ones and ones that depend on outer indices included, run k of the innermost body uses offset k mod 2 in either mode |
| BufferPhaseLowering.SameRuns | lib/Conversion/backend/ScheduleIRToDFIR/KTDFLowToDFIR/BufferPhaseLowering.cpp:155-236 | how often the innermost body runs does not depend on the rewiring |
| BufferPhaseLowering.EnginesAgree | lib/Conversion/backend/ScheduleIRToDFIR/KTDFLowToDFIR/BufferPhaseLowering.cpp:155-314 | engines lowered in different modes use the same buffer in every run |
| GridNormalization.SuffixProducts | lib/Transforms/NormalizeGridTo1D.cpp:66-76 | for every dimension the product of the dimensions inside it |
| GridNormalization.DelinearizeRowMajor | lib/Transforms/NormalizeGridTo1D.cpp:66-90 | returns the only coordinates inside the grid that linearize to the flat index |
| GridNormalization.RowMajorLinear | lib/Transforms/NormalizeGridTo1D.cpp:66-90 | coordinates with a modulo everywhere linearize to the index up to whole grids |
| GridNormalization.TopNeedsNoModulo | lib/Transforms/NormalizeGridTo1D.cpp:77-88 | below the grid size the top coordinate is in range without a modulo |
| GridNormalization.LinearRowMajor | lib/Transforms/NormalizeGridTo1D.cpp:66-90 | delinearizing a linearized coordinate tuple returns it |
| GridNormalization.FlattenGrid | lib/Transforms/NormalizeGridTo1D.cpp:100-165 | fails exactly on an empty grid, a size that is not positive, or a tile-id operation whose result count is not the rank of a grid of two or more dimensions; one dimension is left alone; otherwise the grid is the product |
| PrivateBlock.BuildPrivateResultTypes | lib/Transforms/PathExpansion/Materializer.cpp:310-353 | result types in the order originals, then per resource a buffer or its FIFO slots, then one token per stage with dependents; which type is where is stated by MaterializePrivateNode |
| PrivateBlock.CloneOriginalPrivateBody | lib/Transforms/PathExpansion/Materializer.cpp:355-373 | the operations in order, each on the clones of its operands or on what the value map has for values from elsewhere; the clones of what was yielded; and the map afterwards |
| PrivateBlock.ClonesReadBefore | lib/Transforms/PathExpansion/Materializer.cpp:355-373 | every value of the body that a clone reads is a result of a clone before it |
| PrivateBlock.AllocateNewPrivateResources | lib/Transforms/PathExpansion/Materializer.cpp:375-411 | one allocation per resource, yielding the buffer or each slot of the FIFO, each of the type announced for it |
| PrivateBlock.CreateStageTokens | lib/Transforms/PathExpansion/Materializer.cpp:413-421 | one new token for each stage with dependents |
| PrivateBlock.MaterializePrivateNode | lib/Transforms/PathExpansion/Materializer.cpp:234-298 | the original types come first, then each memory buffer has one result of its type, each FIFO link one result per slot with the number of elements of that very slot, in the places recorded for the resource, and all types behind are tokens; the values yielded have these types and are the clones of the original values, the results in order of the one allocation of the resource, and new tokens; the body begins with the clones of the original one |
| PrivateBlock.RegisterAllocatedResources | lib/Transforms/PathExpansion/Materializer.cpp:423-452 | records for every resource the places of its results: as many as it has slots, right behind those of the resources before it |
| PrivateBlock.TokenPlace | lib/Transforms/PathExpansion/Materializer.cpp:299-308 | the token of a stage is where the token map looks for it |
| Materializer.BuildStageToTokenMapping | lib/Transforms/PathExpansion/Materializer.cpp:299-308 | each stage that somebody depends on gets the result as many places behind all others as stages before it are depended on, and no other stage gets one |
| Materializer.MaterializeStage | lib/Transforms/PathExpansion/Materializer.cpp:468-494 | writes a stage with its own token and one input token per dependency on it from another stage |
| Materializer.MaterializePipeline | lib/Transforms/PathExpansion/Materializer.cpp:454-494 | writes every stage of the pipeline so |
| Materializer.TokensInOrder | lib/Transforms/PathExpansion/Materializer.cpp:468-494 | the input tokens of a stage come in the order of the stages that they are from |
| Materializer.ReadBack | lib/Analysis/PipelineTree.cpp:183-217 | reading the tokens again gives every dependency between different sibling stages as often as it was there, and nothing else |
| Materializer.RoundTripIff | lib/Analysis/PipelineTree.cpp:183-217 | so the dependencies survive, with multiplicities, exactly when all of them join different stages of the pipeline |
| BackwardSlices.FindNeeded | lib/Transforms/Utils/Utils.cpp:96-112 | the worklist finds exactly the operations that the live results need through operands |
| BackwardSlices.CopyKept | lib/Transforms/Utils/Utils.cpp:114-123 | the copies of the kept operations keep their order, with operands and what their regions use renamed to the copies |
| BackwardSlices.CopyIsOrderedIff | lib/Transforms/Utils/Utils.cpp:114-123 | in a copy of a set closed under operands nothing erased is referred to exactly when the set is closed under what regions use, too; then everything is defined before its use |
| BackwardSlices.CopyKeepsValue | lib/Transforms/Utils/Utils.cpp:114-130 | and then every value keeps its value, for any meaning of the operations |
| BackwardSlices.CollectLive | lib/Transforms/Utils/Utils.cpp:80-93 | the yield operands of the used results, with the new number of each |
| BackwardSlices.CleanupPrivateOp | lib/Transforms/Utils/Utils.cpp:75-140 | every used result has a new one, in order and without a gap; an unused one has none; only what used results need is left, and nothing changes when all are used; nothing erased is referred to exactly when regions of what is left use only what is needed through operands too, and then all used results keep their values |
| BackwardSlices.CapturedIsErased | lib/Transforms/Utils/Utils.cpp:96-112 | an operation that only the region of another uses is erased while that other one stays |
| RegionClonePrune.IvUsedByKept | lib/Transforms/Utils/RegionClonePrune.cpp:34-44 | answers whether a loop counter is used inside a kept operation |
| RegionClonePrune.ComputeKeptSet | lib/Transforms/Utils/RegionClonePrune.cpp:56-83 | exactly the set that the search arrives at from the anchor with an empty set, the last one found first; the anchor is kept exactly when it is no loop; what defines an operand of a kept operation is kept unless it is a loop; every operation around a kept one is kept, a loop if the kept one uses its counter; nothing is kept without a reason |
| RegionClonePrune.PruneRegion | lib/Transforms/Utils/RegionClonePrune.cpp:129-159 | dissolves loops that are not kept into what is around them, inner ones first, and erases the rest |
| RegionClonePrune.KeptMovesToNearest | lib/Transforms/Utils/RegionClonePrune.cpp:129-159 | nothing kept is erased with its surroundings: it ends up in the nearest operation around it that survives |
| RegionClonePrune.CounterStaysBound | lib/Transforms/Utils/RegionClonePrune.cpp:56-83 | a counter used by a kept operation still has its loop around it |
| RegionClonePrune.OutsideIsKeptToo | lib/Transforms/Utils/RegionClonePrune.cpp:60-82 | an operand defined outside the region brings the operations around that definition into the kept set |
| PrunedValues.SameIffDemandedAlive | lib/Transforms/Utils/RegionClonePrune.cpp:129-159 | following operands, what operations yield from inside and what loops carry: a use of the anchor has the same value in the pruned program exactly when everything that the value depends on is left |
| PrunedValues.KeptIffDemandedKept | lib/Transforms/Utils/RegionClonePrune.cpp:89-162 | so the anchor reads the same values exactly when everything in the region that they depend on is kept |
| PrunedValues.FollowedIsKept | lib/Transforms/Utils/RegionClonePrune.cpp:56-83 | on the input: what the search certainly goes on to from the anchor is kept, whatever else is |
| PrunedValues.FollowedIsSearched | lib/Transforms/Utils/RegionClonePrune.cpp:56-83 | and nothing else of the region is, if no loop is met whose counter is used beside the way that is followed |
| PrunedValues.PruningKeepsIff | lib/Transforms/Utils/RegionClonePrune.cpp:56-162 | on the input: the anchor reads the same values when all that they depend on in the region is followed; and exactly then, if no loop is met whose counter is used beside the way that is followed |
| PrunedValues.InnerDemandIsLost | lib/Transforms/Utils/RegionClonePrune.cpp:74-81 | a value that an operation beside the anchor yields from inside is always lost |
| PrunedValues.IdleLoopIsLost | lib/Transforms/Utils/RegionClonePrune.cpp:65-72 | and so is one that depends on a loop whose counter nobody uses, through its results or through what it carries |
| PrunedValues.PlainIsClean | lib/Transforms/Utils/RegionClonePrune.cpp:56-162 | nothing is lost when the values depend on plain operations only that yield nothing from inside |
| PrunedValues.CloneRegionAndPruneToAnchor | lib/Transforms/Utils/RegionClonePrune.cpp:89-162 | keeps what the search finds; the anchor survives, and reads the same values exactly when everything in the region that they depend on is kept; so whenever all of that is followed, and exactly then if no loop is met whose counter is used beside the way |
| PrunedValues.YieldFromInsideIsLost | lib/Transforms/Utils/RegionClonePrune.cpp:74-81 | the anchor uses the result of a conditional whose body defines the yielded value |
| PrunedValues.CarriedByIdleLoopIsLost | lib/Transforms/Utils/RegionClonePrune.cpp:65-72 | the anchor uses what a loop around it with an unused counter carries |
| PrunedValues.ResultOfIdleLoopIsLost | lib/Transforms/Utils/RegionClonePrune.cpp:65-72 | the anchor uses the result of a loop with an unused counter |
| SearchOrder.KeptThoughNotClean | lib/Transforms/Utils/RegionClonePrune.cpp:62-72 | a region in which the order of the search decides: a loop is passed over, then met again and kept once something else in it uses its counter, and the anchor reads the same values although not all of it is followed |
| LoopNests.NestRuns | lib/Dialect/KTDF/Transforms/ReductionLoopExposure.cpp:310-405 | a nest of loops without a carried value, or carrying it through, runs its body once for every index tuple in lexicographic order |
| LoopNests.CarryingNestRuns | lib/Dialect/KTDF/Transforms/ReductionLoopExposure.cpp:310-405 | and so does the nest whose outermost loop starts the carried value |
| LoopNests.OnlyTheLastIsLast | lib/Dialect/KTDF/Transforms/ReductionLoopExposure.cpp:410-421 | the tuple of last indices comes last and nowhere else |
| ReductionLoopExposure.BuildNestedForLoops | lib/Dialect/KTDF/Transforms/ReductionLoopExposure.cpp:310-405 | one loop per dimension, the first outermost, counters collected from outside in, the carried value started outside and handed through |
| ReductionLoopExposure.RewritePlainStage | lib/Dialect/KTDF/Transforms/ReductionLoopExposure.cpp:644-669 | the whole body moves into the innermost loop |
| ReductionLoopExposure.ReadSlice | lib/Dialect/KTDF/Transforms/ReductionLoopExposure.cpp:692-738 | the transfer gets size 1 and the counter as index in every reduction dimension, shifted by the extra memory dimensions, and is otherwise unchanged |
| ReductionLoopExposure.RewriteLoadStage | lib/Dialect/KTDF/Transforms/ReductionLoopExposure.cpp:684-740 | wraps the stage and rewrites every transfer into a FIFO so |
| ReductionLoopExposure.RewriteComputeStage | lib/Dialect/KTDF/Transforms/ReductionLoopExposure.cpp:759-817 | the fresh body takes one slice, combines it into the carried accumulator and sends that in the last iteration |
| ReductionLoopExposure.RewriteConditionalStoreStage | lib/Dialect/KTDF/Transforms/ReductionLoopExposure.cpp:828-867 | the innermost body has as many statements as the stage had operations; the first load or store is under the guard of the last iteration, alone, and every other statement is the operation that was there |
| ReductionRuns.ConditionalStageRuns | lib/Dialect/KTDF/Transforms/ReductionLoopExposure.cpp:842-866 | for any operations: all iterations but the last run the stage without that transfer, and the last one runs all of it in order |
| ReductionRuns.AllEqualIsLast | lib/Dialect/KTDF/Transforms/ReductionLoopExposure.cpp:410-421 | the guard over all counters holds in the last iteration and in no other |
| ReductionRuns.LoadStagePushes | lib/Dialect/KTDF/Transforms/ReductionLoopExposure.cpp:684-740 | the load stage pushes one slice per index tuple, in lexicographic order |
| ReductionRuns.ComputeStageFolds | lib/Dialect/KTDF/Transforms/ReductionLoopExposure.cpp:759-817 | the compute stage takes one slice per index tuple and sends exactly one result, the fold of them in order |
| ReductionRuns.StoreStageStoresOnce | lib/Dialect/KTDF/Transforms/ReductionLoopExposure.cpp:828-867 | the store stage stores exactly once |
| ReductionRuns.ExposedPipelineStoresFold | lib/Dialect/KTDF/Transforms/ReductionLoopExposure.cpp:616-633 | all stages together: pushes and pops balance, nothing is taken from an empty FIFO, and the one stored tensor is the fold in lexicographic order |
| ReductionOrder.SameOrder | lib/Dialect/KTDF/Transforms/ReductionLoopExposure.cpp:759-817 | of all index tuples in lexicographic order, those of one output element are its merges with the reduction tuples in lexicographic order, wherever the reduction dimensions are |
| ReductionElements.GenericAt | lib/Dialect/KTDF/Transforms/ReductionLoopExposure.cpp:788-803 | an element of the generic operation's result is the fold of the input elements that belong to it, in order |
| ReductionElements.SliceAt | lib/Dialect/KTDF/Transforms/ReductionLoopExposure.cpp:788-803 | on a slice each output element combines exactly one input element |
| ReductionElements.RightElementIff | lib/Dialect/KTDF/Transforms/ReductionLoopExposure.cpp:692-738 | the rewritten transfer reads the right elements exactly when the original one started at index 0 in every reduction dimension |
| ReductionElements.ExposedStoresGeneric | lib/Dialect/KTDF/Transforms/ReductionLoopExposure.cpp:684-817 | where it does, every element of the fold over slices is the element of the original reduction of the whole input |
| ReductionElements.ExposureKeepsReduction | lib/Dialect/KTDF/Transforms/ReductionLoopExposure.cpp:480-635 | hence the pipeline stores one tensor whose every element is the reduction of the whole input from the new empty tensor, or from zero once the accumulator is a buffer |
| ReductionElements.ExposureKeepsReductionIff | lib/Dialect/KTDF/Transforms/ReductionLoopExposure.cpp:769-797 | which for every element operation is the original reduction exactly when the tensor that the original operation started from has the same element there |
| ReductionSlots.CollectReductionInfo | lib/Dialect/KTDF/Transforms/ReductionLoopExposure.cpp:170-203 | the reduction dimensions, their sizes and the number of iterations; nothing when there is none or a size is unknown |
| ReductionSlots.ShrinkPrivateFifoSlots | lib/Dialect/KTDF/Transforms/ReductionLoopExposure.cpp:215-258 | every slot whose size is a multiple of the factor is divided by it, allocations are patched by type slot after slot; nothing when no slot is divisible |
| ReductionSlots.AllocationAgreesIff | lib/Dialect/KTDF/Transforms/ReductionLoopExposure.cpp:241-250 | in a given order an allocation ends up with its slot's new type exactly when no slot that is patched later has that new type as its old one and shrinks it again |
| ReductionSlots.AllAllocationsAgreeIff | lib/Dialect/KTDF/Transforms/ReductionLoopExposure.cpp:219-250 | in whatever order the map lists the slots, all allocations end up with the new types exactly when no slot shrinks to the type of another slot that shrinks |
| ReductionSlots.ShrunkTwice | lib/Dialect/KTDF/Transforms/ReductionLoopExposure.cpp:241-250 | slots of 16 and 4 elements on one link and a factor of 4: an allocation may end up with 1 element |
| ReductionSlots.InputSlotHoldsSlice | lib/Dialect/KTDF/Transforms/ReductionLoopExposure.cpp:219-231 | a slot for the whole input shrinks to what one slice has |
| ReductionSlots.OutputSlotHoldsResultIff | lib/Dialect/KTDF/Transforms/ReductionLoopExposure.cpp:219-231 | a slot for the whole result still holds it exactly when there is one iteration or its size is no multiple of the iterations; otherwise it holds one part in so many of what is written to it |
| MapReductionPartials.RemoveUnusedIterArgChain | lib/Dialect/KTDF/Transforms/MapReductionPartials.cpp:100-173 | from the innermost loop outwards the loops give up the accumulator, up to the one that started it, and no further |
| MapReductionPartials.RewriteGeneric | lib/Dialect/KTDF/Transforms/MapReductionPartials.cpp:204-280 | the stage starts with a buffer of zeros, and its innermost body uses the buffer |
| MapReductionPartials.BufferKeepsStage | lib/Dialect/KTDF/Transforms/MapReductionPartials.cpp:204-280 | when the outermost loop started the accumulator, at zero, the rewritten stage reads, sends and stores what the old one did, at any depth and for any innermost body |
| MapReductionPartials.RewriteSurrounded | lib/Dialect/KTDF/Transforms/MapReductionPartials.cpp:204-280 | an exposed compute stage becomes the stage whose fold starts at zero; inside further loops the buffer is filled before all of them |
| MapReductionPartials.SurroundedOnceIsKept | lib/Dialect/KTDF/Transforms/MapReductionPartials.cpp:100-173 | where all loops around run at most one iteration together, the rewritten stage does what the old one did, for any innermost body |
| MapReductionPartials.SurroundedTwiceIsNotKept | lib/Dialect/KTDF/Transforms/MapReductionPartials.cpp:216-234 | with two or more iterations a count of the slices comes out different: the buffer is filled once and goes on where it stopped |
| MapReductionPartials.SurroundedIsKeptIff | lib/Dialect/KTDF/Transforms/MapReductionPartials.cpp:204-280 | so the exposed stage inside any nest of loops does the same, whatever is combined, exactly when the product of their trip counts is at most 1 |
| TransferHoisting.GetPipelineEnclosingScope | lib/Dialect/KTDF/Analysis/PipelineScope.cpp:55-73 | the loops around a pipeline, from the innermost, up to the first in which something else at any depth is a pipeline |
| TransferHoisting.FindOutermostLegalTargetDepth | lib/Dialect/KTDF/Analysis/Reuse.cpp:42-63 | the index of the outermost loop up to which none holds the transfer back, or -1: no loop up to it has a counter that the transfer uses, an operation that writes its source, another one that writes its destination, or one that allocates its source, and the next loop of the scope has |
| TransferHoisting.LegalIffNotTied | lib/Dialect/KTDF/Analysis/Reuse.cpp:23-63 | the checks of uses, writers and definitions let a transfer out of a loop exactly when no operation in it, at any depth, holds it back |
| TransferHoisting.SettledIsTied | lib/Dialect/KTDF/Analysis/Reuse.cpp:42-102 | where no pipeline has a candidate, no transfer of a pipeline alone in a loop is free to leave it |
| TransferHoisting.SliceNesting | lib/Dialect/KTDF/Transforms/BroadcastPromotion.cpp:112-126 | in the sibling the transfer is in what it was in inside the donor stage, as often, but in no loop whose counter it does not use |
| TransferHoisting.FindFirstCandidate | lib/Dialect/KTDF/Analysis/Reuse.cpp:67-102 | of the transfers of the pipeline that can leave the most loops the first one; nothing exactly when none can leave any |
| TransferHoisting.PerformHoist | lib/Dialect/KTDF/Transforms/BroadcastPromotion.cpp:90-143 | takes the transfer out of its pipeline, makes the new allocation and sibling pipeline, rewires everything outside the donor stage; the loops around transfers, added up, become fewer |
| TransferHoisting.PassOn | lib/Dialect/KTDF/Transforms/BroadcastPromotion.cpp:90-110 | the sibling leaves one loop after the other and stands right before the target loop |
| TransferHoisting.TryHoistOneBroadcast | lib/Dialect/KTDF/Transforms/BroadcastPromotion.cpp:147-163 | the first pipeline in post-order that has a candidate; the program returned is the old one with that transfer taken out of its donor stage, its sibling right before the outermost loop that does not hold it back, and everything else rewired; without a hoist every transfer of a pipeline alone in a loop is held back by that loop |
| TransferHoisting.RunOnOperation | lib/Dialect/KTDF/Transforms/BroadcastPromotion.cpp:170-178 | ends after at most as many hoists as there were loops around transfers, in a program in which every transfer of a pipeline alone in its loop is held back by that loop: it uses the counter, or some operation of the loop writes its source, one other than itself writes its destination, or one allocates its source; gives up only on such a free transfer whose destination has no allocation; every program on the way is the one before it with its first candidate hoisted as far as it goes |
| TransferRuns.LegalIsCalm | lib/Dialect/KTDF/Analysis/Reuse.cpp:42-63 | legality for the target loop gives what the data argument needs: nothing else writes source or destination in it |
| TransferRuns.WritesToIff | lib/Analysis/WriteSetScan.cpp:45-74 | what counts as a writer of a buffer are exactly the operations that can change it |
| TransferRuns.SliceRuns | lib/Dialect/KTDF/Transforms/BroadcastPromotion.cpp:112-126 | the sliced stage leaves in the new buffer what the donor stage left in the old one, whichever stage loops are kept |
| HoistedReads.HoistKeepsReads | lib/Dialect/KTDF/Transforms/BroadcastPromotion.cpp:90-163 | for the program that a hoist returns, whatever is moved and computed and whatever loops and pipelines are around: when the destination is only read after the transfer and nothing else that is run in the donor stage reads it, every operation reads the data it read before, the same is pushed, all other buffers end up the same, and the new buffer as the old one did |
| LostReads.HoistKeepsReadsIff | lib/Dialect/KTDF/Transforms/BroadcastPromotion.cpp:90-163 | and that is so exactly when nothing else that is run in the donor stage reads the destination |
| LostReads.SentOnIsLost | lib/Dialect/KTDF/Transforms/BroadcastPromotion.cpp:130-134 | a stage that transfers and sends on what it has transferred reads something else after the hoist |
| LostReads.SentOnIsOther | lib/Dialect/KTDF/Transforms/BroadcastPromotion.cpp:130-134 | and with transfers that leave data as it is, sends something else |
| HoistedOps.HoistedImages | lib/Dialect/KTDF/Transforms/BroadcastPromotion.cpp:90-143 | after a hoist there are the operations that there were, rewired, and the new allocation |
| HoistedOps.CountHoisted | lib/Dialect/KTDF/Transforms/BroadcastPromotion.cpp:90-143 | each as often as before |
| HoistedOrder.HoistedCarries | lib/Dialect/KTDF/Transforms/BroadcastPromotion.cpp:90-143 | what is read only after an operation has written it still is, renamed, after a hoist, although the hoisted transfer reads its source earlier |
| HoistedRuns.StaysOrderly | lib/Dialect/KTDF/Transforms/BroadcastPromotion.cpp:90-163 | a program stays orderly with every hoist: identities differ, transfers run before what reads their destination, and no stage reads what is transferred in it |
| HoistedRuns.RunKeepsReads | lib/Dialect/KTDF/Transforms/BroadcastPromotion.cpp:147-178 | so over a whole run from an orderly program, however many transfers are hoisted however often, all other operations read the data they read before, the same is pushed, and the buffers that no hoisted transfer filled end the same |
| HoistedShape.ShapedHoistedAt | lib/Dialect/KTDF/Transforms/BroadcastPromotion.cpp:90-143 | a hoist keeps data movement inside stages, stages inside pipelines, and pipelines out of each other but in stages: the sibling is a pipeline of its own with one stage |
| HoistedShape.RunStaysShaped | lib/Dialect/KTDF/Transforms/BroadcastPromotion.cpp:170-178 | so do all hoists of a run |

## Left out

- MLIR plumbing: types, attributes, rewriter insertion points, diagnostics, debug output and command-line options; where the source reports an error the model returns a failure.
- Drivers, device files, bindings, and the construction of the routing graph from a device description: input and output.
- Machine integers: sizes, products and counters are unbounded, except for buffer offsets, which wrap around in BufferPhaseLowering.
- StageOrdering.TopologicalSortStages: of stages on a cycle with a dependent elsewhere only the length of a result is claimed. The tree that is sorted has none, because lib/Analysis/PipelineTree.cpp:183-217 adds edges between siblings only (StageTokens.LocalGraphClosed). The sort over token graphs in lib/Dialect/KTDF/Analysis/GlobalStageDAG.cpp:113-155 runs the same algorithm on predecessor counts and is not modelled a second time.
- GlobalStageDag.BuildGlobalStageDag: walks the local successor map in stage order; the source walks it in the order of a hash map, which changes the order inside the lists and not how often a stage is listed.
- GlobalStageOrder.KeepsOrderIffNarrow: asks that every pipeline has a stage, and distinct, acyclic pipelines as the global graph does.
- StageCoarsening.CorrectStageDependencies: how often an edge is listed is claimed up to one entry: whether a stage gets an entry for edges of other stages that it already lists depends on the order in which lists are corrected.
- Sinking loops into pipelines and stages (lib/Dialect/KTDF/Transforms/StageCoarsening.cpp:354-518) and the selection of candidates before it: tree edits of the kind OperationTree covers, driven by grouping decisions that are not part of this model.
- Legalizer.FindAndFixViolations: template operations of new nodes are not modelled, and the tree is one in which every scan for dependents returns.
- RoutingGraph.Routing.FindShortestPath: edge costs play no role in the source either; waypoints are node numbers, the lookup of a node by its resource is not modelled.
- PathPlacement.BuildExpandedStageList: the place of new stages among the children of the pipeline, which only affects the printed order, is not modelled; where the source asserts, the model returns nothing.
- PlacedStages.ExpandAlongPath: the condition for placing all stages is for compute stages that the path meets in the order of the chain.
- Classifying the placed stages and populating their transfers (lib/Transforms/PathExpansion/Planner.cpp:726-1043): bookkeeping over types and maps without a property that spans operations.
- PrivateBlock.CloneOriginalPrivateBody: types and operations are opaque numbers, regions inside the cloned operations are not modelled; nor is the cloning of stage bodies.
- TileNest.CustomTileNormalizedPerfectlyNested: the composition of affine maps and the tiling of general nests by library code are not modelled; derived sizes and linearized indices have the meaning that lib/Transforms/TileSCFForLoops.cpp:41-57 gives by example.
- DoubleBuffering.CheckProducerConsumer: one abstract buffer stands for a memref and its views; the checks of shape and memory space before it, and the rewriting of the pipeline after it (lib/Transforms/DoubleBuffering.cpp:321-488), are not modelled.
- BufferProtocol.SafeIffPrecedes: reads `modulo(size: 2)` as the promise that no stage starts iteration k + 2 before all stages have finished k.
- BackwardSlices.CleanupPrivateOp: of nested regions only the values that they use of the block are modelled; what is inside is part of the meaning of the operation.
- PrunedValues.CloneRegionAndPruneToAnchor: where a loop is met whose counter is used beside the way, the condition on the input is sufficient and the exact one is about the set that the search arrives at; operations are pure functions of their operands, of what is yielded inside them and of what they carry; side effects inside regions are not modelled.
- ReductionLoopExposure.RewriteLoadStage: stage bodies are straight-line before the rewriting, and indices of surrounding loops count as constants.
- ReductionSlots.ShrinkPrivateFifoSlots: takes the order in which slots are patched as a parameter, where the source has the order of a hash map; the sizes on the FIFO side of transfers (lib/Dialect/KTDF/Transforms/ReductionLoopExposure.cpp:265-293) are divided alike and not modelled.
- ReductionElements.ExposureKeepsReduction: is about transfers that start at 0 in every reduction dimension (RightElementIff); the output map is the projection on the dimensions that are not reduced and the input map the identity; stages run one after the other, each on what came through its FIFO.
- MapReductionPartials.RemoveUnusedIterArgChain: loops carry the accumulator only; other carried values keep their places in the source.
- TransferHoisting.FindOutermostLegalTargetDepth: one abstract buffer stands for a memref and its views. Neither the source nor the model looks at conditions around a transfer inside its stage.
- HoistedRuns.RunKeepsReads: asks for more than the exact condition for one hoist (LostReads.HoistKeepsReadsIff): every transfer, hoisted or not, runs before whatever reads its destination, and no stage reads what is transferred in it.
- HoistedReads.HoistKeepsReads: a transfer overwrites its whole destination, loops have constant trip counts, and the program runs its statements in order; conditions around transfers are not modelled.
- Memory tracking, memory-tree paths, the affine minimum rewrite, single-loop normalization, loop selection and the tile-size helper: they would only add easier members.
