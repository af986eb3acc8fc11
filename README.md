# Graph — a verified model of the Swift `Graph` library

This project models the `Graph` target of the Swift `Graph` package in Dafny.
It covers five parts:

- **The graph store.** A directed multigraph held as two maps: node id to
  node (data, in-edge set, out-edge set) and edge id to edge (tail, head,
  data). It has the two out-edge backings: `SortedEdgeSet`, whose positional
  insert always fails, and `OrderedEdgeSet`, which keeps insertion order. The
  store and both edge sets are Dafny classes. The store keeps each node's
  adjacency lists as plain sequences, updated by the same list functions
  (`SortedInsert`, `OrderedAppend`, `OrderedInsertAt`, `Without`) that
  specify the two edge-set classes; the classes themselves model
  EdgeSet.swift on their own and are not fields of the store. Their methods are proved
  against pure functions on a value snapshot (`GraphModel.GraphState`), and
  the store's invariant (every edge joins existing nodes and adjacency
  mirrors the edge map) is kept by every mutation.
- **Depth-first search.** The iterative search with its explicit stack and
  its state map, the edge classification (tree, back, forward-or-cross) and a
  visitor that may stop the search with a result. On top of it sit
  `pathExists`, `canAddDAGEdge`, `canMoveDAGEdge`, `isTree`,
  `topologicalSort` and `isDAG`. Each is proved equal to a reachability,
  tree-shape or cycle predicate.
- **The wrappers that keep an invariant.**
  - `Tree`: a store that is a tree under its root, with leaf insertion,
    insertion above a node, removal with ungrouping, removal of a subtree and
    moving a subtree.
  - `DAG`: edge insertion and edge moves are guarded by a reachability check.
  - `Compound`: a graph and a tree over the same nodes, less the tree's root.
- **Graph difference.** `difference(from:)` lists the mutations from one
  graph to another in a fixed order of groups. `applyMutation`,
  `applyDifference` and `applyingDifference` replay them. The replay of
  `b.difference(from: a)` on `a` is proved to rebuild `b`.
- **Zhang–Shasha tree editing distance.** From K. Zhang and D. Shasha,
  "Simple fast algorithms for the editing distance between trees and related
  problems", SIAM Journal on Computing 18 (1989). It covers the post-order
  annotation (left-most descendants, keyroots), the forest-distance table
  filled keyroot pair by keyroot pair, the edit script read back from the
  table, and replaying a script on a tree.

Node and edge identifiers are `int`s, whose order stands for the library's
`Comparable` identifiers. Node and edge data are type parameters. Errors are
the `GraphError` cases, carried in a `Result` or an `Outcome`
(`Pass` / `Fail(error)`).

The ordered backing is reconstructed. In `Sources/Graph/Graph/Graph.swift`
(lines 16-24) a node's out-edges are a `SortedSet`, and the store has no
`isOrdered` flag. The model rebuilds the ordered store from the two edge-set
types of `Sources/Graph/Graph/EdgeSet.swift`, the positional tree operations of
`Sources/Graph/Tree/EditableTree.swift` (lines 59-70), and the expectations of
`Tests/GraphTests/OrderedGraphTests.swift`, which builds `Graph(isOrdered: true)`.

The tree-editing costs are `nat`s. The library's default and tested costs are
whole numbers.

## Model

| member | source | states |
|---|---|---|
| GraphModel.GraphState.Nodes | Sources/Graph/Graph/Graph.swift:61-63 | the node ids, increasing, exactly the keys of the node map |
| GraphModel.GraphState.Edges | Sources/Graph/Graph/Graph.swift:65-67 | the edge ids, increasing, exactly the keys of the edge map |
| GraphModel.GraphState.NodeData | Sources/Graph/Graph/Graph.swift:85-87 | fails exactly for a missing node, with `notFound` |
| GraphModel.GraphState.EdgeData | Sources/Graph/Graph/Graph.swift:89-91 | fails exactly for a missing edge, with `notFound` |
| GraphModel.GraphState.NodeOutEdges | Sources/Graph/Graph/Graph.swift:93-95 | `notFound` for a missing node; otherwise the stored list, whose members are exactly the edges leaving the node (a valid store) |
| GraphModel.GraphState.NodeInEdges | Sources/Graph/Graph/Graph.swift:97-99 | `notFound` for a missing node; otherwise an increasing list of exactly the edges entering it |
| GraphModel.GraphState.NodeEdges | Sources/Graph/Graph/Graph.swift:101-103 | the increasing union of a node's out- and in-edges |
| GraphModel.GraphState.NodeSuccessors | Sources/Graph/Graph/Graph.swift:105-107 | increasing; a node is listed exactly when some out-edge ends at it |
| GraphModel.GraphState.NodePredecessors | Sources/Graph/Graph/Graph.swift:109-111 | increasing; a node is listed exactly when some in-edge starts at it |
| GraphModel.GraphState.NodeNeighbors | Sources/Graph/Graph/Graph.swift:113-117 | increasing; exactly the successors and the predecessors |
| GraphModel.GraphState.EdgeHead | Sources/Graph/Graph/Graph.swift:119-121 | `notFound` exactly for a missing edge |
| GraphModel.GraphState.EdgeTail | Sources/Graph/Graph/Graph.swift:123-125 | `notFound` exactly for a missing edge |
| GraphModel.GraphState.EdgeEnds | Sources/Graph/Graph/Graph.swift:127-130 | `notFound` exactly for a missing edge; otherwise tail and head |
| GraphModel.GraphState.NewNode | Sources/Graph/Graph/Graph.swift:154-157 | `duplicate` exactly when the id is taken; otherwise one more node with the data and no edges, and nothing else changes; validity kept |
| GraphModel.GraphState.NewEdge | Sources/Graph/Graph/Graph.swift:164-172 | `duplicate` for a taken id, else `notFound` for a missing end, all before any change; otherwise the edge is stored and listed in its tail's out-list and its head's in-list; validity kept |
| GraphModel.GraphState.RemoveEdge | Sources/Graph/Graph/Graph.swift:174-179 | `notFound` for a missing edge; otherwise the edge leaves the edge map and both adjacency lists, the other lists keep their order; validity kept |
| GraphModel.GraphState.RemoveNodeEdges | Sources/Graph/Graph/Graph.swift:181-186 | `notFound` for a missing node; otherwise no edge touches the node afterwards, every other edge stays, and every other out-list keeps its surviving edges in their order |
| GraphModel.GraphState.RemoveNode | Sources/Graph/Graph/Graph.swift:159-162 | `notFound` for a missing node; otherwise the node and exactly its incident edges are gone; validity kept |
| GraphModel.GraphState.MoveEdge | Sources/Graph/Graph/Graph.swift:188-217 | `notFound` for a missing edge or end; unchanged when both ends are the same; otherwise the edge gets the new ends and keeps its data, and its id moves between the adjacency lists; validity kept |
| GraphModel.GraphState.NewEdgeAt | Sources/Graph/Graph/EditableGraphBase.swift:62-65 | `notOrdered` on a sorted store and `invalidIndex` outside `0..count`; otherwise as `NewEdge`, with the edge at that position of its tail's out-list |
| GraphModel.GraphState.MoveEdgeAt | Sources/Graph/Graph/EditableGraphBase.swift:62-65 | as `MoveEdge`, with the edge placed at the given position of its new tail's out-list |
| GraphModel.GraphState.MoveEdgeTo | Tests/GraphTests/OrderedGraphTests.swift:50-53 | reorders the edge within its tail's out-list to the given position; nothing else changes |
| GraphModel.GraphState.MoveEdgeToFront | Tests/GraphTests/OrderedGraphTests.swift:54-57 | `notFound` for a missing edge, else `notOrdered` for a sorted store; otherwise the edge becomes first among its tail's out-edges, the other out-edges keep their order, every other out-list and every in-list is unchanged, and the edge map and validity are kept |
| GraphModel.GraphState.MoveEdgeToBack | Tests/GraphTests/OrderedGraphTests.swift:54-57 | `notFound` for a missing edge, else `notOrdered` for a sorted store; otherwise the edge becomes last among its tail's out-edges, the other out-edges keep their order, every other out-list and every in-list is unchanged, and the edge map and validity are kept |
| GraphModel.GraphState.WithNodeData | Sources/Graph/Graph/Graph.swift:137-140 | `notFound` for a missing node; otherwise only that node's data changes |
| GraphModel.GraphState.SetNodeData | Sources/Graph/Graph/EditableGraphBase.swift:20-24 | `notFound` for a missing node; otherwise only that node's data is replaced: the key set, the other nodes' data, every in- and out-list and the edge map are unchanged |
| GraphModel.GraphState.WithEdgeData | Sources/Graph/Graph/Graph.swift:143-146 | `notFound` for a missing edge; otherwise only that edge's data changes and it keeps its ends |
| GraphModel.GraphState.SetEdgeData | Sources/Graph/Graph/Graph.swift:148-152 | `notFound` for a missing edge; otherwise only that edge's data is replaced |
| GraphModel.GraphState.ValidIncidence | Sources/Graph/Graph/Graph.swift:169-179 | in a valid store an edge is in a node's out-list exactly when the node is its tail, and in its in-list exactly when it is its head |
| GraphModel.GraphState.SortedDeterminacy | Sources/Graph/Graph/Graph.swift:294-298 | two valid sorted stores with the same node data and the same edge map are equal |
| GraphModel.GraphState.NewNodeThenRemove | Sources/Graph/Graph/Graph.swift:154-162 | adding a node and removing it restores the store |
| GraphModel.GraphState.NewEdgeThenRemove | Sources/Graph/Graph/Graph.swift:164-179 | adding an edge and removing it restores the store |
| GraphModel.GraphState.RemoveEdgeThenNew | Sources/Graph/Graph/Graph.swift:164-179 | removing the last out-edge of a sorted store and adding it back restores the store |
| GraphModel.GraphState.MoveEdgeBack | Sources/Graph/Graph/Graph.swift:188-217 | moving an edge and moving it back restores the edge map |
| Graphs.Graph.constructor | Tests/GraphTests/OrderedGraphTests.swift:10 | an empty valid store of the requested backing, as `Graph(isOrdered:)` builds it (the ordered backing is reconstructed, see the note above "## Model") |
| Graphs.Graph.NewNode | Sources/Graph/Graph/Graph.swift:154-157 | the new state and outcome are those of `GraphState.NewNode`; a failure leaves the store alone |
| Graphs.Graph.NewEdge | Sources/Graph/Graph/Graph.swift:164-172 | the new state and outcome are those of `GraphState.NewEdge` |
| Graphs.Graph.RemoveEdge | Sources/Graph/Graph/Graph.swift:174-179 | the new state and outcome are those of `GraphState.RemoveEdge` |
| Graphs.Graph.RemoveNodeEdges | Sources/Graph/Graph/Graph.swift:181-186 | removes the edges one at a time in a loop; the result is `GraphState.RemoveNodeEdges` |
| Graphs.Graph.RemoveNode | Sources/Graph/Graph/Graph.swift:159-162 | the incident edges first, then the node; the result is `GraphState.RemoveNode` |
| Graphs.Graph.MoveEdge | Sources/Graph/Graph/Graph.swift:188-217 | the new state and outcome are those of `GraphState.MoveEdge` |
| Graphs.Graph.NewEdgeAt | Sources/Graph/Graph/EditableGraphBase.swift:62-65 | the new state and outcome are those of `GraphState.NewEdgeAt` |
| Graphs.Graph.MoveEdgeAt | Sources/Graph/Graph/EditableGraphBase.swift:62-65 | the new state and outcome are those of `GraphState.MoveEdgeAt` |
| Graphs.Graph.MoveEdgeTo | Tests/GraphTests/OrderedGraphTests.swift:50-53 | the new state and outcome are those of `GraphState.MoveEdgeTo` |
| Graphs.Graph.MoveEdgeToFront | Tests/GraphTests/OrderedGraphTests.swift:54-57 | the new state and outcome are those of `GraphState.MoveEdgeToFront` |
| Graphs.Graph.MoveEdgeToBack | Tests/GraphTests/OrderedGraphTests.swift:54-57 | the new state and outcome are those of `GraphState.MoveEdgeToBack` |
| Graphs.Graph.WithNodeData | Sources/Graph/Graph/Graph.swift:137-140 | the new state and outcome are those of `GraphState.WithNodeData` |
| Graphs.Graph.SetNodeData | Sources/Graph/Graph/EditableGraphBase.swift:20-24 | the new state and outcome are those of `GraphState.SetNodeData` |
| Graphs.Graph.WithEdgeData | Sources/Graph/Graph/Graph.swift:143-146 | the new state and outcome are those of `GraphState.WithEdgeData` |
| Graphs.Graph.SetEdgeData | Sources/Graph/Graph/Graph.swift:148-152 | the new state and outcome are those of `GraphState.SetEdgeData` |
| EdgeSets.SortedInsert | Sources/Graph/Graph/EdgeSet.swift:36-38 | inserting into an increasing list keeps it increasing and adds exactly the new member |
| EdgeSets.OrderedAppend | Sources/Graph/Graph/EdgeSet.swift:87-89 | a new member goes at the end and the earlier members keep their places; a present one changes nothing |
| EdgeSets.OrderedInsertAt | Sources/Graph/Graph/EdgeSet.swift:91-96 | `invalidIndex` unless `0 <= index <= count`; otherwise the member sits at `index` and the others keep their order |
| EdgeSets.Without | Sources/Graph/Graph/EdgeSet.swift:44-46 | the members less the one removed, in their old order |
| EdgeSets.FirstIndex | Sources/Graph/Graph/EdgeSet.swift:61-66 | `notFound` exactly for a non-member; otherwise a position holding it |
| EdgeSets.Sort | Sources/Graph/Graph/EdgeSet.swift:48-50 | an increasing list of the same members |
| EdgeSets.Keep | Sources/Graph/Graph/EdgeSet.swift:52-54 | exactly the members that satisfy the test, in their old order |
| EdgeSets.SortedEdgeSet.constructor | Sources/Graph/Graph/EdgeSet.swift:29-31 | an empty, valid set |
| EdgeSets.SortedEdgeSet.Insert | Sources/Graph/Graph/EdgeSet.swift:36-38 | the contents become `SortedInsert` of the old contents |
| EdgeSets.SortedEdgeSet.InsertAt | Sources/Graph/Graph/EdgeSet.swift:40-42 | always `notOrdered`, and the set is unchanged |
| EdgeSets.SortedEdgeSet.Remove | Sources/Graph/Graph/EdgeSet.swift:44-46 | the contents lose the member and keep their order |
| EdgeSets.SortedEdgeSet.Union | Sources/Graph/Graph/EdgeSet.swift:48-50 | the increasing list of the members of both |
| EdgeSets.SortedEdgeSet.Filter | Sources/Graph/Graph/EdgeSet.swift:52-54 | the members that pass, in order |
| EdgeSets.SortedEdgeSet.IsEmpty | Sources/Graph/Graph/EdgeSet.swift:33 | true exactly when the set has no members |
| EdgeSets.SortedEdgeSet.Count | Sources/Graph/Graph/EdgeSet.swift:34 | for a valid set, the number of its members |
| EdgeSets.SortedEdgeSet.IndexOf | Sources/Graph/Graph/EdgeSet.swift:61-66 | `notFound` exactly for a non-member; otherwise the first position holding it |
| EdgeSets.SortedEdgeSet.Array | Sources/Graph/Graph/EdgeSet.swift:68-70 | the same members, one entry each, increasing, each at the position `IndexOf` gives it |
| EdgeSets.OrderedEdgeSet.constructor | Sources/Graph/Graph/EdgeSet.swift:80-82 | an empty, valid set |
| EdgeSets.OrderedEdgeSet.Insert | Sources/Graph/Graph/EdgeSet.swift:87-89 | the contents become `OrderedAppend` of the old contents |
| EdgeSets.OrderedEdgeSet.InsertAt | Sources/Graph/Graph/EdgeSet.swift:91-96 | the outcome and contents of `OrderedInsertAt`; a failure leaves the set alone |
| EdgeSets.OrderedEdgeSet.Remove | Sources/Graph/Graph/EdgeSet.swift:98-100 | the contents lose the member and keep their order |
| EdgeSets.OrderedEdgeSet.Union | Sources/Graph/Graph/EdgeSet.swift:102-104 | the increasing list of the members of both |
| EdgeSets.OrderedEdgeSet.Filter | Sources/Graph/Graph/EdgeSet.swift:106-108 | the members that pass, in order |
| EdgeSets.OrderedEdgeSet.IsEmpty | Sources/Graph/Graph/EdgeSet.swift:84 | true exactly when the set has no members |
| EdgeSets.OrderedEdgeSet.Count | Sources/Graph/Graph/EdgeSet.swift:85 | for a valid set, the number of its members |
| EdgeSets.OrderedEdgeSet.IndexOf | Sources/Graph/Graph/EdgeSet.swift:115-120 | `notFound` exactly for a non-member; otherwise the first position holding it |
| EdgeSets.OrderedEdgeSet.Array | Sources/Graph/Graph/EdgeSet.swift:122-124 | the same members, one entry each, in insertion order, each at the position `IndexOf` gives it |
| SetOrder.SortedElements | Sources/Graph/Graph/Graph.swift:61-67 | the increasing list of a finite set's members |
| SetOrder.SortedList | Sources/Graph/Graph/Graph.swift:61-63 | a loop that lists a set in increasing order, equal to `SortedElements` |
| DepthFirst.DepthFirstSearch | Sources/Graph/Algorithms/DepthFirstSearch.swift:10-35 | the trace of events is a proper search: every examined edge is exactly one of tree, back or forward-or-cross, by its head's state; nodes finish after all their out-edges; roots that are already discovered are skipped; the excluded edge is left out of the root's out-edges only. The first non-continue answer ends the search and is its result; otherwise every node (or every node reachable from the roots) was finished and `finish` gives the result; a missing root gives `notFound` |
| DepthFirst.SearchFromRoot | Sources/Graph/Algorithms/DepthFirstSearch.swift:36-103 | keeps the search invariant from one root to the next: the loop pops the stack, examines the remaining out-edges from the last, and finishes a node once its list is empty |
| DepthFirst.SearchFromEach | Sources/Graph/Algorithms/DepthFirstSearch.swift:21-32 | searches from each root in turn, then from every node unless only roots were asked for |
| DepthFirst.Classify | Sources/Graph/Algorithms/DepthFirstSearch.swift:69-95 | an undiscovered head gives a tree edge, a discovered one a back edge and a finished one a forward-or-cross edge |
| SearchTraces.Answers | Sources/Graph/Algorithms/DepthFirstSearch.swift:10-35 | a stateless visitor's result is the answer to the last event, every earlier answer having been to continue |
| SearchTraces.FinishedReach | Sources/Graph/Algorithms/DepthFirstSearch.swift:36-103 | a complete search from a root discovers every node reachable from it without the root's excluded edge |
| PathSearch.PathExists | Sources/Graph/Algorithms/PathExists.swift:5-8 | `notFound` for a missing start other than the target; otherwise whether the target is reachable, with the excluded edge left out at the start node only |
| PathSearch.PathExistsReach | Sources/Graph/Algorithms/PathExists.swift:5-8 | with no excluded edge, `pathExists` is plain reachability |
| PathSearch.CanAddDAGEdge | Sources/Graph/Algorithms/PathExists.swift:10-12 | true exactly when the new head cannot reach the new tail |
| PathSearch.CanAddDAGEdgeExact | Sources/Graph/Algorithms/PathExists.swift:10-12 | on an acyclic store the answer is exactly whether the new edge leaves it acyclic |
| PathSearch.CanAddDAGEdgeLoops | Sources/Graph/Algorithms/PathExists.swift:10-12 | a self-loop is always refused, and an edge parallel to an existing one of an acyclic store is allowed |
| PathSearch.CanMoveDAGEdge | Sources/Graph/Algorithms/PathExists.swift:14-16 | the answer of `canAddDAGEdge` for the new ends, with the moved edge left out at the search's start only |
| PathSearch.CanMoveDAGEdgeSafe | Sources/Graph/Algorithms/PathExists.swift:14-16 | a move that the check allows keeps an acyclic store acyclic |
| PathSearch.CanMoveDAGEdgeTooStrict | Sources/Graph/Algorithms/PathExists.swift:14-16 | a move that keeps the store acyclic but that the check refuses |
| PathSearch.CanMoveDAGEdgeExact | Sources/Graph/Algorithms/PathExists.swift:14-16 | the corrected check, which leaves the moved edge out everywhere |
| PathSearch.MoveAllowedExact | Sources/Graph/Algorithms/PathExists.swift:14-16 | the corrected check allows exactly the moves that keep an acyclic store acyclic |
| TreeTest.IsTree | Sources/Graph/Algorithms/IsTree.swift:4-6 | `notFound` for a missing root; otherwise whether every node is reached from the root along exactly one path |
| TreeTest.TreeOutcome | Sources/Graph/Algorithms/IsTree.swift:9-26 | a search with this visitor stops with false on a start other than the root, a back edge or a forward-or-cross edge, and answers true otherwise; that answer is exactly tree shape |
| TreeTest.TreeRootUnique | Tests/GraphTests/TreeTests.swift:35-36 | a store is a tree under at most one root |
| TreeTest.LoneRootTree | Tests/GraphTests/TreeTests.swift:18-20 | a single node with no edges is a tree |
| TopoSort.TopoListed | Sources/Graph/Algorithms/TopologicalSort.swift:38-41 | a search with no back edge lists its nodes once each, in finish order, every edge's head before its tail |
| TopoSort.TopoOutcome | Sources/Graph/Algorithms/TopologicalSort.swift:24-42 | the visitor's result is the finish order; it fails with `notADAG` only on a cycle |
| TopoSort.TopologicalSort | Sources/Graph/Algorithms/TopologicalSort.swift:6-10 | the nodes without repeats, heads before tails: all nodes, or with `rootsOnly` exactly those reachable from the roots; `notADAG` only when there is a cycle, `notFound` only for a missing root |
| TopoSort.TopoSortTotal | Sources/Graph/Algorithms/TopologicalSort.swift:6-10 | sorting all the nodes succeeds exactly when the store has no cycle |
| TopoSort.IsDAG | Sources/Graph/Algorithms/TopologicalSort.swift:12-21 | true exactly when the store has no cycle |
| Paths.ReachTrans | Sources/Graph/Algorithms/PathExists.swift:5-8 | reachability is transitive |
| Paths.HeadsFirstAcyclic | Sources/Graph/Algorithms/TopologicalSort.swift:38-41 | a store whose nodes can be listed heads first has no cycle |
| Paths.BackEdgeCycle | Sources/Graph/Algorithms/TopologicalSort.swift:34-36 | a back edge closes a cycle |
| TreeViews.InEdge | Sources/Graph/Tree/ViewableTree.swift:12-14 | `notFound` for a missing node; none exactly when nothing enters the node; otherwise its least in-edge |
| TreeViews.InEdgeLeast | Sources/Graph/Tree/ViewableTree.swift:12-14 | the edge given is the least of the node's in-edges |
| TreeViews.Parent | Sources/Graph/Tree/ViewableTree.swift:16-21 | `notFound` for a missing node; none exactly when nothing enters it; otherwise the tail of its in-edge |
| TreeViews.NonRootNodes | Sources/Graph/Tree/ViewableTree.swift:23-25 | the node ids less the root, increasing |
| TreeViews.Children | Sources/Graph/Tree/EditableTree.swift:79-105 | `notFound` for a missing node; otherwise the heads of its out-edges, in out-list order (models how these call sites use `children`, whose definition is not part of the source files) |
| TreeViews.IndexOf | Sources/Graph/Tree/EditableTree.swift:62-77 | a node's position among its parent's out-edges, or none for a node nothing enters (models how these call sites use `index(of:)`, whose definition is not part of the source files) |
| TreeViews.TreeParent | Sources/Graph/Tree/ViewableTree.swift:16-21 | in a tree only the root has no parent, and every other node has exactly one in-edge |
| TreeViews.TreeChildren | Sources/Graph/Tree/ViewableTree.swift:16-21 | in a tree `m` is a child of `n` exactly when `n` is the parent of `m` |
| TreeShapes.TreeAcyclic | Sources/Graph/Tree/Tree.swift:14-20 | a tree has no cycle |
| TreeShapes.TreeAddLeaf | Sources/Graph/Tree/EditableTree.swift:52-55 | a new leaf under an existing node keeps the tree shape |
| TreeShapes.TreeNewRoot | Sources/Graph/Tree/EditableTree.swift:62-66 | a new node above the root is the root of a tree |
| TreeShapes.TreeRemoveLeaf | Sources/Graph/Tree/EditableTree.swift:107-118 | removing a leaf other than the root keeps the tree shape |
| TreeShapes.TreeDropRoot | Sources/Graph/Tree/EditableTree.swift:81-88 | removing a root with one child leaves a tree under that child |
| TreeShapes.TreeMoveSubtree | Sources/Graph/Tree/EditableTree.swift:120-131 | re-hanging a subtree under a node outside it keeps the tree shape |
| Trees.MakeTree | Sources/Graph/Tree/Tree.swift:14-20 | fails exactly when the store is not a tree under the root: `notFound` for a missing root, else `notATree`; otherwise a tree over the store |
| Trees.Tree.Unchecked | Sources/Graph/Tree/Tree.swift:32-35 | a tree over the given store and root, which the caller vouches for |
| Trees.Tree.CopySettingInner | Sources/Graph/Tree/Tree.swift:37-39 | a new tree over another store, keeping this tree's root |
| Trees.Tree.SetRoot | Sources/Graph/Tree/EditableTree.swift:12 | the root becomes the given node and the store is left alone |
| Trees.Tree.WithNodeData | Sources/Graph/Tree/EditableTree.swift:31-34 | as `GraphState.WithNodeData`; passes exactly for a present node, and the tree shape is kept |
| Trees.Tree.SetNodeData | Sources/Graph/Tree/EditableTree.swift:40-44 | as `GraphState.SetNodeData`; passes exactly for a present node |
| Trees.Tree.WithEdgeData | Sources/Graph/Tree/EditableTree.swift:36-38 | as `GraphState.WithEdgeData`; passes exactly for a present edge |
| Trees.Tree.SetEdgeData | Sources/Graph/Tree/EditableTree.swift:46-50 | as `GraphState.SetEdgeData`; passes exactly for a present edge |
| Trees.Tree.MoveNode | Sources/Graph/Tree/EditableTree.swift:120-131 | the outcome and state of `Moved`: `notATree` for the root or a new parent inside the subtree, `notFound` for a missing node or parent; otherwise only the node's in-edge is re-pointed |
| Trees.Tree.MoveNodeAt | Sources/Graph/Tree/EditableTree.swift:133-144 | the outcome and state of `MovedAt`: as `MoveNode`, with the node placed at the given position among its new siblings |
| Trees.MoveSteps | Sources/Graph/Tree/EditableTree.swift:120-131 | `Moved` is the library's sequence of steps (subtree check, then `moveEdge` of the in-edge) and keeps the tree shape |
| Trees.MoveAtSteps | Sources/Graph/Tree/EditableTree.swift:133-144 | `MovedAt` is the library's sequence of steps and keeps the tree shape |
| Trees.Tree.NewNode | Sources/Graph/Tree/EditableTree.swift:52-55 | the outcome and state of `AddLeaf`; on success the node is a leaf child of the parent (the corrected form: every check before any change; the library adds the node first, see "## Findings") |
| Trees.Tree.NewNodeAt | Sources/Graph/Tree/EditableTree.swift:57-60 | the outcome and state of `AddLeafAt`; on success the node is a leaf child of the parent (the corrected form: every check before any change; the library adds the node first, see "## Findings") |
| Trees.Tree.InsertNode | Sources/Graph/Tree/EditableTree.swift:62-77 | the outcome, state and root of `Inserted` (the corrected form: every check before any change; the library adds the node first, see "## Findings") |
| Trees.Tree.RemoveNodeUngrouping | Sources/Graph/Tree/EditableTree.swift:79-105 | the outcome, state and root of `Ungrouped` |
| Trees.Tree.RemoveNodeAndChildren | Sources/Graph/Tree/EditableTree.swift:107-118 | `notATree` for the root, leaving the store alone; otherwise exactly the node and its descendants are removed, with the edges among them and into them |
| Trees.RootUngroup | Sources/Graph/Tree/EditableTree.swift:81-88 | removing the root fails with `notATree` unless it has exactly one child, which becomes the root |
| TreeEdits.AddLeaf | Sources/Graph/Tree/EditableTree.swift:52-55 | `duplicate` for a taken node or edge id, `notFound` for a missing parent; otherwise the store with the node and the edge from the parent (the corrected form: every check before any change; the library adds the node first, see "## Findings") |
| TreeEdits.AddLeafTree | Sources/Graph/Tree/EditableTree.swift:52-55 | the new store is a tree under the same root, with the node a leaf child of the parent (the corrected form: every check before any change; the library adds the node first, see "## Findings") |
| TreeEdits.AddLeafAt | Sources/Graph/Tree/EditableTree.swift:57-60 | as `AddLeaf`, placing the edge at the position given; `notOrdered` or `invalidIndex` as the store demands (the corrected form: every check before any change; the library adds the node first, see "## Findings") |
| TreeEdits.AddLeafAtTree | Sources/Graph/Tree/EditableTree.swift:57-60 | the new store is a tree, with the leaf at the given position among its siblings (the corrected form: every check before any change; the library adds the node first, see "## Findings") |
| TreeEdits.AddRoot | Sources/Graph/Tree/EditableTree.swift:62-66 | `duplicate` for a taken node or edge id; otherwise the new node and an edge from it to the old root (the corrected form: every check before any change; the library adds the node first, see "## Findings") |
| TreeEdits.AddRootTree | Sources/Graph/Tree/EditableTree.swift:62-66 | the new node is the root of a tree whose only child is the old root (the corrected form: every check before any change; the library adds the node first, see "## Findings") |
| TreeEdits.Inserted | Sources/Graph/Tree/EditableTree.swift:62-77 | fails exactly for a missing node other than the root (`notFound`) or a taken id (`duplicate`) (the corrected form: every check before any change; the library adds the node first, see "## Findings") |
| TreeEdits.InsertedAtRoot | Tests/GraphTests/OrderedTreeTests.swift:56-71 | inserting at the root makes the new node the root, with the old root its only child (the corrected form: every check before any change; the library adds the node first, see "## Findings") |
| TreeEdits.InsertedBelow | Tests/GraphTests/OrderedTreeTests.swift:40-54 | inserting at a non-root node puts the new node under the node's old parent, with the node its only child (the corrected form: every check before any change; the library adds the node first, see "## Findings") |
| TreeEdits.InsertedOrder | Sources/Graph/Tree/EditableTree.swift:67-76 | in an ordered store the new node takes the node's old place among its siblings (the corrected form: every check before any change; the library adds the node first, see "## Findings") |
| TreeEdits.Moved | Sources/Graph/Tree/EditableTree.swift:120-131 | the error cases in the library's order: root, missing node, new parent inside the subtree, missing parent |
| TreeEdits.MovedAt | Sources/Graph/Tree/EditableTree.swift:133-144 | as `Moved`, then `notOrdered` or `invalidIndex` |
| TreeEdits.MovedRehung | Sources/Graph/Tree/EditableTree.swift:120-131 | on success only the node's in-edge changes, now from the new parent, and the tree shape is kept |
| TreeEdits.MovedAtRehung | Sources/Graph/Tree/EditableTree.swift:133-144 | as `MovedRehung`, with the edge at the given position |
| TreeEdits.NewNodeAsWritten | Sources/Graph/Tree/EditableTree.swift:52-55 | the library's two steps (add the node, then the edge); a failed second step keeps the node |
| TreeEdits.NewNodeAsWrittenAgrees | Sources/Graph/Tree/EditableTree.swift:52-55 | when `AddLeaf` succeeds the two steps give the same store; when they leave a tree, `AddLeaf` succeeds |
| TreeEdits.NewNodeOrphan | Sources/Graph/Tree/EditableTree.swift:52-55 | a missing parent fails but leaves an orphan node, so the store is no longer a tree |
| TreeEdits.NewNodeSelfLoop | Sources/Graph/Tree/EditableTree.swift:52-55 | a node made its own parent passes and leaves a self-loop that is not a tree |
| TreeEdits.NewNodeAtAsWritten | Sources/Graph/Tree/EditableTree.swift:57-60 | the library's two steps for the positional form |
| TreeEdits.NewNodeAtOrphan | Sources/Graph/Tree/EditableTree.swift:57-60 | a missing parent fails but leaves an orphan node |
| TreeEdits.InsertNodeAsWritten | Sources/Graph/Tree/EditableTree.swift:62-77 | the library's steps for `insertNode` |
| TreeEdits.InsertNodeAsWrittenAgrees | Sources/Graph/Tree/EditableTree.swift:62-77 | the steps pass exactly when `Inserted` succeeds, and then give its store |
| TreeEdits.InsertRootOrphan | Sources/Graph/Tree/EditableTree.swift:62-66 | inserting at the root with a taken edge id fails but leaves the new node behind, so the store is no longer a tree |
| TreeEdits.LeafStepAgrees | Sources/Graph/Tree/EditableTree.swift:67-76 | the first step of inserting below a node passes exactly when the checked form does, with the same store |
| TreeUngroup.Ungrouped | Sources/Graph/Tree/EditableTree.swift:79-105 | the root needs exactly one child (`notATree`); another node must exist (`notFound`); on success the store is a tree without the node |
| TreeUngroup.UngroupedRoot | Sources/Graph/Tree/EditableTree.swift:81-88 | removing the root leaves its child as the new root, with the edge between them gone |
| TreeUngroup.UngroupedBelow | Sources/Graph/Tree/EditableTree.swift:89-104 | the node and its in-edge are gone, and its out-edges now leave its old parent |
| TreeUngroup.UngroupedParents | Sources/Graph/Tree/EditableTree.swift:89-104 | every child of the node now has the node's old parent as its parent; other parents are unchanged |
| TreeUngroup.UngroupedOuts | Tests/GraphTests/OrderedTreeTests.swift:73-87 | in an ordered store the parent's out-list has the node's out-edges spliced in at the node's old position |
| TreeUngroup.UngroupedOrder | Tests/GraphTests/OrderedTreeTests.swift:73-87 | in an ordered store the parent's children are the old ones with the node's children in its place |
| TreePrune.PruneStep | Sources/Graph/Tree/EditableTree.swift:113-117 | removing one more node keeps the store equal to the original without the removed nodes |
| TreePrune.PruneTreeStep | Sources/Graph/Tree/EditableTree.swift:113-117 | removing descendants first, each removal keeps a tree under the same root |
| DAGs.MakeDAG | Sources/Graph/DAG/DAG.swift:14-19 | fails with `notADAG` exactly when the store has a cycle |
| DAGs.DAG.constructor | Sources/Graph/DAG/DAG.swift:14-19 | a DAG over an acyclic store |
| DAGs.DAG.NewEdge | Sources/Graph/DAG/DAG.swift:33-38 | the guard runs first; passes exactly when the edge can be added and leaves the store acyclic; otherwise nothing changes |
| DAGs.DAG.NewEdgeAt | Sources/Graph/DAG/DAG.swift:40-45 | as `NewEdge`, for the positional form |
| DAGs.DAG.MoveEdge | Sources/Graph/DAG/DAG.swift:47-52 | guarded by the library's `canMoveDAGEdge`; a pass leaves the store acyclic, and any move the guard passes is also one the corrected guard passes |
| DAGs.DAG.MoveEdgeAt | Sources/Graph/DAG/DAG.swift:54-59 | as `MoveEdge`, for the positional form |
| DAGs.DAG.MoveEdgeTo | Sources/Graph/DAG/DAG.swift:61-63 | forwarded unchecked: the new state is `GraphState.MoveEdgeTo` |
| DAGs.DAG.MoveEdgeToFront | Sources/Graph/DAG/DAG.swift:65-67 | forwarded unchecked |
| DAGs.DAG.MoveEdgeToBack | Sources/Graph/DAG/DAG.swift:69-71 | forwarded unchecked |
| DAGs.DAG.WithNodeData | Sources/Graph/Graph/EditableGraphBaseWrapper.swift:10-12 | forwarded to the store: the new state and outcome are those of `GraphState.WithNodeData`, and acyclicity is kept |
| DAGs.DAG.WithEdgeData | Sources/Graph/Graph/EditableGraphBaseWrapper.swift:14-16 | forwarded to the store: the new state and outcome are those of `GraphState.WithEdgeData`, and acyclicity is kept |
| DAGs.DAG.NewNode | Sources/Graph/Graph/EditableGraphBaseWrapper.swift:18-28 | forwarded to the store; acyclicity is kept |
| DAGs.DAG.RemoveNode | Sources/Graph/Graph/EditableGraphBaseWrapper.swift:18-28 | forwarded to the store; acyclicity is kept |
| DAGs.DAG.RemoveEdge | Sources/Graph/Graph/EditableGraphBaseWrapper.swift:18-28 | forwarded to the store; acyclicity is kept |
| DAGs.DAG.RemoveNodeEdges | Sources/Graph/Graph/EditableGraphBaseWrapper.swift:18-28 | forwarded to the store; acyclicity is kept |
| DAGs.AddGuardExact | Sources/Graph/DAG/DAG.swift:33-45 | the edge-adding guard passes exactly the insertions that keep the store acyclic |
| DAGs.MoveGuardSafe | Sources/Graph/DAG/DAG.swift:47-59 | the library's move guard passes only moves that keep the store acyclic |
| DAGs.MoveGuardExact | Sources/Graph/DAG/DAG.swift:47-59 | the corrected move guard passes exactly the moves that keep the store acyclic |
| DAGs.KeepsAcyclic | Sources/Graph/DAG/DAG.swift:61-71 | an edit that adds no new edge ends keeps the store acyclic |
| Compounds.MakeCompound | Sources/Graph/Compound/Compound.swift:28-38 | fails with `notACompound` exactly when the graph holds the tree's root or its nodes are not the tree's other nodes |
| Compounds.Compound.constructor | Sources/Graph/Compound/Compound.swift:28-38 | a compound over the given graph, tree and root |
| Compounds.CompoundShapedNonRoot | Sources/Graph/Compound/Compound.swift:28-38 | the compound invariant is the library's check: the root is not a graph node, and the graph's nodes are the tree's non-root nodes |
| Compounds.Compound.NewNode | Sources/Graph/Compound/Compound.swift:59-62 | the outcome and states of `CompoundAddNode`; on success the node is a leaf child of the parent in the tree (the corrected form: every check before any change; the library adds the node first, see "## Findings") |
| Compounds.CompoundAddNode | Sources/Graph/Compound/Compound.swift:59-62 | `duplicate` for a taken id or the tree's root, `notFound` for a missing parent; on success the invariant is kept (the corrected form: every check before any change; the library adds the node first, see "## Findings") |
| Compounds.CompoundNewNodeAsWritten | Sources/Graph/Compound/Compound.swift:59-62 | the library's two steps: into the graph, then into the tree |
| Compounds.CompoundNewNodeRoot | Sources/Graph/Compound/Compound.swift:59-62 | a new node with the tree root's id fails in the tree but stays in the graph, breaking the invariant |
| Compounds.CompoundNewNodeAgrees | Sources/Graph/Compound/Compound.swift:59-62 | when `CompoundAddNode` succeeds the two steps give the same graph and tree |
| Compounds.Compound.RemoveNode | Sources/Graph/Compound/Compound.swift:66-69 | the graph loses the node and its edges; the tree ungroups it, so its children move to its parent |
| Compounds.Compound.MoveNode | Sources/Graph/Compound/Compound.swift:72-74 | only the tree changes, as `Moved` |
| Compounds.MovedKeepsNodes | Sources/Graph/Compound/Compound.swift:72-74 | a move keeps the tree's nodes, so the invariant holds |
| Compounds.Compound.NewEdge | Sources/Graph/Compound/Compound.swift:77-79 | only the graph changes, as `GraphState.NewEdge` |
| Compounds.Compound.NewEdgeAt | Sources/Graph/Compound/Compound.swift:84-86 | only the graph changes, as `GraphState.NewEdgeAt` |
| Compounds.Compound.RemoveEdge | Sources/Graph/Compound/Compound.swift:89-91 | only the graph changes, as `GraphState.RemoveEdge` |
| Compounds.Compound.RemoveNodeEdges | Sources/Graph/Compound/Compound.swift:94-96 | only the graph changes, as `GraphState.RemoveNodeEdges` |
| Compounds.Compound.MoveEdge | Sources/Graph/Compound/Compound.swift:99-101 | only the graph changes, as `GraphState.MoveEdge` |
| Compounds.Compound.MoveEdgeAt | Sources/Graph/Compound/Compound.swift:106-108 | only the graph changes, as `GraphState.MoveEdgeAt` |
| Compounds.Compound.MoveEdgeTo | Sources/Graph/Compound/Compound.swift:113-115 | only the graph changes, as `GraphState.MoveEdgeTo` |
| Compounds.Compound.MoveEdgeToFront | Sources/Graph/Compound/Compound.swift:120-122 | only the graph changes, as `GraphState.MoveEdgeToFront` |
| Compounds.Compound.MoveEdgeToBack | Sources/Graph/Compound/Compound.swift:127-129 | only the graph changes, as `GraphState.MoveEdgeToBack` |
| GraphDiff.Difference | Sources/Graph/Algorithms/GraphDifference.swift:68-143 | the loops build exactly `DifferenceOf`: the seven groups in order, each sorted by id |
| GraphDiff.Group | Sources/Graph/Algorithms/GraphDifference.swift:114-140 | one mutation per id, in the order of the ids, built from the target graph |
| GraphDiff.ListsNewNode | Sources/Graph/Algorithms/GraphDifference.swift:77-79 | `newNode(n, d)` is listed exactly for a target node missing from the source, with its target data |
| GraphDiff.ListsSetNodeData | Sources/Graph/Algorithms/GraphDifference.swift:81-87 | `setNodeData` is listed exactly for a shared node whose data differs, with the target data |
| GraphDiff.ListsRemoveNode | Sources/Graph/Algorithms/GraphDifference.swift:80 | `removeNode` is listed exactly for a source node missing from the target |
| GraphDiff.ListsNewEdge | Sources/Graph/Algorithms/GraphDifference.swift:92-94 | `newEdge` is listed exactly for a target edge missing from the source, with its ends and data |
| GraphDiff.ListsSetEdgeData | Sources/Graph/Algorithms/GraphDifference.swift:97-103 | `setEdgeData` is listed exactly for a shared edge whose data differs |
| GraphDiff.ListsMoveEdge | Sources/Graph/Algorithms/GraphDifference.swift:104-110 | `moveEdge` is listed exactly for a shared edge whose ends differ, with the target ends |
| GraphDiff.ListsRemoveEdge | Sources/Graph/Algorithms/GraphDifference.swift:95 | `removeEdge` is listed exactly for a source edge missing from the target |
| GraphDiff.DifferenceGrouped | Sources/Graph/Algorithms/GraphDifference.swift:112-140 | any two mutations of the list are in group order, and by increasing id within a group |
| GraphDiff.InStage | Sources/Graph/Algorithms/GraphDifference.swift:68-143 | a mutation is listed exactly when its id is one its group needs and it is built from the target |
| DiffReplay.Mutated | Sources/Graph/Algorithms/GraphDifference.swift:147-168 | fails exactly when the mutation does not apply to the store's nodes and edges, with the error the graph operation raises; otherwise the new store is valid and its node data and edge map are the mutation's effect |
| DiffReplay.Replay | Sources/Graph/Algorithms/GraphDifference.swift:170-178 | replays in order and stops at the first failure, keeping the earlier effects; the store stays valid |
| DiffReplay.ApplyMutation | Sources/Graph/Algorithms/GraphDifference.swift:147-168 | dispatches to the graph method; the new state and outcome are `Mutated` |
| DiffReplay.ApplyDifference | Sources/Graph/Algorithms/GraphDifference.swift:170-178 | the loop's outcome and new state are `Replay` of the old state |
| DiffReplay.ApplyingDifference | Sources/Graph/Algorithms/GraphDifference.swift:180-188 | a fresh copy receives the replay; the receiver is left alone |
| DiffRoundTrip.ReplayRuns | Sources/Graph/Algorithms/GraphDifference.swift:170-178 | the replay on a store passes exactly when the replay on its node data and edge map does, with the same result |
| DiffRoundTrip.GroupRuns | Sources/Graph/Algorithms/GraphDifference.swift:114-140 | one group replays without failure, to the group's combined effect, when the store is ready for it |
| DiffRoundTrip.DifferenceRoundTrip | Tests/GraphTests/GraphDifferenceTests.swift:5-10 | replaying `b.difference(from: a)` on `a` passes and gives `b`'s nodes, node data and edges; for sorted stores it gives `b` itself |
| EditAnnotation.Annotate | Sources/Graph/Algorithms/TreeEditingDistance.swift:212-286 | the annotation the two stack loops build equals the post-order definition: node indices, labels, walk numbers, left-most descendants and keyroots |
| EditAnnotation.Walk | Sources/Graph/Algorithms/TreeEditingDistance.swift:240-251 | the first loop lists the nodes in pre-order, each with its ancestors |
| EditAnnotation.Unwind | Sources/Graph/Algorithms/TreeEditingDistance.swift:258-279 | the second loop gives the post-order lists, and its keyroot map holds, per left-most descendant, the last node with it |
| EditAnnotation.WalkNumbers | Tests/GraphTests/TreeEditingDistanceTests.swift:30-38 | the walk numbers, reversed, are `0 ..< n` |
| EditAnnotation.Lmds | Sources/Graph/Algorithms/TreeEditingDistance.swift:263-276 | a node's left-most descendant is its post-order position less its subtree size, plus one |
| EditAnnotation.AnnotationShape | Tests/GraphTests/TreeEditingDistanceTests.swift:40-50 | one entry per node; left-most descendants nest; the root's is 0; a node is its own exactly when it is a leaf; keyroots increase and include the root |
| EditAnnotation.LmdsBounded | Sources/Graph/Algorithms/TreeEditingDistance.swift:263-276 | every left-most descendant is at most its node's position |
| EditAnnotation.KeyMapValues | Sources/Graph/Algorithms/TreeEditingDistance.swift:277 | the keyroots are exactly the last nodes of each left-most descendant |
| EditTable.FirstColumn | Sources/Graph/Algorithms/TreeEditingDistance.swift:54-61 | the column against the empty forest holds the cumulative removals |
| EditTable.FirstRow | Sources/Graph/Algorithms/TreeEditingDistance.swift:63-70 | the row against the empty forest holds the cumulative insertions, naming the forest's first source node |
| EditTable.PathCell | Sources/Graph/Algorithms/TreeEditingDistance.swift:84-116 | on the two left paths the cell is the first cheapest of remove, insert and update-or-match, and it is also the tree distance stored in the table |
| EditTable.OffPathCell | Sources/Graph/Algorithms/TreeEditingDistance.swift:117-143 | off the paths the cell is the first cheapest of remove, insert and the earlier forests plus the stored subtree distance |
| EditTable.CellValue | Sources/Graph/Algorithms/TreeEditingDistance.swift:71-145 | each cell is the forest distance between the prefixes it stands for |
| EditTable.FillCell | Sources/Graph/Algorithms/TreeEditingDistance.swift:71-145 | after a cell, the filled part of the forest table and the tree table both hold the recurrence |
| EditTable.TreeDist | Sources/Graph/Algorithms/TreeEditingDistance.swift:39-146 | after `treeDist(i, j)` every tree-table cell whose keyroots come no later than the pair holds its tree distance |
| EditTable.AllPairs | Sources/Graph/Algorithms/TreeEditingDistance.swift:148-152 | after all keyroot pairs every tree-table cell holds the distance between the two subtrees |
| EditTable.KeyOfIff | Sources/Graph/Algorithms/TreeEditingDistance.swift:204-206 | a node's keyroot is the last node sharing its left-most descendant |
| EditDistance.FirstLeast | Sources/Graph/Algorithms/TreeEditingDistance.swift:94-96 | the index of the minimum of three costs, ties going to the first |
| EditDistance.Cheapest | Sources/Graph/Algorithms/TreeEditingDistance.swift:94-116 | the cheapest of three options, ties going to remove, then insert |
| EditDistance.UnitCosts | Sources/Graph/Algorithms/TreeEditingDistance.swift:13-19 | one per insertion or removal, one per change to different data, nothing for keeping data |
| DistanceFacts.DistanceScript | Sources/Graph/Algorithms/TreeEditingDistance.swift:154-155 | the script read from the table costs exactly the distance |
| DistanceFacts.DistanceSelf | Tests/GraphTests/TreeEditingDistanceTests.swift:142-147 | when keeping data costs nothing, a tree is at distance zero from itself |
| DistanceFacts.DistanceBelowSizes | Tests/GraphTests/TreeEditingDistanceTests.swift:142-147 | under the default costs the distance is at most the two sizes added: remove everything, then insert everything |
| DistanceFacts.DistanceBelowRebuild | Sources/Graph/Algorithms/TreeEditingDistance.swift:39-146 | the distance is at most the cost of removing every source node and inserting every target node |
| DistanceFacts.UnitSymmetric | Sources/Graph/Algorithms/TreeEditingDistance.swift:13-19 | the default costs are symmetric: a removal costs what an insertion does, and a change of data costs the same both ways |
| DistanceFacts.DistanceSymmetric | Tests/GraphTests/TreeEditingDistanceTests.swift:76-81 | under symmetric costs the distance from `a` to `b` equals the distance from `b` to `a`, proved by induction over the forest recurrence |
| DistanceRelabel.ForestRelabel | Tests/GraphTests/TreeEditingDistanceTests.swift:129-142 | when keeping a node is free everywhere but at one position, between annotations of the same shape a forest costs at most the change at that position |
| DistanceRelabel.ForestDiffers | Tests/GraphTests/TreeEditingDistanceTests.swift:129-142 | when every removal and insertion costs something and so does the change at a position, a forest holding that position is never free |
| DistanceRelabel.ForestOneLabel | Tests/GraphTests/TreeEditingDistanceTests.swift:129-142 | under unit costs, annotations of the same shape whose data differ at most at one position are at distance one, or zero when they agree there |
| DistanceRelabel.DistanceOneLabel | Tests/GraphTests/TreeEditingDistanceTests.swift:129-142 | under the default costs, a tree and the same tree with one node's data changed are at distance one, or zero when the data stay the same |
| TreeEditing.EditingDistance | Sources/Graph/Algorithms/TreeEditingDistance.swift:21-170 | the cost is the distance of the two roots, and the script is its script, without `match` steps when filtering |
| TreeEditing.UnitEditingDistance | Sources/Graph/Algorithms/TreeEditingDistance.swift:13-19 | the same under the default costs; the cost equals the distance from `b` to `a`; and when `b` is `a` with the data of one node changed, the cost is one, or zero when the new data equal the old |
| TreeEditing.EditingOperations | Sources/Graph/Algorithms/TreeEditingDistance.swift:290-292 | the default-cost script without `match` steps |
| TreeEditing.WithoutMatches | Sources/Graph/Algorithms/TreeEditingDistance.swift:156-164 | every step kept is a non-match step of the script, and every non-match step is kept |
| TreeEditing.WithoutMatchesTwice | Sources/Graph/Algorithms/TreeEditingDistance.swift:156-164 | filtering twice filters once |
| TreeEditing.WithoutMatchesCost | Sources/Graph/Algorithms/TreeEditingDistance.swift:156-164 | the filtered script costs what the whole one does |
| ScriptReplay.ReplayAppend | Sources/Graph/Algorithms/TreeEditingDistance.swift:304-321 | replaying two scripts one after the other is replaying their concatenation |
| ScriptReplay.ReplayWithoutMatches | Sources/Graph/Algorithms/TreeEditingDistance.swift:314-315 | when keeping a node does nothing, dropping `match` steps changes no replay |
| ScriptReplay.ReplayCount | Sources/Graph/Algorithms/TreeEditingDistance.swift:304-321 | a successful replay grows the tree by the insertions less the removals |
| TreeApply.NodeAt | Sources/Graph/Algorithms/TreeEditingDistance.swift:298-303 | `invalidEditingOperation` exactly for a position outside the node list; otherwise the node there |
| TreeApply.Step | Sources/Graph/Algorithms/TreeEditingDistance.swift:305-316 | a `match` step does nothing; any other step that passes leaves a tree |
| TreeApply.RemoveStep | Sources/Graph/Algorithms/TreeEditingDistance.swift:306-307 | a removal that passes leaves a tree without that node |
| TreeApply.InsertStep | Sources/Graph/Algorithms/TreeEditingDistance.swift:308-309 | an insertion that passes leaves a tree with one more, fresh, node; the call is read as `insertNode(_:at:)`, above the indexed node (see "## Left out") |
| TreeApply.UpdateStep | Sources/Graph/Algorithms/TreeEditingDistance.swift:310-313 | an update that passes keeps the root and the nodes |
| TreeApply.ReplayTree | Sources/Graph/Algorithms/TreeEditingDistance.swift:304-321 | a replay that passes leaves a tree |
| TreeApply.AppliedWithoutMatches | Sources/Graph/Algorithms/TreeEditingDistance.swift:314-315 | a script and its filtered form apply alike |
| TreeApply.AppliedCount | Sources/Graph/Algorithms/TreeEditingDistance.swift:304-321 | a script that applies changes the node count by its insertions less its removals |
| TreeApply.AppliedAppend | Sources/Graph/Algorithms/TreeEditingDistance.swift:304-321 | a failing prefix fails the whole script; otherwise the rest applies to what the prefix left |
| TreeApply.ApplyStep | Sources/Graph/Algorithms/TreeEditingDistance.swift:305-316 | the step changes the tree exactly as `Step` says, or fails with its error |
| TreeApply.ReplayOn | Sources/Graph/Algorithms/TreeEditingDistance.swift:304-321 | the loop leaves the tree and outcome of the replay |
| TreeApply.ApplyEditingOperations | Sources/Graph/Algorithms/TreeEditingDistance.swift:294-323 | works on a copy, which ends as the replay describes, or gives the first failing step's error |

## Left out

- DepthFirst.DepthFirstSearch: the trace does not record `initNode`. So "called once per node, in node order, before any root" is not stated. Nor is the reverse stored order in which a node's out-edges are examined. The model does pop from the end of the list, but no contract states that order.
- Graphs.Graph: a node's adjacency lists are `seq` fields of the node value, not `EdgeSets.SortedEdgeSet` or `EdgeSets.OrderedEdgeSet` objects. So the model does not capture the edge-set objects being updated in place inside a node. Their contents follow the same list functions that specify those classes.
- Graphs.Graph.WithNodeData: the transform is a plain function `ND -> ND`. The library's transform is `(inout Data) throws -> T`; its result `T` is not returned, and a throwing transform is not modelled. The same holds for Graphs.Graph.WithEdgeData and the Tree and DAG forms.
- Trees.Tree.RemoveNodeAndChildren: requires the node to exist. The library's `try!` on the sort of the subtree traps for a missing node, and a trap is not an error to model.
- GraphModel.GraphState: value equality also compares the backing (`isOrdered`). The library's `==` compares only the node and edge maps. Tree equality (root and store) is not modelled separately.
- PathSearch.PathExists: the `isSorted:` argument to the search is ignored. The search always examines the stored out-list.
- GraphModel.GraphState.NodeSuccessors: always returns a sorted list, also for an ordered store, as the library's `SortedSet` result is (Sources/Graph/Graph/Graph.swift:105-107). This departs from Tests/GraphTests/OrderedGraphTests.swift:12-57, whose `format()` reads `nodeSuccessors` of an ordered graph and expects the heads in out-list order. For the ordered backing that order is stated on the out-lists (`NodeOutEdges`, `NewEdgeAt`, `MoveEdgeAt`, `MoveEdgeTo`, `MoveEdgeToFront`, `MoveEdgeToBack`) and through `TreeViews.Children`, not on `NodeSuccessors`.
- DiffRoundTrip.DifferenceRoundTrip: equality of the whole store is proved for sorted stores. For ordered stores it proves equal node data and edge maps, because the rebuilt out-lists may be in another order.
- TreeApply.ApplyEditingOperations: the callback called after each step is not modelled. The suppliers of fresh ids and edge data are functions of the number of insertions made so far, not stateful closures.
- TreeViews.Children, TreeViews.IndexOf: the tree's `children(_:)` and `index(of:)` are called in Sources/Graph/Tree/EditableTree.swift (lines 70, 82-99) but not defined in the source files. The model defines them from those uses: the heads of the out-edges in out-list order, and a node's position among its parent's out-edges.
- TreeApply.InsertStep: the library calls `insertNode(_:before:edge:nodeData:edgeData:)` (Sources/Graph/Algorithms/TreeEditingDistance.swift:309), but the tree declares only `insertNode(_:at:edge:nodeData:edgeData:)` (Sources/Graph/Tree/EditableTree.swift:62-77). The model reads the call as that method: the fresh node goes above the indexed node and takes its place under the old parent, or becomes the new root.
- TreeApply.Step: an insertion step names its node by the position in the original tree's sorted node list. A node removed earlier in the script makes the step fail with `notFound`, as in the library.
- TreeEditing.EditingDistance: costs are `nat`, not `Double`. The trees are ordered labelled tree values (`LTree`), not built from a store by `AnnotatedTree`'s node-list numbering. Labels are looked up by post-order position.
- TreeEditing.EditingDistance: the triangle inequality and "a distance of zero means equal trees" are not proved. Each needs edit scripts composed or read back as node mappings, which this model does not define, and both fail for arbitrary costs (a free removal, for example). "Zero means equal" is proved only for trees of the same shape that differ in one node's data (`DistanceRelabel.DistanceOneLabel`). Symmetry is proved for symmetric costs, the default ones among them (`DistanceFacts.DistanceSymmetric`); for other costs it does not hold. The distance of the paper's example trees is a computation on one concrete input, not a property; it is not stated.
- The graph-level `data` payload, `isEmpty` and the node and edge counts: plain forwarding, no behaviour.
- `hasNode` and `hasEdge`: map membership, used directly.
- `description` strings, `Codable` support, DOT export and the older `WolfGraph` target.
- The viewable and editable protocol wrappers only forward calls; the model calls the concrete classes directly.
- Sources/Graph/Algorithms/TreeEdit.swift is commented out in full.
- Random trees and fresh-id generation used by the tests.
- `withSubtree` (Sources/Graph/Tree/EditableTree.swift:26) and `Compound.subtree` (Sources/Graph/Compound/Compound.swift:49): only declared or forwarded to `tree.subtree`, whose body is not part of this model.

## Findings

| source | as written | input that shows it | evidently intended | confidence | as-written member | corrected member |
|---|---|---|---|---|---|---|
| Sources/Graph/Tree/EditableTree.swift:52-55 | `newNode` adds the node, then the edge, with no check first | parent 2 missing from a one-node tree: the call fails with `notFound` but node 1 stays as an orphan; parent equal to the new node: the call passes with a self-loop | all checks before any change, as in the graph store | not executed | TreeEdits.NewNodeAsWritten, TreeEdits.NewNodeOrphan, TreeEdits.NewNodeSelfLoop | TreeEdits.AddLeaf, TreeEdits.AddLeafTree, Trees.Tree.NewNode |
| Sources/Graph/Tree/EditableTree.swift:57-60 | `newNode(at:)` adds the node, then the edge | parent 2 missing: fails with `notFound`, leaving node 1 as an orphan | all checks first | not executed | TreeEdits.NewNodeAtAsWritten, TreeEdits.NewNodeAtOrphan | TreeEdits.AddLeafAt, TreeEdits.AddLeafAtTree, Trees.Tree.NewNodeAt |
| Sources/Graph/Tree/EditableTree.swift:62-66 | `insertNode` at the root adds the node, then the edge | an edge id already taken: fails with `duplicate`, but the new node stays and the store is no longer a tree | all checks first | not executed | TreeEdits.InsertNodeAsWritten, TreeEdits.InsertRootOrphan | TreeEdits.Inserted, TreeEdits.InsertedAtRoot, Trees.Tree.InsertNode |
| Sources/Graph/Compound/Compound.swift:59-62 | `newNode` adds to the graph, then to the tree | a node with the tree root's id: the tree refuses it with `duplicate`, but the graph keeps it, breaking the compound invariant | check both sides first | not executed | Compounds.CompoundNewNodeAsWritten, Compounds.CompoundNewNodeRoot | Compounds.CompoundAddNode, Compounds.CompoundNewNodeAgrees, Compounds.Compound.NewNode |
| Sources/Graph/Algorithms/PathExists.swift:14-16 | `canMoveDAGEdge` leaves the moved edge out only of the search root's out-edges | edges 10: 1→2, 20: 2→3, 30: 3→4; moving 20 to 4→1 leaves the store acyclic, but the search from 1 follows 10 and 20 back to 4, so the move is refused | leave the moved edge out of the whole search | not executed | PathSearch.CanMoveDAGEdge, PathSearch.CanMoveDAGEdgeTooStrict | PathSearch.CanMoveDAGEdgeExact, PathSearch.MoveAllowedExact, DAGs.MoveGuardExact |
