/**
 * The compound graph: a graph store together with a tree that puts the
 * graph's nodes into a hierarchy. The tree has exactly the graph's nodes
 * plus its own root, which the graph does not have; the tree's nodes and
 * edges carry no data. Node edits go to both, moves of a node to the tree
 * alone, edge edits to the graph alone.
 */
module Compounds {
  import opened GraphErrors
  import opened ElementIDs
  import opened EdgeSets
  import opened GraphModel
  import opened Paths
  import opened Graphs
  import opened TreeShapes
  import opened TreeViews
  import opened TreeEdits
  import opened TreeUngroup
  import opened Trees

  /** The compound invariant on values: the graph has every node of the tree but its root, and no other. */
  ghost predicate CompoundShaped<ND, ED>(g: GraphState<ND, ED>, t: GraphState<(), ()>, root: NodeID) {
    root !in g.nodes && g.nodes.Keys == t.nodes.Keys - {root}
  }

  /** The node sets of the graph and of the tree without its root, as `init` compares them. */
  lemma CompoundShapedNonRoot<ND, ED>(g: GraphState<ND, ED>, t: GraphState<(), ()>, root: NodeID)
    ensures CompoundShaped(g, t, root) <==> root !in g.nodes && Elements(NonRootNodes(t, root)) == Elements(g.Nodes())
  {
  }

  /**
   * `newNode(_:data:parent:edge:)` as the library writes it: the graph's
   * `newNode`, then the tree's, each of them as written; when the tree
   * refuses, the node stays in the graph. The components are the outcome,
   * the graph and the tree afterwards.
   */
  ghost function CompoundNewNodeAsWritten<ND, ED>(g: GraphState<ND, ED>, t: GraphState<(), ()>, n: NodeID, d: ND, p: NodeID, e: EdgeID): (r: (Outcome, GraphState<ND, ED>, GraphState<(), ()>))
    requires g.Valid() && t.Valid()
    ensures r.1.Valid() && r.2.Valid()
    ensures r.0 == Pass ==> r.1.nodes.Keys == g.nodes.Keys + {n} && r.2.nodes.Keys == t.nodes.Keys + {n}
  {
    match g.NewNode(n, d)
    case Err(x) => (Fail(x), g, t)
    case Ok(g1) =>
      var (out, t1) := NewNodeAsWritten(t, n, p, e, (), ());
      (out, g1, t1)
  }

  /** The empty graph beside the one-node tree `RootOnly()`: a compound with nothing but a root. */
  ghost function EmptyGraph(): GraphState<int, int> {
    GraphState(false, map[], map[])
  }

  /** A tree of the single node 0. */
  ghost function RootOnly(): GraphState<(), ()> {
    GraphState(false, map[0 := Node((), [], [])], map[])
  }

  /**
   * Adding a node named like the tree's root: the graph, which lacks the
   * root, accepts it; the tree refuses it as a duplicate, and the graph now
   * holds the tree's root, which a compound may not.
   */
  lemma CompoundNewNodeRoot()
    ensures EmptyGraph().Valid() && RootOnly().Valid() && TreeShaped(RootOnly(), 0) && CompoundShaped(EmptyGraph(), RootOnly(), 0)
    ensures CompoundNewNodeAsWritten(EmptyGraph(), RootOnly(), 0, 0, 0, 10).0 == Fail(Duplicate)
    ensures !CompoundShaped(CompoundNewNodeAsWritten(EmptyGraph(), RootOnly(), 0, 0, 0, 10).1, CompoundNewNodeAsWritten(EmptyGraph(), RootOnly(), 0, 0, 0, 10).2, 0)
  {
    var g := EmptyGraph();
    var t := RootOnly();
    assert g.Valid();
    assert t.NodeValid(0);
    assert IsPath(t, {}, [], 0, 0);
    var g1 := g.NewNode(0, 0).value;
    assert 0 in g1.nodes;
    assert CompoundNewNodeAsWritten(g, t, 0, 0, 0, 10) == (Fail(Duplicate), g1, t);
  }

  /**
   * `newNode` made atomic: every check of both stores before either
   * changes. It succeeds exactly when the tree's checked `newNode` would,
   * and then both stores gain the node.
   */
  ghost function CompoundAddNode<ND, ED>(g: GraphState<ND, ED>, t: GraphState<(), ()>, root: NodeID, n: NodeID, d: ND, p: NodeID, e: EdgeID): (r: Result<(GraphState<ND, ED>, GraphState<(), ()>)>)
    requires g.Valid() && t.Valid() && CompoundShaped(g, t, root) && root in t.nodes
    ensures r.Err? <==> n in g.nodes || n == root || e in t.edges || p !in t.nodes
    ensures r.Err? ==> r.error == if n in g.nodes || n == root || e in t.edges then Duplicate else NotFound
    ensures r.Ok? ==> CompoundShaped(r.value.0, r.value.1, root)
  {
    match AddLeaf(t, n, p, e, (), ())
    case Err(x) => Err(x)
    case Ok(t1) => Ok((g.NewNode(n, d).value, t1))
  }

  /**
   * Where the atomic `newNode` succeeds, the library's does the same;
   * where it refuses, the library's either fails too or leaves a tree
   * that is no longer a tree (a self-loop on the new node).
   */
  lemma CompoundNewNodeAgrees<ND, ED>(g: GraphState<ND, ED>, t: GraphState<(), ()>, root: NodeID, n: NodeID, d: ND, p: NodeID, e: EdgeID)
    requires g.Valid() && t.Valid() && TreeShaped(t, root) && CompoundShaped(g, t, root) && root in t.nodes
    ensures CompoundAddNode(g, t, root, n, d, p, e).Ok? ==>
      CompoundNewNodeAsWritten(g, t, n, d, p, e) == (Pass, CompoundAddNode(g, t, root, n, d, p, e).value.0, CompoundAddNode(g, t, root, n, d, p, e).value.1)
    ensures CompoundAddNode(g, t, root, n, d, p, e).Err? ==>
      CompoundNewNodeAsWritten(g, t, n, d, p, e).0.Fail? || !TreeShaped(CompoundNewNodeAsWritten(g, t, n, d, p, e).2, root)
  {
    if n !in g.nodes {
      NewNodeAsWrittenAgrees(t, root, n, p, e, (), ());
    }
  }

  /** The call outcome `r` and the states of both stores are what `res` prescribes for a call made on `g0` and `t0`. */
  ghost predicate AppliesBoth<ND, ED>(res: Result<(GraphState<ND, ED>, GraphState<(), ()>)>, r: Outcome,
                                      g: GraphState<ND, ED>, t: GraphState<(), ()>, g0: GraphState<ND, ED>, t0: GraphState<(), ()>)
  {
    match res
    case Ok(v) => r == Pass && g == v.0 && t == v.1
    case Err(x) => r == Fail(x) && g == g0 && t == t0
  }

  class Compound<ND, ED> {
    const graph: Graph<ND, ED>
    const tree: Tree<(), ()>

    /** The graph store and the tree are separate objects, each valid, and together a compound. */
    ghost predicate Valid()
      reads this, graph, tree, tree.graph
    {
      && (graph as object) != (tree.graph as object)
      && graph.Valid() && tree.Valid()
      && CompoundShaped(graph.View(), tree.View(), tree.root)
    }

    /** `root`: the root of the tree. */
    function Root(): NodeID
      reads this, tree
    {
      tree.root
    }

    /** Wraps private copies of a graph and a tree that already form a compound. */
    constructor (g: GraphState<ND, ED>, t: GraphState<(), ()>, root: NodeID)
      requires g.Valid() && t.Valid() && TreeShaped(t, root) && CompoundShaped(g, t, root)
      ensures Valid() && graph.View() == g && tree.View() == t && Root() == root
      ensures fresh(graph) && fresh(tree) && fresh(tree.graph)
    {
      var store := new Graph(g.isOrdered);
      var copied := store.Adopt(Ok(g));
      graph := store;
      tree := new Tree.Unchecked(t, root);
    }

    /**
     * `newNode(_:data:parent:edge:)`, made atomic: a node the graph or
     * the tree already has, or an edge id the tree already has, is a
     * duplicate; a missing parent is not found; otherwise the node joins
     * the graph with its data and the tree as a leaf under `p`.
     */
    method NewNode(n: NodeID, d: ND, p: NodeID, e: EdgeID) returns (r: Outcome)
      requires Valid()
      modifies graph, tree.graph
      ensures Valid() && tree.root == old(tree.root)
      ensures AppliesBoth(CompoundAddNode(old(graph.View()), old(tree.View()), tree.root, n, d, p, e), r, graph.View(), tree.View(), old(graph.View()), old(tree.View()))
      ensures r == Pass ==> Parent(tree.View(), n) == Ok(Some(p)) && Children(tree.View(), n) == Ok([])
    {
      ghost var g, t0 := graph.View(), tree.View();
      r := tree.NewNode(n, p, e, (), ());
      if r.Fail? {
        return;
      }
      assert graph.View() == g && n !in g.nodes;
      ghost var t := tree.View();
      var added := graph.NewNode(n, d);
      assert tree.View() == t && graph.View() == g.NewNode(n, d).value;
      assert CompoundAddNode(g, t0, tree.root, n, d, p, e) == Ok((graph.View(), t));
    }

    /**
     * `removeNode(_:)`: the graph removes the node and its edges, then
     * the tree ungroups it, its children moving up to its parent. The
     * tree's root is not in the graph, so it is not found.
     */
    method RemoveNode(n: NodeID) returns (r: Outcome)
      requires Valid()
      modifies graph, tree, tree.graph
      ensures Valid() && tree.root == old(tree.root)
      ensures Applies(old(graph.View()).RemoveNode(n), r, graph.View(), old(graph.View()))
      ensures r == Pass ==> Ungrouped(old(tree.View()), old(tree.root), n).Ok? && tree.View() == Ungrouped(old(tree.View()), old(tree.root), n).value.0
      ensures r.Fail? ==> tree.View() == old(tree.View())
    {
      ghost var t := tree.View();
      r := graph.RemoveNode(n);
      if r.Fail? {
        return;
      }
      assert tree.View() == t && n in t.nodes && n != tree.root;
      var ungrouped := tree.RemoveNodeUngrouping(n);
      assert tree.View().nodes.Keys == t.nodes.Keys - {n};
    }

    /** `moveNode(_:newParent:)`: the tree's move; the graph is untouched. */
    method MoveNode(n: NodeID, p: NodeID) returns (r: Outcome)
      requires Valid()
      modifies tree.graph
      ensures Valid() && graph.View() == old(graph.View())
      ensures Applies(Moved(old(tree.View()), tree.root, n, p), r, tree.View(), old(tree.View()))
    {
      if n != tree.root && n in tree.graph.nodes {
        MovedKeepsNodes(tree.View(), tree.root, n, p);
      }
      r := tree.MoveNode(n, p);
    }

    /** `newEdge(_:tail:head:data:)`: the graph's; the tree is untouched. */
    method NewEdge(e: EdgeID, t: NodeID, h: NodeID, d: ED) returns (r: Outcome)
      requires Valid()
      modifies graph
      ensures Valid() && tree.View() == old(tree.View())
      ensures Applies(old(graph.View()).NewEdge(e, t, h, d), r, graph.View(), old(graph.View()))
    {
      r := graph.NewEdge(e, t, h, d);
    }

    /** `newEdge(_:tail:at:head:data:)`: the graph's; the tree is untouched. */
    method NewEdgeAt(e: EdgeID, t: NodeID, index: int, h: NodeID, d: ED) returns (r: Outcome)
      requires Valid()
      modifies graph
      ensures Valid() && tree.View() == old(tree.View())
      ensures Applies(old(graph.View()).NewEdgeAt(e, t, index, h, d), r, graph.View(), old(graph.View()))
    {
      r := graph.NewEdgeAt(e, t, index, h, d);
    }

    /** `removeEdge(_:)`: the graph's; the tree is untouched. */
    method RemoveEdge(e: EdgeID) returns (r: Outcome)
      requires Valid()
      modifies graph
      ensures Valid() && tree.View() == old(tree.View())
      ensures Applies(old(graph.View()).RemoveEdge(e), r, graph.View(), old(graph.View()))
    {
      r := graph.RemoveEdge(e);
    }

    /** `removeNodeEdges(_:)`: the graph's; the tree is untouched. */
    method RemoveNodeEdges(n: NodeID) returns (r: Outcome)
      requires Valid()
      modifies graph
      ensures Valid() && tree.View() == old(tree.View())
      ensures Applies(old(graph.View()).RemoveNodeEdges(n), r, graph.View(), old(graph.View()))
    {
      r := graph.RemoveNodeEdges(n);
    }

    /** `moveEdge(_:newTail:newHead:)`: the graph's; the tree is untouched. */
    method MoveEdge(e: EdgeID, t: NodeID, h: NodeID) returns (r: Outcome)
      requires Valid()
      modifies graph
      ensures Valid() && tree.View() == old(tree.View())
      ensures Applies(old(graph.View()).MoveEdge(e, t, h), r, graph.View(), old(graph.View()))
    {
      r := graph.MoveEdge(e, t, h);
    }

    /** `moveEdge(_:newTail:at:newHead:)`: the graph's; the tree is untouched. */
    method MoveEdgeAt(e: EdgeID, t: NodeID, index: int, h: NodeID) returns (r: Outcome)
      requires Valid()
      modifies graph
      ensures Valid() && tree.View() == old(tree.View())
      ensures Applies(old(graph.View()).MoveEdgeAt(e, t, index, h), r, graph.View(), old(graph.View()))
    {
      r := graph.MoveEdgeAt(e, t, index, h);
    }

    /** `moveEdge(_:to:)`: the graph's; the tree is untouched. */
    method MoveEdgeTo(e: EdgeID, index: int) returns (r: Outcome)
      requires Valid()
      modifies graph
      ensures Valid() && tree.View() == old(tree.View())
      ensures Applies(old(graph.View()).MoveEdgeTo(e, index), r, graph.View(), old(graph.View()))
    {
      r := graph.MoveEdgeTo(e, index);
    }

    /** `moveEdgeToFront(_:)`: the graph's; the tree is untouched. */
    method MoveEdgeToFront(e: EdgeID) returns (r: Outcome)
      requires Valid()
      modifies graph
      ensures Valid() && tree.View() == old(tree.View())
      ensures Applies(old(graph.View()).MoveEdgeToFront(e), r, graph.View(), old(graph.View()))
    {
      r := graph.MoveEdgeToFront(e);
    }

    /** `moveEdgeToBack(_:)`: the graph's; the tree is untouched. */
    method MoveEdgeToBack(e: EdgeID) returns (r: Outcome)
      requires Valid()
      modifies graph
      ensures Valid() && tree.View() == old(tree.View())
      ensures Applies(old(graph.View()).MoveEdgeToBack(e), r, graph.View(), old(graph.View()))
    {
      r := graph.MoveEdgeToBack(e);
    }
  }

  /** A move in the tree keeps its nodes. */
  lemma MovedKeepsNodes(t: GraphState<(), ()>, root: NodeID, n: NodeID, p: NodeID)
    requires t.Valid() && TreeShaped(t, root) && n in t.nodes && n != root
    ensures Moved(t, root, n, p).Ok? ==> Moved(t, root, n, p).value.nodes.Keys == t.nodes.Keys
  {
    if Moved(t, root, n, p).Ok? {
      MovedRehung(t, root, n, p);
    }
  }

  /**
   * `init(graph:tree:)`: a compound exactly when the graph lacks the tree's
   * root and has the tree's other nodes; otherwise `NotACompound`.
   */
  method MakeCompound<ND, ED>(g: GraphState<ND, ED>, t: GraphState<(), ()>, root: NodeID) returns (r: Result<Compound<ND, ED>>)
    requires g.Valid() && t.Valid() && TreeShaped(t, root)
    ensures r.Err? <==> !CompoundShaped(g, t, root)
    ensures r.Err? ==> r.error == NotACompound
    ensures r.Ok? ==> r.value.Valid() && r.value.graph.View() == g && r.value.tree.View() == t && r.value.Root() == root
    ensures r.Ok? ==> fresh(r.value) && fresh(r.value.graph) && fresh(r.value.tree) && fresh(r.value.tree.graph)
  {
    if root in g.nodes || g.nodes.Keys != t.nodes.Keys - {root} {
      return Err(NotACompound);
    }
    var c := new Compound(g, t, root);
    r := Ok(c);
  }
}
