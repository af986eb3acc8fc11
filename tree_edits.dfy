/**
 * The tree edits (`EditableTree`) on graph values: what each edit does to
 * the inner graph, and the lemmas that show the edits the tree performs
 * keep a tree, and that the moves it refuses would not have.
 */
module TreeEdits {
  import opened GraphErrors
  import opened ElementIDs
  import opened EdgeSets
  import opened GraphModel
  import opened Paths
  import opened TreeShapes
  import opened TreeViews

  // ------------------------------------------------------------------
  // newNode

  /**
   * `newNode(_:parent:edge:)` as the library writes it: the node is added,
   * then the edge; when the edge is refused the node stays behind.
   */
  ghost function NewNodeAsWritten<ND, ED>(g: GraphState<ND, ED>, n: NodeID, p: NodeID, e: EdgeID, nd: ND, ed: ED): (r: (Outcome, GraphState<ND, ED>))
    requires g.Valid()
    ensures r.1.Valid()
    ensures r.0.Fail? && n !in g.nodes ==> r.1.nodes.Keys == g.nodes.Keys + {n} && r.1.edges == g.edges
  {
    match g.NewNode(n, nd)
    case Err(x) => (Fail(x), g)
    case Ok(g1) =>
      match g1.NewEdge(e, p, n, ed)
      case Err(x) => (Fail(x), g1)
      case Ok(g2) => (Pass, g2)
  }

  /** The single-node tree used by the examples below. */
  ghost function Seed(): GraphState<int, int> {
    GraphState(false, map[0 := Node(0, [], [])], map[])
  }

  lemma SeedTree()
    ensures Seed().Valid() && TreeShaped(Seed(), 0)
  {
    var g := Seed();
    assert g.NodeValid(0);
    assert IsPath(g, {}, [], 0, 0);
  }

  /** A node nothing enters is not part of a tree rooted elsewhere. */
  lemma Unreached<ND, ED>(g: GraphState<ND, ED>, root: NodeID, n: NodeID)
    requires g.Valid() && n in g.nodes && n != root
    requires forall x | x in g.edges :: g.edges[x].head != n || g.edges[x].tail == n
    ensures !TreeShaped(g, root)
  {
    if TreeShaped(g, root) {
      var p :| IsPath(g, {}, p, root, n);
      var s := set m | m in g.nodes && m != n;
      assert root in s;
      ClosedPath(g, {}, s, p, root, n);
      assert false;
    }
  }

  /** A parent that does not exist: the call fails, and the new node is left behind without a parent. */
  lemma NewNodeOrphan()
    ensures Seed().Valid() && TreeShaped(Seed(), 0)
    ensures NewNodeAsWritten(Seed(), 1, 2, 10, 0, 0).0 == Fail(NotFound)
    ensures !TreeShaped(NewNodeAsWritten(Seed(), 1, 2, 10, 0, 0).1, 0)
  {
    SeedTree();
    var g := Seed();
    var g1 := g.NewNode(1, 0).value;
    var r := NewNodeAsWritten(g, 1, 2, 10, 0, 0);
    assert r == (Fail(NotFound), g1);
    Unreached(g1, 0, 1);
  }

  /** A node named as its own parent: the call succeeds and the node hangs on a self-loop. */
  lemma NewNodeSelfLoop()
    ensures Seed().Valid() && TreeShaped(Seed(), 0)
    ensures NewNodeAsWritten(Seed(), 1, 1, 10, 0, 0).0 == Pass
    ensures !TreeShaped(NewNodeAsWritten(Seed(), 1, 1, 10, 0, 0).1, 0)
  {
    SeedTree();
    var g := Seed();
    var g1 := g.NewNode(1, 0).value;
    var g2 := g1.NewEdge(10, 1, 1, 0).value;
    assert NewNodeAsWritten(g, 1, 1, 10, 0, 0) == (Pass, g2);
    Unreached(g2, 0, 1);
  }

  /**
   * `newNode(_:parent:edge:at:)` as the library writes it: the node, then
   * the edge at `index`; when the edge is refused the node stays behind.
   */
  ghost function NewNodeAtAsWritten<ND, ED>(g: GraphState<ND, ED>, n: NodeID, p: NodeID, e: EdgeID, index: int, nd: ND, ed: ED): (r: (Outcome, GraphState<ND, ED>))
    requires g.Valid()
    ensures r.1.Valid()
    ensures r.0.Fail? && n !in g.nodes ==> r.1.nodes.Keys == g.nodes.Keys + {n} && r.1.edges == g.edges
  {
    match g.NewNode(n, nd)
    case Err(x) => (Fail(x), g)
    case Ok(g1) =>
      match g1.NewEdgeAt(e, p, index, n, ed)
      case Err(x) => (Fail(x), g1)
      case Ok(g2) => (Pass, g2)
  }

  /** The positional form fails the same way: a missing parent leaves the new node without one. */
  lemma NewNodeAtOrphan()
    ensures Seed().Valid() && TreeShaped(Seed(), 0)
    ensures NewNodeAtAsWritten(Seed(), 1, 2, 10, 0, 0, 0).0 == Fail(NotFound)
    ensures !TreeShaped(NewNodeAtAsWritten(Seed(), 1, 2, 10, 0, 0, 0).1, 0)
  {
    SeedTree();
    var g := Seed();
    var g1 := g.NewNode(1, 0).value;
    var r := NewNodeAtAsWritten(g, 1, 2, 10, 0, 0, 0);
    assert r == (Fail(NotFound), g1);
    Unreached(g1, 0, 1);
  }

  /**
   * `newNode(_:parent:edge:)` with every check made before the graph
   * changes: a taken node id or edge id is a duplicate, a missing parent
   * is not found, and only then are the node and its edge added.
   */
  ghost function AddLeaf<ND, ED>(g: GraphState<ND, ED>, n: NodeID, p: NodeID, e: EdgeID, nd: ND, ed: ED): (r: Result<GraphState<ND, ED>>)
    requires g.Valid()
    ensures r.Err? <==> n in g.nodes || e in g.edges || p !in g.nodes
    ensures r.Err? ==> r.error == if n in g.nodes || e in g.edges then Duplicate else NotFound
  {
    if n in g.nodes || e in g.edges then Err(Duplicate)
    else if p !in g.nodes then Err(NotFound)
    else g.NewNode(n, nd).value.NewEdge(e, p, n, ed)
  }

  /** Where the library's `newNode` leaves a tree, the checked one does the same. */
  lemma NewNodeAsWrittenAgrees<ND, ED>(g: GraphState<ND, ED>, root: NodeID, n: NodeID, p: NodeID, e: EdgeID, nd: ND, ed: ED)
    requires g.Valid() && TreeShaped(g, root)
    ensures AddLeaf(g, n, p, e, nd, ed).Ok? ==> NewNodeAsWritten(g, n, p, e, nd, ed) == (Pass, AddLeaf(g, n, p, e, nd, ed).value)
    ensures TreeShaped(NewNodeAsWritten(g, n, p, e, nd, ed).1, root) ==>
      NewNodeAsWritten(g, n, p, e, nd, ed) == (if AddLeaf(g, n, p, e, nd, ed).Ok? then (Pass, AddLeaf(g, n, p, e, nd, ed).value) else (Fail(Duplicate), g))
  {
    var w := NewNodeAsWritten(g, n, p, e, nd, ed);
    if n !in g.nodes && TreeShaped(w.1, root) {
      var g1 := g.NewNode(n, nd).value;
      if e in g.edges || p !in g.nodes {
        if e !in g.edges && p == n {
          Unreached(g1.NewEdge(e, p, n, ed).value, root, n);
        } else {
          Unreached(g1, root, n);
        }
        assert false;
      }
    }
  }

  /** One more node and one more edge, stated as map updates. */
  lemma OneMore<ND, ED>(g: GraphState<ND, ED>, g2: GraphState<ND, ED>, n: NodeID, e: EdgeID, t: NodeID, h: NodeID, ed: ED)
    requires g2.nodes.Keys == g.nodes.Keys + {n} && e !in g.edges && g2.edges == g.edges[e := Edge(t, h, ed)]
    ensures Extends(g, g2, n, e, t, h)
  {
  }

  /** A fresh node added under an existing parent is a childless child of that parent in a tree. */
  lemma NewLeafView<ND, ED>(g: GraphState<ND, ED>, g2: GraphState<ND, ED>, root: NodeID, n: NodeID, p: NodeID, e: EdgeID)
    requires g.Valid() && TreeShaped(g, root) && g2.Valid()
    requires n !in g.nodes && p in g.nodes && e !in g.edges && Extends(g, g2, n, e, p, n)
    ensures TreeShaped(g2, root) && Parent(g2, n) == Ok(Some(p)) && Children(g2, n) == Ok([])
  {
    TreeAddLeaf(g, g2, root, n, p, e);
    assert e in g2.EdgesInto(n);
    forall x | x in g2.EdgesInto(n) ensures x == e {
      if x != e {
        g.HeadHasEdge(x);
      }
    }
    assert g2.nodes[n].outEdges == [] by {
      assert g2.NodeValid(n);
      forall x | x in g2.edges ensures g2.edges[x].tail != n {
        if x != e {
          g.TailHasEdge(x);
        }
      }
      EmptyElements(g2.nodes[n].outEdges);
    }
  }

  /** The checked `newNode` makes the new node a childless child of the parent and keeps a tree. */
  lemma AddLeafTree<ND, ED>(g: GraphState<ND, ED>, root: NodeID, n: NodeID, p: NodeID, e: EdgeID, nd: ND, ed: ED)
    requires g.Valid() && TreeShaped(g, root) && AddLeaf(g, n, p, e, nd, ed).Ok?
    ensures var g2 := AddLeaf(g, n, p, e, nd, ed).value;
      && g2.Valid() && TreeShaped(g2, root)
      && g2.nodes.Keys == g.nodes.Keys + {n} && g2.NodeData(n) == Ok(nd)
      && g2.edges == g.edges[e := Edge(p, n, ed)]
      && Parent(g2, n) == Ok(Some(p)) && Children(g2, n) == Ok([])
  {
    var g1 := g.NewNode(n, nd).value;
    var g2 := g1.NewEdge(e, p, n, ed).value;
    assert g2 == AddLeaf(g, n, p, e, nd, ed).value;
    OneMore(g, g2, n, e, p, n, ed);
    NewLeafView(g, g2, root, n, p, e);
  }

  /** `newNode(_:parent:edge:at:)` with every check made first; the position rules are the graph's. */
  ghost function AddLeafAt<ND, ED>(g: GraphState<ND, ED>, n: NodeID, p: NodeID, e: EdgeID, index: int, nd: ND, ed: ED): (r: Result<GraphState<ND, ED>>)
    requires g.Valid()
    ensures n in g.nodes || e in g.edges ==> r == Err(Duplicate)
    ensures n !in g.nodes && e !in g.edges && p !in g.nodes ==> r == Err(NotFound)
    ensures n !in g.nodes && e !in g.edges && p in g.nodes ==>
      (r.Err? <==> !g.isOrdered || !(0 <= index <= |g.nodes[p].outEdges|))
  {
    if n in g.nodes || e in g.edges then Err(Duplicate)
    else if p !in g.nodes then Err(NotFound)
    else
      var g1 := g.NewNode(n, nd).value;
      assert g1.nodes[p] == g.nodes[p];
      g1.NewEdgeAt(e, p, index, n, ed)
  }

  /** The checked `newNode(at:)` adds a childless child whose edge sits at `index` among the parent's out-edges. */
  lemma AddLeafAtTree<ND, ED>(g: GraphState<ND, ED>, root: NodeID, n: NodeID, p: NodeID, e: EdgeID, index: int, nd: ND, ed: ED)
    requires g.Valid() && TreeShaped(g, root) && AddLeafAt(g, n, p, e, index, nd, ed).Ok?
    ensures var g2 := AddLeafAt(g, n, p, e, index, nd, ed).value;
      && g2.Valid() && TreeShaped(g2, root)
      && g2.nodes.Keys == g.nodes.Keys + {n} && g2.NodeData(n) == Ok(nd)
      && g2.edges == g.edges[e := Edge(p, n, ed)]
      && Parent(g2, n) == Ok(Some(p)) && Children(g2, n) == Ok([])
      && OrderedInsertAt(g.nodes[p].outEdges, e, index) == Ok(g2.nodes[p].outEdges)
  {
    var g1 := g.NewNode(n, nd).value;
    assert g1.nodes[p] == g.nodes[p];
    var g2 := g1.NewEdgeAt(e, p, index, n, ed).value;
    assert g2 == AddLeafAt(g, n, p, e, index, nd, ed).value;
    OneMore(g, g2, n, e, p, n, ed);
    NewLeafView(g, g2, root, n, p, e);
  }

  // ------------------------------------------------------------------
  // insertNode at the root

  /**
   * The root branch of `insertNode(_:at:edge:)` with every check made
   * first: a fresh node `x` with an edge from `x` to the old root.
   */
  ghost function AddRoot<ND, ED>(g: GraphState<ND, ED>, x: NodeID, root: NodeID, e: EdgeID, nd: ND, ed: ED): (r: Result<GraphState<ND, ED>>)
    requires g.Valid() && root in g.nodes
    ensures r.Err? <==> x in g.nodes || e in g.edges
    ensures r.Err? ==> r.error == Duplicate
  {
    if x in g.nodes || e in g.edges then Err(Duplicate)
    else g.NewNode(x, nd).value.NewEdge(e, x, root, ed)
  }

  /** A sequence without repeats holding one id is that id alone. */
  lemma SingleElement(s: seq<int>, x: int)
    requires Distinct(s) && Elements(s) == {x}
    ensures s == [x]
  {
    assert s[0] in Elements(s);
    var t := s[1..];
    forall y | y in Elements(t) ensures y in Elements(s) && y != s[0] {
      var i :| 0 <= i < |t| && t[i] == y;
      assert s[i + 1] == y;
    }
    EmptyElements(t);
    assert s == [s[0]] + t;
  }

  /** A fresh node whose only out-edge is the new edge lists exactly that edge. */
  lemma SoleOutEdge<ND, ED>(g: GraphState<ND, ED>, g2: GraphState<ND, ED>, x: NodeID, e: EdgeID, h: NodeID)
    requires g.Valid() && g2.Valid() && Extends(g, g2, x, e, x, h) && x !in g.nodes && e !in g.edges
    ensures g2.nodes[x].outEdges == [e]
  {
    assert g2.NodeValid(x);
    forall y | y in g2.edges && g2.edges[y].tail == x ensures y == e {
      if y != e {
        g.TailHasEdge(y);
      }
    }
    var out := g2.nodes[x].outEdges;
    if !g2.isOrdered {
      IncreasingIsDistinct(out);
    }
    SingleElement(out, e);
  }

  /** The new node becomes the root of a tree whose only child is the old root. */
  lemma AddRootTree<ND, ED>(g: GraphState<ND, ED>, root: NodeID, x: NodeID, e: EdgeID, nd: ND, ed: ED)
    requires g.Valid() && TreeShaped(g, root) && AddRoot(g, x, root, e, nd, ed).Ok?
    ensures var g2 := AddRoot(g, x, root, e, nd, ed).value;
      && g2.Valid() && TreeShaped(g2, x)
      && g2.nodes.Keys == g.nodes.Keys + {x} && g2.NodeData(x) == Ok(nd)
      && g2.edges == g.edges[e := Edge(x, root, ed)]
      && Parent(g2, x) == Ok(None) && Parent(g2, root) == Ok(Some(x)) && Children(g2, x) == Ok([root])
  {
    var g1 := g.NewNode(x, nd).value;
    var g2 := g1.NewEdge(e, x, root, ed).value;
    assert g2 == AddRoot(g, x, root, e, nd, ed).value;
    OneMore(g, g2, x, e, x, root, ed);
    TreeNewRoot(g, g2, root, x, e);
    TreeParent(g2, x, x);
    TreeParent(g2, x, root);
    assert e in g2.EdgesInto(root);
    SoleOutEdge(g, g2, x, e, root);
    assert g2.Heads([e]) == [root];
  }

  // ------------------------------------------------------------------
  // moveNode

  /** In a tree the guard `canMoveDAGEdge` puts on `moveNode` searches with nothing excluded: the in-edge of a node never leaves it. */
  lemma TreeMoveGuard<ND, ED>(g: GraphState<ND, ED>, root: NodeID, n: NodeID)
    requires g.Valid() && TreeShaped(g, root) && n in g.nodes && n != root
    ensures InEdge(g, n).value.Some? && RootBan(g, InEdge(g, n).value, n) == {}
  {
    TreeParent(g, root, n);
    var e := InEdge(g, n).value.value;
    assert e in g.EdgesInto(n);
    if g.edges[e].tail == n {
      ReachRefl(g, {}, n);
      AncestorUnreachable(g, root, e, n);
      assert false;
    }
  }

  /** In a tree, a path from a node never uses the edge entering it. */
  lemma AvoidsInEdge<ND, ED>(g: GraphState<ND, ED>, root: NodeID, n: NodeID, e: EdgeID, m: NodeID)
    requires g.Valid() && TreeShaped(g, root) && e in g.edges && g.edges[e].head == n
    requires Reach(g, {}, n, m)
    ensures Reach(g, {e}, n, m)
  {
    var q :| IsPath(g, {}, q, n, m);
    if e in q {
      CutFirst(g, {}, q, n, m, e);
      ReachWiden(g, {} + {e}, {}, n, g.edges[e].tail);
      ReachRefl(g, {}, g.edges[e].tail);
      AncestorUnreachable(g, root, e, g.edges[e].tail);
      assert false;
    }
    PathAvoid(g, {}, q, n, m, e);
    assert {} + {e} == {e};
  }

  /**
   * Re-pointing the in-edge `e` of a non-root node `n` to come from `p`
   * leaves a tree exactly when `p` is outside the subtree of `n`, and then
   * `p` is the parent of `n`.
   */
  lemma Repointed<ND, ED>(g: GraphState<ND, ED>, g2: GraphState<ND, ED>, root: NodeID, n: NodeID, p: NodeID, e: EdgeID)
    requires g.Valid() && TreeShaped(g, root) && n in g.nodes && n != root && p in g.nodes
    requires e in g.edges && g.edges[e].head == n
    requires g2.Valid() && g2.nodes.Keys == g.nodes.Keys && g2.edges == g.edges[e := Edge(p, n, g.edges[e].data)]
    ensures TreeShaped(g2, root) <==> !Reach(g, {}, n, p)
    ensures !Reach(g, {}, n, p) ==> Parent(g2, n) == Ok(Some(p))
  {
    assert AgreeOff(g, g2, e);
    if Reach(g, {}, n, p) {
      TreeAcyclic(g, root);
      AvoidsInEdge(g, root, n, e, p);
      RepointCycle(g, g2, e);
      if TreeShaped(g2, root) {
        TreeAcyclic(g2, root);
        assert false;
      }
    } else {
      TreeMoveSubtree(g, g2, root, e, p);
      assert e in g2.EdgesInto(n);
      InEdgeLeast(g2, n);
    }
  }

  /** `moveNode`'s graph step: the node's in-edge re-pointed to come from the new parent. */
  ghost function Reparent<ND, ED>(g: GraphState<ND, ED>, n: NodeID, p: NodeID): (r: Result<GraphState<ND, ED>>)
    requires g.Valid() && InEdge(g, n).Ok? && InEdge(g, n).value.Some?
    ensures r.Err? <==> p !in g.nodes
  {
    InEdgeLeast(g, n);
    g.MoveEdge(InEdge(g, n).value.value, p, n)
  }

  /** `moveNode(_:newParent:)` keeps a tree exactly when the new parent is outside the moved subtree. */
  lemma ReparentTree<ND, ED>(g: GraphState<ND, ED>, root: NodeID, n: NodeID, p: NodeID)
    requires g.Valid() && TreeShaped(g, root) && n in g.nodes && n != root && p in g.nodes
    ensures InEdge(g, n).value.Some? && Reparent(g, n, p).Ok?
    ensures var g2 := Reparent(g, n, p).value;
      && (TreeShaped(g2, root) <==> !Reach(g, {}, n, p))
      && g2.nodes.Keys == g.nodes.Keys
      && (!Reach(g, {}, n, p) ==> Parent(g2, n) == Ok(Some(p)))
  {
    TreeParent(g, root, n);
    var e := InEdge(g, n).value.value;
    assert e in g.EdgesInto(n);
    Repointed(g, Reparent(g, n, p).value, root, n, p, e);
  }

  /** `moveNode(_:newParent:at:)`'s graph step. */
  ghost function ReparentAt<ND, ED>(g: GraphState<ND, ED>, n: NodeID, p: NodeID, index: int): (r: Result<GraphState<ND, ED>>)
    requires g.Valid() && InEdge(g, n).Ok? && InEdge(g, n).value.Some?
    ensures p !in g.nodes ==> r == Err(NotFound)
    ensures p in g.nodes && !g.isOrdered ==> r == Err(NotOrdered)
  {
    InEdgeLeast(g, n);
    g.MoveEdgeAt(InEdge(g, n).value.value, p, index, n)
  }

  /** `moveNode(_:newParent:at:)`, when the graph accepts the position, keeps a tree exactly when the new parent is outside the moved subtree. */
  lemma ReparentAtTree<ND, ED>(g: GraphState<ND, ED>, root: NodeID, n: NodeID, p: NodeID, index: int)
    requires g.Valid() && TreeShaped(g, root) && n in g.nodes && n != root && p in g.nodes
    ensures InEdge(g, n).value.Some?
    ensures ReparentAt(g, n, p, index).Ok? ==> var g2 := ReparentAt(g, n, p, index).value;
      && (TreeShaped(g2, root) <==> !Reach(g, {}, n, p))
      && g2.nodes.Keys == g.nodes.Keys
      && (!Reach(g, {}, n, p) ==> Parent(g2, n) == Ok(Some(p)))
      && FirstIndex(g2.nodes[p].outEdges, InEdge(g, n).value.value) == Ok(index)
  {
    TreeParent(g, root, n);
    var e := InEdge(g, n).value.value;
    assert e in g.EdgesInto(n);
    if ReparentAt(g, n, p, index).Ok? {
      Repointed(g, ReparentAt(g, n, p, index).value, root, n, p, e);
    }
  }

  /**
   * `g2` is the tree `g` with the in-edge of `n` re-pointed to leave `p`:
   * same nodes and data, only that edge's tail changed, `p` now the parent
   * of `n`, and only the out-lists of the old and new parent touched.
   */
  ghost predicate Rehung<ND, ED>(g: GraphState<ND, ED>, g2: GraphState<ND, ED>, root: NodeID, n: NodeID, p: NodeID)
    requires g.Valid() && n in g.nodes && InEdge(g, n).value.Some?
  {
    var e := InEdge(g, n).value.value;
    && e in g.edges && g2.Valid() && TreeShaped(g2, root) && g.SameNodesAs(g2)
    && g2.edges == g.edges[e := Edge(p, n, g.edges[e].data)]
    && Parent(g2, n) == Ok(Some(p))
    && (forall m | m in g.nodes && m != p && m != g.edges[e].tail :: g2.nodes[m].outEdges == g.nodes[m].outEdges)
    && (g.edges[e].tail != p ==> g2.nodes[g.edges[e].tail].outEdges == Without(g.nodes[g.edges[e].tail].outEdges, e))
  }

  /**
   * `moveNode(_:newParent:)`: the root cannot move; a missing node is not
   * found; a new parent inside the node's own subtree, the node itself
   * included, is refused as not a tree; a missing new parent is not found.
   * Otherwise the node's in-edge alone is re-pointed and the tree keeps its root.
   */
  ghost function Moved<ND, ED>(g: GraphState<ND, ED>, root: NodeID, n: NodeID, p: NodeID): (r: Result<GraphState<ND, ED>>)
    requires g.Valid() && TreeShaped(g, root)
    ensures n == root ==> r == Err(NotATree)
    ensures n != root && n !in g.nodes ==> r == Err(NotFound)
    ensures n != root && n in g.nodes && Reach(g, {}, n, p) ==> r == Err(NotATree)
    ensures n != root && n in g.nodes && !Reach(g, {}, n, p) ==> (r.Ok? <==> p in g.nodes)
    ensures r.Err? && n != root && n in g.nodes && !Reach(g, {}, n, p) ==> r.error == NotFound
  {
    if n == root then Err(NotATree)
    else if n !in g.nodes then Err(NotFound)
    else if Reach(g, {}, n, p) then Err(NotATree)
    else
      TreeParent(g, root, n);
      InEdgeLeast(g, n);
      if p in g.nodes then
        ReparentTree(g, root, n, p);
        Reparent(g, n, p)
      else Reparent(g, n, p)
  }

  /**
   * `moveNode(_:newParent:at:)`: the checks of `moveNode(_:newParent:)`,
   * then the graph's rules for a position: an unordered graph refuses it,
   * and the index must fall within the new parent's out-edges counted
   * with the moved edge. The moved edge then sits at `index`.
   */
  ghost function MovedAt<ND, ED>(g: GraphState<ND, ED>, root: NodeID, n: NodeID, p: NodeID, index: int): (r: Result<GraphState<ND, ED>>)
    requires g.Valid() && TreeShaped(g, root)
    ensures n == root ==> r == Err(NotATree)
    ensures n != root && n !in g.nodes ==> r == Err(NotFound)
    ensures n != root && n in g.nodes && Reach(g, {}, n, p) ==> r == Err(NotATree)
    ensures n != root && n in g.nodes && !Reach(g, {}, n, p) && p !in g.nodes ==> r == Err(NotFound)
    ensures n != root && n in g.nodes && !Reach(g, {}, n, p) && p in g.nodes && !g.isOrdered ==> r == Err(NotOrdered)
    ensures n != root && n in g.nodes && !Reach(g, {}, n, p) && p in g.nodes && g.isOrdered ==>
      (r.Ok? <==> 0 <= index < |g.nodes[p].outEdges| + (if Parent(g, n) == Ok(Some(p)) then 0 else 1))
    ensures n != root && n in g.nodes && !Reach(g, {}, n, p) && p in g.nodes && g.isOrdered && r.Err? ==> r.error == InvalidIndex
  {
    if n == root then Err(NotATree)
    else if n !in g.nodes then Err(NotFound)
    else if Reach(g, {}, n, p) then Err(NotATree)
    else
      TreeParent(g, root, n);
      InEdgeLeast(g, n);
      if p in g.nodes then
        ReparentAtTree(g, root, n, p, index);
        ReparentAt(g, n, p, index)
      else ReparentAt(g, n, p, index)
  }

  /** A successful move re-points the in-edge of `n` to leave `p`, and the store stays a tree. */
  lemma MovedRehung<ND, ED>(g: GraphState<ND, ED>, root: NodeID, n: NodeID, p: NodeID)
    requires g.Valid() && TreeShaped(g, root) && Moved(g, root, n, p).Ok?
    ensures n in g.nodes && InEdge(g, n).value.Some? && Rehung(g, Moved(g, root, n, p).value, root, n, p)
  {
    TreeParent(g, root, n);
    InEdgeLeast(g, n);
    ReparentTree(g, root, n, p);
  }

  /** A successful move to a position does the same, and the moved edge lands at that position. */
  lemma MovedAtRehung<ND, ED>(g: GraphState<ND, ED>, root: NodeID, n: NodeID, p: NodeID, index: int)
    requires g.Valid() && TreeShaped(g, root) && MovedAt(g, root, n, p, index).Ok?
    ensures n in g.nodes && InEdge(g, n).value.Some? && Rehung(g, MovedAt(g, root, n, p, index).value, root, n, p)
    ensures var e := InEdge(g, n).value.value;
      && FirstIndex(MovedAt(g, root, n, p, index).value.nodes[p].outEdges, e) == Ok(index)
      && Without(MovedAt(g, root, n, p, index).value.nodes[p].outEdges, e) == Without(g.nodes[p].outEdges, e)
  {
    TreeParent(g, root, n);
    InEdgeLeast(g, n);
    ReparentAtTree(g, root, n, p, index);
  }

  // ------------------------------------------------------------------
  // insertNode below the root

  /** In a tree a node never reaches its own parent. */
  lemma ParentUnreachable<ND, ED>(g: GraphState<ND, ED>, root: NodeID, y: NodeID, p: NodeID)
    requires g.Valid() && TreeShaped(g, root) && y in g.nodes && Parent(g, y) == Ok(Some(p))
    ensures !Reach(g, {}, y, p)
  {
    InEdgeLeast(g, y);
    var e := InEdge(g, y).value.value;
    assert e in g.EdgesInto(y);
    ReachRefl(g, {}, p);
    AncestorUnreachable(g, root, e, p);
  }

  /** In a tree every path reaching a node from elsewhere passes through its parent. */
  lemma ThroughParent<ND, ED>(g: GraphState<ND, ED>, root: NodeID, y: NodeID, x: NodeID, p: NodeID)
    requires g.Valid() && TreeShaped(g, root) && x in g.nodes && Parent(g, x) == Ok(Some(p))
    requires y != x && Reach(g, {}, y, x)
    ensures Reach(g, {}, y, p)
  {
    var q :| IsPath(g, {}, q, y, x);
    assert q != [];
    PathInit(g, {}, q, y, x);
    TreeParent(g, root, x);
    assert q[|q| - 1] in g.EdgesInto(x);
  }

  /** A node whose entering edges are the same in two stores has the same in-edge and parent in both. */
  lemma SameParent<ND, ED>(g: GraphState<ND, ED>, g2: GraphState<ND, ED>, m: NodeID)
    requires g.Valid() && g2.Valid() && m in g.nodes && m in g2.nodes
    requires g2.EdgesInto(m) == g.EdgesInto(m)
    requires forall x | x in g.EdgesInto(m) :: g2.edges[x] == g.edges[x]
    ensures InEdge(g2, m) == InEdge(g, m) && Parent(g2, m) == Parent(g, m)
  {
    assert g.NodeValid(m) && g2.NodeValid(m);
    IncreasingUnique(g.nodes[m].inEdges, g2.nodes[m].inEdges);
    InEdgeLeast(g, m);
    InEdgeLeast(g2, m);
  }

  /** A node left with a single out-edge lists it alone, and its one child is that edge's head. */
  lemma SoleOut<ND, ED>(g: GraphState<ND, ED>, x: NodeID, f: EdgeID)
    requires g.Valid() && x in g.nodes && f in g.edges && g.edges[f].tail == x
    requires forall y | y in g.edges && g.edges[y].tail == x :: y == f
    ensures g.nodes[x].outEdges == [f] && Children(g, x) == Ok([g.edges[f].head])
  {
    assert g.NodeValid(x);
    var out := g.nodes[x].outEdges;
    if !g.isOrdered {
      IncreasingIsDistinct(out);
    }
    forall z | z in g.EdgesFrom(x) ensures z == f {
    }
    assert f in g.EdgesFrom(x);
    assert g.EdgesFrom(x) == {f};
    SingleElement(out, f);
    assert g.Heads([f]) == [g.edges[f].head];
  }

  /**
   * The first step of `insertNode` below the root: the fresh node `x` added
   * as a leaf of the parent of `y`, at the position of `y` when the graph
   * is ordered.
   */
  ghost function LeafBeside<ND, ED>(g: GraphState<ND, ED>, root: NodeID, x: NodeID, y: NodeID, e: EdgeID, nd: ND, ed: ED): (r: Result<GraphState<ND, ED>>)
    requires g.Valid() && TreeShaped(g, root) && y in g.nodes && y != root
    ensures r.Ok? <==> x !in g.nodes && e !in g.edges
    ensures r.Err? ==> r.error == Duplicate
  {
    TreeParent(g, root, y);
    var p := Parent(g, y).value.value;
    if g.isOrdered then AddLeafAt(g, x, p, e, IndexOf(g, y).value.value, nd, ed)
    else AddLeaf(g, x, p, e, nd, ed)
  }

  /** After that step `x` is a childless child of the parent `p` of `y`, and the tree keeps its root. */
  lemma LeafBesideTree<ND, ED>(g: GraphState<ND, ED>, root: NodeID, x: NodeID, y: NodeID, e: EdgeID, nd: ND, ed: ED)
    requires g.Valid() && TreeShaped(g, root) && y in g.nodes && y != root
    requires LeafBeside(g, root, x, y, e, nd, ed).Ok?
    ensures Parent(g, y) != Ok(None) && IndexOf(g, y).value.Some?
    ensures var g1 := LeafBeside(g, root, x, y, e, nd, ed).value;
      var p := Parent(g, y).value.value;
      && g1.Valid() && TreeShaped(g1, root) && x !in g.nodes && e !in g.edges && p in g.nodes
      && g1.nodes.Keys == g.nodes.Keys + {x} && g1.NodeData(x) == Ok(nd)
      && g1.edges == g.edges[e := Edge(p, x, ed)]
      && Parent(g1, x) == Ok(Some(p)) && Children(g1, x) == Ok([])
  {
    TreeParent(g, root, y);
    var p := Parent(g, y).value.value;
    if g.isOrdered {
      AddLeafAtTree(g, root, x, p, e, IndexOf(g, y).value.value, nd, ed);
    } else {
      AddLeafTree(g, root, x, p, e, nd, ed);
    }
  }

  /** A fresh leaf `x` added beside `y` leaves the in-edge and parent of `y` alone, and `y` cannot reach `x`. */
  lemma SiblingUnreachable<ND, ED>(g: GraphState<ND, ED>, g1: GraphState<ND, ED>, root: NodeID, x: NodeID, y: NodeID, p: NodeID, e: EdgeID, ed: ED)
    requires g.Valid() && y in g.nodes && Parent(g, y) == Ok(Some(p)) && x !in g.nodes && e !in g.edges
    requires g1.Valid() && TreeShaped(g1, root) && g1.nodes.Keys == g.nodes.Keys + {x}
    requires g1.edges == g.edges[e := Edge(p, x, ed)] && Parent(g1, x) == Ok(Some(p))
    ensures InEdge(g1, y) == InEdge(g, y) && Parent(g1, y) == Ok(Some(p)) && !Reach(g1, {}, y, x)
  {
    assert g1.EdgesInto(y) == g.EdgesInto(y);
    SameParent(g, g1, y);
    if Reach(g1, {}, y, x) {
      ThroughParent(g1, root, y, x, p);
      ParentUnreachable(g1, root, y, p);
    }
  }

  /** In an ordered graph that step puts the edge of `x` just before the edge of `y`. */
  lemma LeafBesideOrder<ND, ED>(g: GraphState<ND, ED>, root: NodeID, x: NodeID, y: NodeID, e: EdgeID, nd: ND, ed: ED)
    requires g.Valid() && TreeShaped(g, root) && y in g.nodes && y != root && g.isOrdered
    requires LeafBeside(g, root, x, y, e, nd, ed).Ok?
    ensures Parent(g, y) != Ok(None) && IndexOf(g, y).value.Some?
    ensures var g1 := LeafBeside(g, root, x, y, e, nd, ed).value;
      var p := Parent(g, y).value.value;
      var i := IndexOf(g, y).value.value;
      && p in g.nodes && p in g1.nodes && i < |g.nodes[p].outEdges|
      && g1.nodes[p].outEdges == g.nodes[p].outEdges[..i] + [e] + g.nodes[p].outEdges[i..]
      && Distinct(g1.nodes[p].outEdges) && g.nodes[p].outEdges[i] == InEdge(g, y).value.value
  {
    TreeParent(g, root, y);
    var p := Parent(g, y).value.value;
    var i := IndexOf(g, y).value.value;
    AddLeafAtTree(g, root, x, p, e, i, nd, ed);
    assert g.NodeValid(p);
    assert e !in g.nodes[p].outEdges;
    var g1 := LeafBeside(g, root, x, y, e, nd, ed).value;
    assert g1.NodeValid(p);
  }

  /**
   * `insertNode(_:at:edge:)`, every check made before the graph changes: at
   * the root, a fresh node becomes the new root with the old root as its
   * child; elsewhere a fresh node takes the existing node's place under
   * its parent and the existing node moves under it. The second component
   * is the root afterwards.
   */
  ghost function Inserted<ND, ED>(g: GraphState<ND, ED>, root: NodeID, x: NodeID, y: NodeID, e: EdgeID, nd: ND, ed: ED): (r: Result<(GraphState<ND, ED>, NodeID)>)
    requires g.Valid() && TreeShaped(g, root)
    ensures r.Err? <==> (y != root && y !in g.nodes) || x in g.nodes || e in g.edges
    ensures r.Err? ==> r.error == if y != root && y !in g.nodes then NotFound else Duplicate
  {
    if y == root then
      match AddRoot(g, x, root, e, nd, ed)
      case Err(err) => Err(err)
      case Ok(g2) => Ok((g2, x))
    else if y !in g.nodes then Err(NotFound)
    else
      match LeafBeside(g, root, x, y, e, nd, ed)
      case Err(err) => Err(err)
      case Ok(g1) =>
        LeafBesideTree(g, root, x, y, e, nd, ed);
        SiblingUnreachable(g, g1, root, x, y, Parent(g, y).value.value, e, ed);
        match Moved(g1, root, y, x)
        case Err(err) => assert false; Err(err)
        case Ok(g2) => Ok((g2, root))
  }

  /**
   * `insertNode(_:at:edge:)` as the library writes it: every step changes
   * the store before the next one checks anything, so a step that fails
   * leaves the earlier ones behind. The third component is the root
   * afterwards.
   */
  ghost function InsertNodeAsWritten<ND, ED>(g: GraphState<ND, ED>, root: NodeID, x: NodeID, y: NodeID, e: EdgeID, nd: ND, ed: ED): (r: (Outcome, GraphState<ND, ED>, NodeID))
    requires g.Valid() && TreeShaped(g, root)
    ensures r.1.Valid()
  {
    if y == root then
      match g.NewNode(x, nd)
      case Err(err) => (Fail(err), g, root)
      case Ok(g1) =>
        match g1.NewEdge(e, x, root, ed)
        case Err(err) => (Fail(err), g1, root)
        case Ok(g2) => (Pass, g2, x)
    else if y !in g.nodes then (Fail(NotFound), g, root)
    else
      var step := LeafStepAsWritten(g, root, x, y, e, nd, ed);
      if step.0.Fail? then (step.0, step.1, root)
      else
        LeafStepAgrees(g, root, x, y, e, nd, ed);
        InsertedSteps(g, root, x, y, e, nd, ed);
        (Pass, Moved(step.1, root, y, x).value, root)
  }

  /** The first step of `insertNode` below the root as the library writes it: the library's `newNode` under the parent of `y`. */
  ghost function LeafStepAsWritten<ND, ED>(g: GraphState<ND, ED>, root: NodeID, x: NodeID, y: NodeID, e: EdgeID, nd: ND, ed: ED): (r: (Outcome, GraphState<ND, ED>))
    requires g.Valid() && TreeShaped(g, root) && y in g.nodes && y != root
    ensures r.1.Valid()
  {
    TreeParent(g, root, y);
    var p := Parent(g, y).value.value;
    if g.isOrdered then NewNodeAtAsWritten(g, x, p, e, IndexOf(g, y).value.value, nd, ed)
    else NewNodeAsWritten(g, x, p, e, nd, ed)
  }

  /** That step passes exactly when the checked step does, and then with the same store. */
  lemma LeafStepAgrees<ND, ED>(g: GraphState<ND, ED>, root: NodeID, x: NodeID, y: NodeID, e: EdgeID, nd: ND, ed: ED)
    requires g.Valid() && TreeShaped(g, root) && y in g.nodes && y != root
    ensures LeafStepAsWritten(g, root, x, y, e, nd, ed).0 == Pass <==> LeafBeside(g, root, x, y, e, nd, ed).Ok?
    ensures LeafBeside(g, root, x, y, e, nd, ed).Ok? ==> LeafStepAsWritten(g, root, x, y, e, nd, ed).1 == LeafBeside(g, root, x, y, e, nd, ed).value
    ensures LeafBeside(g, root, x, y, e, nd, ed).Ok? ==> Inserted(g, root, x, y, e, nd, ed).Ok?
  {
    TreeParent(g, root, y);
    var p := Parent(g, y).value.value;
    if g.isOrdered {
      var i := IndexOf(g, y).value.value;
      if x !in g.nodes {
        var g1 := g.NewNode(x, nd).value;
        assert g1.nodes[p] == g.nodes[p];
      }
    }
  }

  /** Where the checked `insertNode` succeeds, the library's does the same, and it never succeeds where the checked one fails. */
  lemma InsertNodeAsWrittenAgrees<ND, ED>(g: GraphState<ND, ED>, root: NodeID, x: NodeID, y: NodeID, e: EdgeID, nd: ND, ed: ED)
    requires g.Valid() && TreeShaped(g, root)
    ensures InsertNodeAsWritten(g, root, x, y, e, nd, ed).0 == Pass <==> Inserted(g, root, x, y, e, nd, ed).Ok?
    ensures Inserted(g, root, x, y, e, nd, ed).Ok? ==>
      InsertNodeAsWritten(g, root, x, y, e, nd, ed) == (Pass, Inserted(g, root, x, y, e, nd, ed).value.0, Inserted(g, root, x, y, e, nd, ed).value.1)
  {
    if y != root && y in g.nodes {
      LeafStepAgrees(g, root, x, y, e, nd, ed);
      if Inserted(g, root, x, y, e, nd, ed).Ok? {
        InsertedSteps(g, root, x, y, e, nd, ed);
      }
    }
  }

  /** The two-node tree `0 -> 1` through edge 10, used by the example below. */
  ghost function Pair(): GraphState<int, int> {
    SeedTree();
    AddLeaf(Seed(), 1, 0, 10, 0, 0).value
  }

  /**
   * Inserting a node above the root with an edge id already in use: the
   * call fails as a duplicate, yet the new node stays behind, unreachable
   * from the root, which has not changed.
   */
  lemma InsertRootOrphan()
    ensures Pair().Valid() && TreeShaped(Pair(), 0)
    ensures InsertNodeAsWritten(Pair(), 0, 2, 0, 10, 0, 0).0 == Fail(Duplicate)
    ensures InsertNodeAsWritten(Pair(), 0, 2, 0, 10, 0, 0).2 == 0
    ensures 2 in InsertNodeAsWritten(Pair(), 0, 2, 0, 10, 0, 0).1.nodes
    ensures !TreeShaped(InsertNodeAsWritten(Pair(), 0, 2, 0, 10, 0, 0).1, 0)
  {
    SeedTree();
    AddLeafTree(Seed(), 0, 1, 0, 10, 0, 0);
    var g := Pair();
    assert 10 in g.edges && 1 in g.nodes && 2 !in g.nodes;
    var g1 := g.NewNode(2, 0).value;
    assert InsertNodeAsWritten(g, 0, 2, 0, 10, 0, 0) == (Fail(Duplicate), g1, 0);
    Unreached(g1, 0, 2);
  }

  /** At the root, `insertNode` puts the fresh node above the old root; every other node keeps its parent. */
  lemma InsertedAtRoot<ND, ED>(g: GraphState<ND, ED>, root: NodeID, x: NodeID, e: EdgeID, nd: ND, ed: ED)
    requires g.Valid() && TreeShaped(g, root) && Inserted(g, root, x, root, e, nd, ed).Ok?
    ensures var g2 := Inserted(g, root, x, root, e, nd, ed).value.0;
      && Inserted(g, root, x, root, e, nd, ed).value.1 == x
      && g2.Valid() && TreeShaped(g2, x) && g2.nodes.Keys == g.nodes.Keys + {x} && g2.NodeData(x) == Ok(nd)
      && g2.edges == g.edges[e := Edge(x, root, ed)]
      && Parent(g2, root) == Ok(Some(x)) && Parent(g2, x) == Parent(g, root) && Children(g2, x) == Ok([root])
      && forall m | m in g.nodes && m != root :: Parent(g2, m) == Parent(g, m)
  {
    var g2 := AddRoot(g, x, root, e, nd, ed).value;
    AddRootTree(g, root, x, e, nd, ed);
    TreeParent(g, root, root);
    forall m | m in g.nodes && m != root ensures Parent(g2, m) == Parent(g, m) {
      assert g2.EdgesInto(m) == g.EdgesInto(m);
      SameParent(g, g2, m);
    }
  }

  /** The parent of a node is the same in two stores that agree on the edges entering it. */
  lemma OthersKeepParents<ND, ED>(g: GraphState<ND, ED>, g2: GraphState<ND, ED>, moved: set<NodeID>)
    requires g.Valid() && g2.Valid() && g.nodes.Keys <= g2.nodes.Keys
    requires forall z | z in g.edges && g.edges[z].head !in moved :: z in g2.edges && g2.edges[z] == g.edges[z]
    requires forall z | z in g2.edges && g2.edges[z].head in g.nodes && g2.edges[z].head !in moved :: z in g.edges && g.edges[z] == g2.edges[z]
    ensures forall m | m in g.nodes && m !in moved :: Parent(g2, m) == Parent(g, m)
  {
    forall m | m in g.nodes && m !in moved ensures Parent(g2, m) == Parent(g, m) {
      forall z | z in g2.EdgesInto(m) ensures z in g.EdgesInto(m) {
      }
      forall z | z in g.EdgesInto(m) ensures z in g2.EdgesInto(m) {
      }
      SameParent(g, g2, m);
    }
  }

  /** Two stores that differ in two edges, both entering nodes of `moved` before and after, agree on every other node's parent. */
  lemma TwoEdgesChanged<ND, ED>(g: GraphState<ND, ED>, g2: GraphState<ND, ED>, e: EdgeID, a: Edge<ED>, f: EdgeID, b: Edge<ED>, moved: set<NodeID>)
    requires g.Valid() && g2.Valid() && g.nodes.Keys <= g2.nodes.Keys
    requires e !in g.edges && a.head in moved && b.head in moved && f in g.edges && g.edges[f].head in moved
    requires g2.edges == g.edges[e := a][f := b]
    ensures forall m | m in g.nodes && m !in moved :: Parent(g2, m) == Parent(g, m)
  {
    OthersKeepParents(g, g2, moved);
  }

  /**
   * The second step of `insertNode` below the root, on any stores: with
   * `x` a fresh childless child of `p` and the in-edge `f` of `y`
   * re-pointed to leave `x`, the only child of `x` is `y` and `x` hangs
   * from `p`.
   */
  lemma HangBelow<ND, ED>(g1: GraphState<ND, ED>, g2: GraphState<ND, ED>, x: NodeID, y: NodeID, p: NodeID, f: EdgeID)
    requires g1.Valid() && g2.Valid() && x in g1.nodes && g1.nodes[x].outEdges == [] && Parent(g1, x) == Ok(Some(p))
    requires f in g1.edges && g1.edges[f].head == y && y != x
    requires g2.nodes.Keys == g1.nodes.Keys && g2.edges == g1.edges[f := Edge(x, y, g1.edges[f].data)]
    ensures Parent(g2, x) == Ok(Some(p)) && Children(g2, x) == Ok([y])
  {
    assert g2.EdgesInto(x) == g1.EdgesInto(x);
    SameParent(g1, g2, x);
    assert g1.NodeValid(x);
    EmptyElements(g1.nodes[x].outEdges);
    assert g1.EdgesFrom(x) == {};
    assert forall z | z in g1.edges :: z !in g1.EdgesFrom(x);
    forall z | z in g2.edges && g2.edges[z].tail == x ensures z == f {
    }
    SoleOut(g2, x, f);
  }

  /** `insertNode` below the root is the leaf step followed by moving `y` under the fresh node. */
  lemma InsertedSteps<ND, ED>(g: GraphState<ND, ED>, root: NodeID, x: NodeID, y: NodeID, e: EdgeID, nd: ND, ed: ED)
    requires g.Valid() && TreeShaped(g, root) && y != root && Inserted(g, root, x, y, e, nd, ed).Ok?
    ensures y in g.nodes && LeafBeside(g, root, x, y, e, nd, ed).Ok?
    ensures var g1 := LeafBeside(g, root, x, y, e, nd, ed).value;
      && g1.Valid() && TreeShaped(g1, root)
      && Moved(g1, root, y, x).Ok?
      && Inserted(g, root, x, y, e, nd, ed).value == (Moved(g1, root, y, x).value, root)
  {
    LeafBesideTree(g, root, x, y, e, nd, ed);
  }

  /**
   * Below the root, `insertNode` hangs the fresh node `x` where `y` hung and
   * moves `y` under it: two edges change, every other node keeps its parent.
   */
  lemma InsertedBelow<ND, ED>(g: GraphState<ND, ED>, root: NodeID, x: NodeID, y: NodeID, e: EdgeID, nd: ND, ed: ED)
    requires g.Valid() && TreeShaped(g, root) && y != root && Inserted(g, root, x, y, e, nd, ed).Ok?
    ensures y in g.nodes && InEdge(g, y).value.Some? && Parent(g, y).value.Some?
    ensures var g2 := Inserted(g, root, x, y, e, nd, ed).value.0;
      var f := InEdge(g, y).value.value;
      && Inserted(g, root, x, y, e, nd, ed).value.1 == root
      && g2.Valid() && TreeShaped(g2, root) && g2.nodes.Keys == g.nodes.Keys + {x} && g2.NodeData(x) == Ok(nd)
      && f in g.edges && g2.edges == g.edges[e := Edge(Parent(g, y).value.value, x, ed)][f := Edge(x, y, g.edges[f].data)]
      && Parent(g2, y) == Ok(Some(x)) && Parent(g2, x) == Parent(g, y) && Children(g2, x) == Ok([y])
      && forall m | m in g.nodes && m != y :: Parent(g2, m) == Parent(g, m)
  {
    InsertedSteps(g, root, x, y, e, nd, ed);
    TreeParent(g, root, y);
    var p := Parent(g, y).value.value;
    var g1 := LeafBeside(g, root, x, y, e, nd, ed).value;
    LeafBesideTree(g, root, x, y, e, nd, ed);
    SiblingUnreachable(g, g1, root, x, y, p, e, ed);
    var g2 := Moved(g1, root, y, x).value;
    var f := InEdge(g, y).value.value;
    MovedRehung(g1, root, y, x);
    assert Rehung(g1, g2, root, y, x);
    assert f in g.EdgesInto(y);
    BelowShape(g, g1, g2, x, y, p, e, f, nd, ed);
  }

  /** The two steps of `insertNode` below the root, stated on any three stores. */
  lemma BelowShape<ND, ED>(g: GraphState<ND, ED>, g1: GraphState<ND, ED>, g2: GraphState<ND, ED>, x: NodeID, y: NodeID, p: NodeID, e: EdgeID, f: EdgeID, nd: ND, ed: ED)
    requires g.Valid() && y in g.nodes && x !in g.nodes && e !in g.edges && f in g.EdgesInto(y)
    requires g1.Valid() && g1.nodes.Keys == g.nodes.Keys + {x} && g1.NodeData(x) == Ok(nd)
    requires g1.edges == g.edges[e := Edge(p, x, ed)] && Parent(g1, x) == Ok(Some(p)) && Children(g1, x) == Ok([])
    requires g2.Valid() && g1.SameNodesAs(g2) && g2.edges == g1.edges[f := Edge(x, y, g1.edges[f].data)]
    ensures g2.nodes.Keys == g.nodes.Keys + {x} && g2.NodeData(x) == Ok(nd)
    ensures g2.edges == g.edges[e := Edge(p, x, ed)][f := Edge(x, y, g.edges[f].data)]
    ensures Parent(g2, x) == Ok(Some(p)) && Children(g2, x) == Ok([y])
    ensures forall m | m in g.nodes && m != y :: Parent(g2, m) == Parent(g, m)
  {
    assert f != e && y != x;
    assert g1.nodes[x].outEdges == [];
    HangBelow(g1, g2, x, y, p, f);
    assert g1.edges[f] == g.edges[f];
    TwoEdgesChanged(g, g2, e, Edge(p, x, ed), f, Edge(x, y, g.edges[f].data), {x, y});
  }

  /** In an ordered graph the fresh node takes the exact position `y` had among its parent's children. */
  lemma InsertedOrder<ND, ED>(g: GraphState<ND, ED>, root: NodeID, x: NodeID, y: NodeID, e: EdgeID, nd: ND, ed: ED)
    requires g.Valid() && TreeShaped(g, root) && y != root && g.isOrdered && Inserted(g, root, x, y, e, nd, ed).Ok?
    ensures y in g.nodes && Parent(g, y).value.Some? && IndexOf(g, y).value.Some?
    ensures var g2 := Inserted(g, root, x, y, e, nd, ed).value.0;
      var p := Parent(g, y).value.value;
      var i := IndexOf(g, y).value.value;
      var out := g.nodes[p].outEdges;
      && p in g.nodes && p in g2.nodes && i < |out|
      && g2.nodes[p].outEdges == out[..i] + [e] + out[i + 1..]
  {
    InsertedSteps(g, root, x, y, e, nd, ed);
    TreeParent(g, root, y);
    var p := Parent(g, y).value.value;
    var i := IndexOf(g, y).value.value;
    var g1 := LeafBeside(g, root, x, y, e, nd, ed).value;
    LeafBesideOrder(g, root, x, y, e, nd, ed);
    LeftParent(g, root, x, y, e, nd, ed);
    TakesPlace(g1.nodes[p].outEdges, Moved(g1, root, y, x).value.nodes[p].outEdges, g.nodes[p].outEdges, e, InEdge(g, y).value.value, i);
  }

  /** Moving `y` under the fresh node takes the in-edge of `y` out of its old parent's list. */
  lemma LeftParent<ND, ED>(g: GraphState<ND, ED>, root: NodeID, x: NodeID, y: NodeID, e: EdgeID, nd: ND, ed: ED)
    requires g.Valid() && TreeShaped(g, root) && y != root && Inserted(g, root, x, y, e, nd, ed).Ok?
    ensures y in g.nodes && Parent(g, y).value.Some? && InEdge(g, y).value.Some?
    ensures var g1 := LeafBeside(g, root, x, y, e, nd, ed).value;
      && g1.Valid() && TreeShaped(g1, root) && Moved(g1, root, y, x).Ok?
      && var p := Parent(g, y).value.value;
      && p in g1.nodes
      && Moved(g1, root, y, x).value.nodes[p].outEdges == Without(g1.nodes[p].outEdges, InEdge(g, y).value.value)
  {
    InsertedSteps(g, root, x, y, e, nd, ed);
    TreeParent(g, root, y);
    var p := Parent(g, y).value.value;
    var g1 := LeafBeside(g, root, x, y, e, nd, ed).value;
    LeafBesideTree(g, root, x, y, e, nd, ed);
    SiblingUnreachable(g, g1, root, x, y, p, e, ed);
    var g2 := Moved(g1, root, y, x).value;
    MovedRehung(g1, root, y, x);
    assert Rehung(g1, g2, root, y, x);
    assert g.edges[InEdge(g, y).value.value].tail == p;
  }

  /** Inserting `e` at `i` and then dropping the entry `f` that sat at `i` leaves `e` in its place. */
  lemma TakesPlace(out1: seq<EdgeID>, out2: seq<EdgeID>, out: seq<EdgeID>, e: EdgeID, f: EdgeID, i: nat)
    requires i < |out| && out[i] == f && out1 == out[..i] + [e] + out[i..]
    requires Distinct(out1) && out2 == Without(out1, f)
    ensures out2 == out[..i] + [e] + out[i + 1..]
  {
    assert out1[i + 1] == f;
    WithoutAt(out1, i + 1);
    assert out1[..i + 1] == out[..i] + [e];
    assert out1[i + 2..] == out[i + 1..];
  }
}
