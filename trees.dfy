/**
 * The tree: a graph store together with a root, under the invariant that
 * the store is a tree hanging from that root (every node reachable from
 * it, nothing entering it, at most one edge entering any node). Its edits
 * are proved to take the store, and the root, to exactly the values the
 * functions of `TreeEdits` and `TreeUngroup` compute, or to leave both
 * untouched with those functions' errors; the tree invariant is kept by
 * every one of them.
 */
module Trees {
  import opened GraphErrors
  import opened ElementIDs
  import opened EdgeSets
  import opened GraphModel
  import opened Paths
  import opened Graphs
  import opened PathSearch
  import opened TopoSort
  import opened TreeTest
  import opened TreeShapes
  import opened TreeViews
  import opened TreeEdits
  import opened TreeUngroup
  import opened TreePrune

  /**
   * The call outcome `r`, the store `after` and the root `afterRoot` are
   * what `res` prescribes for an edit that may change the root, made on
   * the store `before` with root `beforeRoot`.
   */
  ghost predicate AppliesRooted<ND, ED>(res: Result<(GraphState<ND, ED>, NodeID)>, r: Outcome,
                                        after: GraphState<ND, ED>, afterRoot: NodeID,
                                        before: GraphState<ND, ED>, beforeRoot: NodeID)
  {
    match res
    case Ok(v) => r == Pass && after == v.0 && afterRoot == v.1
    case Err(e) => r == Fail(e) && after == before && afterRoot == beforeRoot
  }

  /** An edit that keeps the nodes and every edge's ends keeps a tree a tree. */
  lemma SameShape<ND, ED>(g: GraphState<ND, ED>, res: Result<GraphState<ND, ED>>, root: NodeID)
    requires TreeShaped(g, root)
    requires res.Ok? ==> res.value.nodes.Keys == g.nodes.Keys && EdgesWithin(g, res.value) && EdgesWithin(res.value, g)
    ensures res.Ok? ==> TreeShaped(res.value, root)
  {
    if res.Ok? {
      TreeShapeTransfer(g, res.value, root);
    }
  }

  /**
   * What `moveNode` does once the root check is passed and the node exists:
   * its in-edge is known, the guard searches with nothing excluded, and the
   * outcome is the refusal or the graph's own move of that edge.
   */
  lemma MoveSteps<ND, ED>(g: GraphState<ND, ED>, root: NodeID, n: NodeID, p: NodeID)
    requires g.Valid() && TreeShaped(g, root) && n in g.nodes && n != root
    ensures InEdge(g, n).value.Some? && RootBan(g, InEdge(g, n).value, n) == {}
    ensures Moved(g, root, n, p) == if Reach(g, {}, n, p) then Err(NotATree) else g.MoveEdge(InEdge(g, n).value.value, p, n)
    ensures Moved(g, root, n, p).Ok? ==> Moved(g, root, n, p).value.Valid() && TreeShaped(Moved(g, root, n, p).value, root)
  {
    TreeMoveGuard(g, root, n);
    if Moved(g, root, n, p).Ok? {
      MovedRehung(g, root, n, p);
    }
  }

  /** The same for `moveNode(_:newParent:at:)`. */
  lemma MoveAtSteps<ND, ED>(g: GraphState<ND, ED>, root: NodeID, n: NodeID, p: NodeID, index: int)
    requires g.Valid() && TreeShaped(g, root) && n in g.nodes && n != root
    ensures InEdge(g, n).value.Some? && RootBan(g, InEdge(g, n).value, n) == {}
    ensures MovedAt(g, root, n, p, index) == if Reach(g, {}, n, p) then Err(NotATree) else g.MoveEdgeAt(InEdge(g, n).value.value, p, index, n)
    ensures MovedAt(g, root, n, p, index).Ok? ==> MovedAt(g, root, n, p, index).value.Valid() && TreeShaped(MovedAt(g, root, n, p, index).value, root)
  {
    TreeMoveGuard(g, root, n);
    if MovedAt(g, root, n, p, index).Ok? {
      MovedAtRehung(g, root, n, p, index);
    }
  }

  /** The `k`-th pass of the ungrouping loop moves the `k`-th child of `n` and reaches the next lifted store. */
  lemma RegroupStep<ND, ED>(g: GraphState<ND, ED>, root: NodeID, n: NodeID, p: NodeID, i: nat, cs: seq<NodeID>, k: nat)
    requires LiftFrom(g, root, n, p, i) && Children(g, n) == Ok(cs) && k < |cs| && k < |g.nodes[n].outEdges|
    ensures ChildMoved(Lifted(g, root, n, p, i, k), Lifted(g, root, n, p, i, k + 1), root, cs[k], p, i, k)
  {
    ChildrenHeads(g, n);
    var h := Lifted(g, root, n, p, i, k);
    LiftingIs(g, h, root, n, p, i, k);
    LiftStep(g, h, root, n, p, i, k);
    MoveChildIs(g, h, root, n, p, i, k);
    ChildMovedIs(h, Lifted(g, root, n, p, i, k + 1), root, cs[k], p, i, k);
  }

  /** An operation known to succeed leaves the store it computes. */
  lemma Landed<ND, ED>(res: Result<GraphState<ND, ED>>, r: Outcome, after: GraphState<ND, ED>, before: GraphState<ND, ED>, next: GraphState<ND, ED>)
    requires Applies(res, r, after, before) && res == Ok(next)
    ensures after == next
  {
  }

  /** The checked `newNode(at:)`, once its checks pass, is the graph's own two steps, and keeps the tree. */
  lemma LeafAtSteps<ND, ED>(g: GraphState<ND, ED>, root: NodeID, n: NodeID, p: NodeID, e: EdgeID, index: int, nd: ND, ed: ED)
    requires g.Valid() && TreeShaped(g, root) && n !in g.nodes && e !in g.edges && p in g.nodes
    requires g.isOrdered && 0 <= index <= |g.nodes[p].outEdges|
    ensures g.NewNode(n, nd).Ok? && g.NewNode(n, nd).value.Valid()
    ensures AddLeafAt(g, n, p, e, index, nd, ed) == g.NewNode(n, nd).value.NewEdgeAt(e, p, index, n, ed)
    ensures var g2 := AddLeafAt(g, n, p, e, index, nd, ed);
      g2.Ok? && g2.value.Valid() && g2.value.isOrdered && TreeShaped(g2.value, root)
      && Parent(g2.value, n) == Ok(Some(p)) && Children(g2.value, n) == Ok([])
  {
    AddLeafAtTree(g, root, n, p, e, index, nd, ed);
  }

  /** `h2` is what the tree `h` becomes when its node `c` moves under `p`, at `i + k` when the graph is ordered. */
  ghost predicate ChildMoved<ND, ED>(h: GraphState<ND, ED>, h2: GraphState<ND, ED>, root: NodeID, c: NodeID, p: NodeID, i: nat, k: nat) {
    ChildMovedAfter(h, h2, root, c, p, i + k, k + 2)
  }

  /** `ChildMoved` behind a countdown of `d` steps (see `MoveChildAfter`), which keeps the move unexpanded until `ChildMovedIs` writes it out. */
  ghost predicate ChildMovedAfter<ND, ED>(h: GraphState<ND, ED>, h2: GraphState<ND, ED>, root: NodeID, c: NodeID, p: NodeID, index: nat, d: nat)
    decreases d
  {
    if d == 0 then
      && h.Valid() && TreeShaped(h, root)
      && (h.isOrdered ==> MovedAt(h, root, c, p, index) == Ok(h2))
      && (!h.isOrdered ==> Moved(h, root, c, p) == Ok(h2))
    else ChildMovedAfter(h, h2, root, c, p, index, d - 1)
  }

  /** A child move, written out. */
  lemma ChildMovedIs<ND, ED>(h: GraphState<ND, ED>, h2: GraphState<ND, ED>, root: NodeID, c: NodeID, p: NodeID, i: nat, k: nat)
    ensures ChildMoved(h, h2, root, c, p, i, k) <==>
      && h.Valid() && TreeShaped(h, root)
      && (h.isOrdered ==> MovedAt(h, root, c, p, i + k) == Ok(h2))
      && (!h.isOrdered ==> Moved(h, root, c, p) == Ok(h2))
  {
    ChildMovedCountdown(h, h2, root, c, p, i + k, k + 2);
  }

  /** Every countdown ends in the move itself. */
  lemma {:induction false} ChildMovedCountdown<ND, ED>(h: GraphState<ND, ED>, h2: GraphState<ND, ED>, root: NodeID, c: NodeID, p: NodeID, index: nat, d: nat)
    ensures ChildMovedAfter(h, h2, root, c, p, index, d) == ChildMovedAfter(h, h2, root, c, p, index, 0)
    decreases d
  {
    if d > 0 {
      ChildMovedCountdown(h, h2, root, c, p, index, d - 1);
    }
  }

  /** Once every child has moved, removing `n` gives what `Ungrouped` prescribes. */
  lemma UngroupEnd<ND, ED>(g: GraphState<ND, ED>, root: NodeID, n: NodeID, p: NodeID, i: nat)
    requires g.Valid() && TreeShaped(g, root) && n in g.nodes && n != root && Parent(g, n) == Ok(Some(p)) && i == SlotOf(g, n)
    ensures LiftFrom(g, root, n, p, i)
    ensures var h := Lifted(g, root, n, p, i, |g.nodes[n].outEdges|);
      && h.Valid() && h.RemoveNode(n).Ok? && TreeShaped(h.RemoveNode(n).value, root)
      && Ungrouped(g, root, n) == Ok((h.RemoveNode(n).value, root))
  {
    UngroupStart(g, root, n);
    LiftingIs(g, Lifted(g, root, n, p, i, |g.nodes[n].outEdges|), root, n, p, i, |g.nodes[n].outEdges|);
    LiftedAll(g, Lifted(g, root, n, p, i, |g.nodes[n].outEdges|), root, n, p, i);
  }

  /** Removing the root of a tree: allowed with exactly one child, which becomes the root. */
  lemma RootUngroup<ND, ED>(g: GraphState<ND, ED>, root: NodeID)
    requires g.Valid() && TreeShaped(g, root)
    ensures Children(g, root).Ok? && |Children(g, root).value| == |g.nodes[root].outEdges|
    ensures |g.nodes[root].outEdges| != 1 ==> Ungrouped(g, root, root) == Err(NotATree)
    ensures |g.nodes[root].outEdges| == 1 ==>
      g.RemoveNode(root).Ok? && Ungrouped(g, root, root) == Ok((g.RemoveNode(root).value, Children(g, root).value[0]))
  {
    ChildrenHeads(g, root);
  }

  class Tree<ND, ED> {
    var root: NodeID
    const graph: Graph<ND, ED>

    function View(): GraphState<ND, ED>
      reads this, graph
    {
      graph.View()
    }

    /** The store is well formed and is a tree hanging from `root`. */
    ghost predicate Valid()
      reads this, graph
    {
      graph.Valid() && TreeShaped(graph.View(), root)
    }

    /** `init(uncheckedInnerGraph:root:)`: the caller vouches that the store is a tree under `r`. */
    constructor Unchecked(g: GraphState<ND, ED>, r: NodeID)
      requires g.Valid() && TreeShaped(g, r)
      ensures Valid() && View() == g && root == r && fresh(graph)
    {
      var store := new Graph(g.isOrdered);
      var copied := store.Adopt(Ok(g));
      graph := store;
      root := r;
    }

    /** `copySettingInner(graph:)`: a tree over another store, keeping this tree's root. */
    method CopySettingInner(g: GraphState<ND, ED>) returns (t: Tree<ND, ED>)
      requires g.Valid() && TreeShaped(g, root)
      ensures t.Valid() && t.View() == g && t.root == root && fresh(t) && fresh(t.graph)
    {
      t := new Tree.Unchecked(g, root);
    }

    /** `setRoot`: makes `r` the root; the store is left alone. */
    method SetRoot(r: NodeID)
      modifies this
      ensures root == r
    {
      root := r;
    }

    /** `withNodeData`: transforms one node's data; only that node's data changes. */
    method WithNodeData(n: NodeID, f: ND -> ND) returns (r: Outcome)
      requires Valid()
      modifies graph
      ensures Valid()
      ensures Applies(old(View()).WithNodeData(n, f), r, View(), old(View()))
      ensures r == Pass <==> n in old(View()).nodes
    {
      SameShape(View(), View().WithNodeData(n, f), root);
      r := graph.WithNodeData(n, f);
    }

    /** `setNodeData`: replaces one node's data. */
    method SetNodeData(n: NodeID, d: ND) returns (r: Outcome)
      requires Valid()
      modifies graph
      ensures Valid()
      ensures Applies(old(View()).SetNodeData(n, d), r, View(), old(View()))
      ensures r == Pass <==> n in old(View()).nodes
    {
      r := WithNodeData(n, _ => d);
    }

    /** `withEdgeData`: transforms one edge's data; the edge keeps its ends. */
    method WithEdgeData(e: EdgeID, f: ED -> ED) returns (r: Outcome)
      requires Valid()
      modifies graph
      ensures Valid()
      ensures Applies(old(View()).WithEdgeData(e, f), r, View(), old(View()))
      ensures r == Pass <==> e in old(View()).edges
    {
      SameShape(View(), View().WithEdgeData(e, f), root);
      r := graph.WithEdgeData(e, f);
    }

    /** `setEdgeData`: replaces one edge's data. */
    method SetEdgeData(e: EdgeID, d: ED) returns (r: Outcome)
      requires Valid()
      modifies graph
      ensures Valid()
      ensures Applies(old(View()).SetEdgeData(e, d), r, View(), old(View()))
      ensures r == Pass <==> e in old(View()).edges
    {
      r := WithEdgeData(e, _ => d);
    }

    /**
     * `moveNode(_:newParent:)`: the root cannot move; the node's in-edge is
     * re-pointed to leave the new parent, unless `canMoveDAGEdge` finds a
     * path from the node to the new parent, which is refused as not a tree.
     */
    method MoveNode(n: NodeID, p: NodeID) returns (r: Outcome)
      requires Valid()
      modifies graph
      ensures Valid()
      ensures Applies(Moved(old(View()), root, n, p), r, View(), old(View()))
    {
      if n == root {
        return Fail(NotATree);
      }
      var ie := InEdge(graph.View(), n);
      if ie.Err? {
        return Fail(ie.error);
      }
      MoveSteps(View(), root, n, p);
      var e := ie.value.value;
      var allowed := CanMoveDAGEdge(graph.View(), e, p, n);
      assert allowed.Ok?;
      if !allowed.value {
        return Fail(NotATree);
      }
      r := graph.MoveEdge(e, p, n);
    }

    /** `moveNode(_:newParent:at:)`: the same checks, then the move to a position among the new parent's out-edges. */
    method MoveNodeAt(n: NodeID, p: NodeID, index: int) returns (r: Outcome)
      requires Valid()
      modifies graph
      ensures Valid()
      ensures Applies(MovedAt(old(View()), root, n, p, index), r, View(), old(View()))
    {
      if n == root {
        return Fail(NotATree);
      }
      var ie := InEdge(graph.View(), n);
      if ie.Err? {
        return Fail(ie.error);
      }
      MoveAtSteps(View(), root, n, p, index);
      var e := ie.value.value;
      var allowed := CanMoveDAGEdge(graph.View(), e, p, n);
      assert allowed.Ok?;
      if !allowed.value {
        return Fail(NotATree);
      }
      r := graph.MoveEdgeAt(e, p, index, n);
    }

    /**
     * `newNode(_:parent:edge:)`, checked before the store changes: a fresh
     * node becomes a childless child of `p`.
     */
    method NewNode(n: NodeID, p: NodeID, e: EdgeID, nd: ND, ed: ED) returns (r: Outcome)
      requires Valid()
      modifies graph
      ensures Valid()
      ensures Applies(AddLeaf(old(View()), n, p, e, nd, ed), r, View(), old(View()))
      ensures r == Pass ==> Parent(View(), n) == Ok(Some(p)) && Children(View(), n) == Ok([])
    {
      if n in graph.nodes || e in graph.edges {
        return Fail(Duplicate);
      }
      if p !in graph.nodes {
        return Fail(NotFound);
      }
      AddLeafTree(View(), root, n, p, e, nd, ed);
      var added := graph.NewNode(n, nd);
      r := graph.NewEdge(e, p, n, ed);
    }

    /** `newNode(_:parent:edge:at:)`, checked before the store changes, the position included. */
    method NewNodeAt(n: NodeID, p: NodeID, e: EdgeID, index: int, nd: ND, ed: ED) returns (r: Outcome)
      requires Valid()
      modifies graph
      ensures Valid()
      ensures Applies(AddLeafAt(old(View()), n, p, e, index, nd, ed), r, View(), old(View()))
      ensures r == Pass ==> Parent(View(), n) == Ok(Some(p)) && Children(View(), n) == Ok([])
    {
      if n in graph.nodes || e in graph.edges {
        return Fail(Duplicate);
      }
      if p !in graph.nodes {
        return Fail(NotFound);
      }
      if !graph.isOrdered {
        return Fail(NotOrdered);
      }
      if !(0 <= index <= |graph.nodes[p].outEdges|) {
        return Fail(InvalidIndex);
      }
      ghost var g := View();
      LeafAtSteps(g, root, n, p, e, index, nd, ed);
      var added := graph.NewNode(n, nd);
      r := graph.NewEdgeAt(e, p, index, n, ed);
    }

    /**
     * `insertNode(_:at:edge:)`: at the root, the fresh node becomes the root
     * above the old one; elsewhere it takes the existing node's place under
     * that node's parent, and the existing node moves under it.
     */
    method InsertNode(x: NodeID, y: NodeID, e: EdgeID, nd: ND, ed: ED) returns (r: Outcome)
      requires Valid()
      modifies this, graph
      ensures Valid()
      ensures AppliesRooted(Inserted(old(View()), old(root), x, y, e, nd, ed), r, View(), root, old(View()), old(root))
    {
      if y == root {
        if x in graph.nodes || e in graph.edges {
          return Fail(Duplicate);
        }
        AddRootTree(View(), root, x, e, nd, ed);
        var added := graph.NewNode(x, nd);
        var linked := graph.NewEdge(e, x, root, ed);
        SetRoot(x);
        r := Pass;
      } else {
        var pr := Parent(graph.View(), y);
        if pr.Err? {
          return Fail(pr.error);
        }
        if x in graph.nodes || e in graph.edges {
          return Fail(Duplicate);
        }
        TreeParent(View(), root, y);
        r := InsertBelow(x, y, pr.value.value, e, nd, ed);
      }
    }

    /** The branch of `insertNode` below the root, once its checks pass: a fresh leaf beside `y`, then `y` moves under it. */
    method InsertBelow(x: NodeID, y: NodeID, p: NodeID, e: EdgeID, nd: ND, ed: ED) returns (r: Outcome)
      requires Valid() && y != root && Inserted(View(), root, x, y, e, nd, ed).Ok? && Parent(View(), y) == Ok(Some(p))
      modifies graph
      ensures Valid() && r == Pass && View() == Inserted(old(View()), root, x, y, e, nd, ed).value.0
    {
      InsertedSteps(View(), root, x, y, e, nd, ed);
      PlaceLeaf(x, y, p, e, nd, ed);
      r := MoveNode(y, x);
    }

    /** The first step of `insertNode` below the root: the fresh node joins the parent of `y`, just before `y` when ordered. */
    method PlaceLeaf(x: NodeID, y: NodeID, p: NodeID, e: EdgeID, nd: ND, ed: ED)
      requires Valid() && y in graph.nodes && y != root && LeafBeside(View(), root, x, y, e, nd, ed).Ok?
      requires Parent(View(), y) == Ok(Some(p))
      modifies graph
      ensures Valid() && View() == LeafBeside(old(View()), root, x, y, e, nd, ed).value
    {
      LeafBesideTree(View(), root, x, y, e, nd, ed);
      var r: Outcome;
      if graph.isOrdered {
        var i := IndexOf(graph.View(), y).value.value;
        r := NewNodeAt(x, p, e, i, nd, ed);
      } else {
        r := NewNode(x, p, e, nd, ed);
      }
    }

    /**
     * `removeNodeUngrouping`: the root goes only when it has exactly one
     * child, which becomes the root; any other node first hands its
     * children, in order, to its parent, then goes.
     */
    method RemoveNodeUngrouping(n: NodeID) returns (r: Outcome)
      requires Valid()
      modifies this, graph
      ensures Valid()
      ensures AppliesRooted(Ungrouped(old(View()), old(root), n), r, View(), root, old(View()), old(root))
    {
      if n == root {
        RootUngroup(View(), root);
        var cs := Children(graph.View(), n).value;
        if |cs| != 1 {
          return Fail(NotATree);
        }
        var removed := graph.RemoveNode(n);
        SetRoot(cs[0]);
        return Pass;
      }
      var pr := Parent(graph.View(), n);
      if pr.Err? {
        return Fail(pr.error);
      }
      r := Regroup(n);
    }

    /** The branch of `removeNodeUngrouping` below the root: the children move up one at a time, then the node goes. */
    method Regroup(n: NodeID) returns (r: Outcome)
      requires Valid() && n in graph.nodes && n != root
      modifies graph
      ensures Valid()
      ensures Ungrouped(old(View()), root, n).Ok? && r == Pass && View() == Ungrouped(old(View()), root, n).value.0
    {
      ghost var g := View();
      UngroupStart(g, root, n);
      var p := Parent(graph.View(), n).value.value;
      var i: nat := 0;
      if graph.isOrdered {
        i := IndexOf(graph.View(), n).value.value;
      }
      assert i == SlotOf(g, n);
      var cs := Children(graph.View(), n).value;
      LiftAll(g, n, cs, p, i);
      UngroupEnd(g, root, n, p, i);
      r := graph.RemoveNode(n);
    }

    /** The ungrouping loop: the children of the removed node move, in order, under its parent. */
    method LiftAll(ghost g: GraphState<ND, ED>, ghost n: NodeID, cs: seq<NodeID>, p: NodeID, i: nat)
      requires Valid() && View() == g && LiftFrom(g, root, n, p, i) && Children(g, n) == Ok(cs)
      modifies graph
      ensures Valid() && View() == Lifted(g, root, n, p, i, |g.nodes[n].outEdges|)
    {
      ChildrenHeads(g, n);
      var k := 0;
      while k < |cs|
        invariant 0 <= k <= |cs| && Valid() && View() == Lifted(g, root, n, p, i, k)
      {
        LiftNext(g, n, cs, p, i, k);
        k := k + 1;
      }
    }

    /** One pass of the ungrouping loop, from the store lifted `k` times to the next one. */
    method LiftNext(ghost g: GraphState<ND, ED>, ghost n: NodeID, cs: seq<NodeID>, p: NodeID, i: nat, k: nat)
      requires LiftFrom(g, root, n, p, i) && Children(g, n) == Ok(cs) && k < |cs| && k < |g.nodes[n].outEdges|
      requires Valid() && View() == Lifted(g, root, n, p, i, k)
      modifies graph
      ensures Valid() && View() == Lifted(g, root, n, p, i, k + 1)
    {
      RegroupStep(g, root, n, p, i, cs, k);
      LiftChild(Lifted(g, root, n, p, i, k), Lifted(g, root, n, p, i, k + 1), cs[k], p, i + k, k + 2);
    }

    /**
     * One pass of the ungrouping loop: a child moves under `p`, at position
     * `index` when the graph is ordered, taking the store to the next one of
     * the chain. The move is passed behind its countdown `d` (see
     * `ChildMovedAfter`).
     */
    method LiftChild(ghost h: GraphState<ND, ED>, ghost next: GraphState<ND, ED>, c: NodeID, p: NodeID, index: nat, ghost d: nat)
      requires View() == h && ChildMovedAfter(h, next, root, c, p, index, d)
      modifies graph
      ensures Valid() && View() == next
    {
      ChildMovedCountdown(h, next, root, c, p, index, d);
      var moved: Outcome;
      if graph.isOrdered {
        moved := MoveNodeAt(c, p, index);
        Landed(MovedAt(h, root, c, p, index), moved, View(), h, next);
      } else {
        moved := MoveNode(c, p);
        Landed(Moved(h, root, c, p), moved, View(), h, next);
      }
    }

    /**
     * `removeNodeAndChildren`: the root cannot go; any other node leaves
     * with its whole subtree, removed one node at a time in topological
     * order of the subtree, so every node goes after its children. What
     * is left is the store with that subtree and every edge touching it
     * removed, and it is still a tree under the same root.
     */
    method RemoveNodeAndChildren(n: NodeID) returns (r: Outcome)
      requires Valid() && n in graph.nodes
      modifies graph
      ensures Valid()
      ensures n == root ==> r == Fail(NotATree) && View() == old(View())
      ensures n != root ==> r == Pass && PrunedTo(old(View()), View(), ReachableFrom(old(View()), {n}))
    {
      if n == root {
        return Fail(NotATree);
      }
      ghost var g := View();
      TreeAcyclic(g, root);
      var order, trace := TopologicalSort(graph.View(), {n}, true);
      assert order.Ok?;
      var s := order.value;
      Prune(g, n, s);
      r := Pass;
    }

    /** The loop of `removeNodeAndChildren`: the listed nodes go one at a time, each after its children. */
    method Prune(ghost g: GraphState<ND, ED>, n: NodeID, s: seq<NodeID>)
      requires Valid() && View() == g && n != root && Distinct(s) && HeadsFirst(g, s)
      requires Elements(s) == ReachableFrom(g, {n})
      modifies graph
      ensures Valid() && PrunedTo(g, View(), ReachableFrom(g, {n}))
    {
      PruneStart(g);
      var j := 0;
      while j < |s|
        invariant 0 <= j <= |s|
        invariant Valid() && PrunedTo(g, View(), Elements(s[..j]))
      {
        PruneNext(g, n, s, j);
        j := j + 1;
      }
      assert s[..j] == s;
    }

    /** One turn of the loop of `removeNodeAndChildren`: the next listed node, now a leaf, goes. */
    method PruneNext(ghost g: GraphState<ND, ED>, n: NodeID, s: seq<NodeID>, j: nat)
      requires Valid() && n != root && j < |s| && Distinct(s) && HeadsFirst(g, s)
      requires Elements(s) == ReachableFrom(g, {n}) && g.Valid() && TreeShaped(g, root)
      requires PrunedTo(g, View(), Elements(s[..j]))
      modifies graph
      ensures Valid() && PrunedTo(g, View(), Elements(s[..j + 1]))
    {
      PruneTreeStep(g, View(), root, n, s, j);
      var removed := graph.RemoveNode(s[j]);
    }
  }

  /**
   * `init(graph:root:)`: the store becomes a tree only when `isTree(root:)`
   * accepts it; a missing root is not found, any other shape is not a tree.
   */
  method MakeTree<ND, ED>(g: GraphState<ND, ED>, root: NodeID) returns (r: Result<Tree<ND, ED>>)
    requires g.Valid()
    ensures r.Err? <==> !TreeShaped(g, root)
    ensures r.Err? ==> r.error == if root in g.nodes then NotATree else NotFound
    ensures r.Ok? ==> r.value.Valid() && r.value.View() == g && r.value.root == root && fresh(r.value) && fresh(r.value.graph)
  {
    var shaped := IsTree(g, root);
    if shaped.Err? {
      r := Err(shaped.error);
    } else if !shaped.value {
      r := Err(NotATree);
    } else {
      var t := new Tree.Unchecked(g, root);
      r := Ok(t);
    }
  }
}
