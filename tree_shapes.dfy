/**
 * Facts about tree-shaped stores (a root reaching every node, no edge into
 * the root, one edge into every other node): a tree has no cycle, and each
 * edit the tree operations make (adding a leaf, adding a new root, removing
 * a leaf, removing a root with one child, re-pointing a node's in-edge to a
 * node outside its subtree) yields a tree again.
 */
module TreeShapes {
  import opened GraphErrors
  import opened ElementIDs
  import opened EdgeSets
  import opened GraphModel
  import opened Paths

  /** Splits off the last edge of a non-empty path. */
  lemma {:induction false} PathInit<ND, ED>(g: GraphState<ND, ED>, ban: set<EdgeID>, p: seq<EdgeID>, a: NodeID, b: NodeID)
    requires IsPath(g, ban, p, a, b) && p != []
    ensures p[|p| - 1] in g.edges && p[|p| - 1] !in ban && g.edges[p[|p| - 1]].head == b
    ensures IsPath(g, ban, p[..|p| - 1], a, g.edges[p[|p| - 1]].tail)
    decreases |p|
  {
    if |p| == 1 {
      assert p[1..] == [] && p[..0] == [];
    } else {
      var h := g.edges[p[0]].head;
      PathInit(g, ban, p[1..], h, b);
      assert p[1..][..|p| - 2] == p[..|p| - 1][1..];
      assert p[1..][|p| - 2] == p[|p| - 1];
    }
  }

  /** In a tree, no cycle passes through a node the root reaches. */
  lemma {:induction false} NoCycleThrough<ND, ED>(g: GraphState<ND, ED>, root: NodeID, P: seq<EdgeID>, a: NodeID)
    requires TreeShaped(g, root) && IsPath(g, {}, P, root, a)
    ensures forall q :: q != [] ==> !IsPath(g, {}, q, a, a)
    decreases |P|
  {
    forall q | q != [] ensures !IsPath(g, {}, q, a, a) {
      if IsPath(g, {}, q, a, a) {
        var c := q[|q| - 1];
        var q' := q[..|q| - 1];
        PathInit(g, {}, q, a, a);
        var a' := g.edges[c].tail;
        if P == [] {
          assert false;
        } else {
          var f := P[|P| - 1];
          var P' := P[..|P| - 1];
          PathInit(g, {}, P, root, a);
          assert f == c;
          EdgePath(g, {}, c);
          PathAppend(g, {}, [c], q', a', a, a');
          assert [c] + q' != [];
          NoCycleThrough(g, root, P', a');
          assert false;
        }
      }
    }
  }

  /** A tree has no cycle. */
  lemma TreeAcyclic<ND, ED>(g: GraphState<ND, ED>, root: NodeID)
    requires g.Valid() && TreeShaped(g, root)
    ensures !HasCycle(g)
  {
    if HasCycle(g) {
      var q, a :| q != [] && IsPath(g, {}, q, a, a);
      g.TailHasEdge(q[0]);
      assert Reach(g, {}, root, a);
      var P :| IsPath(g, {}, P, root, a);
      NoCycleThrough(g, root, P, a);
    }
  }

  /** Below an edge nothing reaches back to a node that reaches the edge's tail. */
  lemma AncestorUnreachable<ND, ED>(g: GraphState<ND, ED>, root: NodeID, e: EdgeID, a: NodeID)
    requires g.Valid() && TreeShaped(g, root)
    requires e in g.edges && Reach(g, {}, a, g.edges[e].tail)
    ensures !Reach(g, {}, g.edges[e].head, a)
  {
    TreeAcyclic(g, root);
    if Reach(g, {}, g.edges[e].head, a) {
      ReachTrans(g, {}, g.edges[e].head, a, g.edges[e].tail);
      BackEdgeCycle(g, e);
    }
  }

  /** Nothing but the edges changes whether a store is a tree: same nodes and same edge ends give the same answer. */
  lemma TreeShapeTransfer<ND, ED>(g: GraphState<ND, ED>, g2: GraphState<ND, ED>, root: NodeID)
    requires g.nodes.Keys == g2.nodes.Keys && EdgesWithin(g, g2) && EdgesWithin(g2, g)
    requires TreeShaped(g, root)
    ensures TreeShaped(g2, root)
  {
    forall n | n in g2.nodes ensures Reach(g2, {}, root, n) {
      assert n in g.nodes;
      var p :| IsPath(g, {}, p, root, n);
      PathWithin(g, g2, p, root, n);
    }
    forall x, y | x in g2.edges && y in g2.edges && g2.edges[x].head == g2.edges[y].head ensures x == y {
      assert x in g.edges && y in g.edges;
    }
  }

  /** A path between two nodes other than `m`, in a store where `m` has no out-edges or no in-edges, keeps off `m`. */
  lemma {:induction false} PathOffNode<ND, ED>(g: GraphState<ND, ED>, g2: GraphState<ND, ED>, p: seq<EdgeID>, a: NodeID, b: NodeID, m: NodeID)
    requires IsPath(g, {}, p, a, b) && a != m && b != m
    requires (forall x | x in g.edges :: g.edges[x].tail != m) || (forall x | x in g.edges :: g.edges[x].head != m)
    requires forall x | x in g.edges && g.edges[x].tail != m && g.edges[x].head != m :: x in g2.edges && g2.edges[x] == g.edges[x]
    ensures IsPath(g2, {}, p, a, b)
    decreases |p|
  {
    if p != [] {
      var x := p[0];
      var h := g.edges[x].head;
      var rest := p[1..];
      assert x in g.edges;
      if forall y | y in g.edges :: g.edges[y].tail != m {
        assert rest == [] ==> h == b;
        assert rest != [] ==> rest[0] in g.edges && g.edges[rest[0]].tail == h;
      }
      assert h != m;
      PathOffNode(g, g2, rest, h, b, m);
    }
  }

  /** `g2` is `g` with one more node `n` and one more edge `e` from `t` to `h`. */
  ghost predicate Extends<ND, ED>(g: GraphState<ND, ED>, g2: GraphState<ND, ED>, n: NodeID, e: EdgeID, t: NodeID, h: NodeID) {
    && g2.nodes.Keys == g.nodes.Keys + {n}
    && g2.edges.Keys == g.edges.Keys + {e}
    && g2.edges[e].tail == t && g2.edges[e].head == h
    && forall x | x in g.edges :: g2.edges[x] == g.edges[x]
  }

  /** Adding a fresh node as the child of an existing one keeps a tree. */
  lemma TreeAddLeaf<ND, ED>(g: GraphState<ND, ED>, g2: GraphState<ND, ED>, root: NodeID, n: NodeID, p: NodeID, e: EdgeID)
    requires g.Valid() && TreeShaped(g, root)
    requires n !in g.nodes && p in g.nodes && e !in g.edges
    requires Extends(g, g2, n, e, p, n)
    ensures TreeShaped(g2, root)
  {
    assert EdgesWithin(g, g2);
    forall x | x in g.edges ensures g.edges[x].head != n {
      g.HeadHasEdge(x);
    }
    forall m | m in g2.nodes ensures Reach(g2, {}, root, m) {
      if m == n {
        var P :| IsPath(g, {}, P, root, p);
        PathWithin(g, g2, P, root, p);
        ReachStep(g2, {}, root, e);
      } else {
        var P :| IsPath(g, {}, P, root, m);
        PathWithin(g, g2, P, root, m);
      }
    }
  }

  /** Adding a fresh node with an edge to the old root makes it the root of a tree. */
  lemma TreeNewRoot<ND, ED>(g: GraphState<ND, ED>, g2: GraphState<ND, ED>, root: NodeID, x: NodeID, e: EdgeID)
    requires g.Valid() && TreeShaped(g, root)
    requires x !in g.nodes && e !in g.edges
    requires Extends(g, g2, x, e, x, root)
    ensures TreeShaped(g2, x)
  {
    assert EdgesWithin(g, g2);
    forall y | y in g.edges ensures g.edges[y].head != x {
      g.HeadHasEdge(y);
    }
    EdgePath(g2, {}, e);
    assert Reach(g2, {}, x, root);
    forall m | m in g2.nodes ensures Reach(g2, {}, x, m) {
      if m != x {
        var P :| IsPath(g, {}, P, root, m);
        PathWithin(g, g2, P, root, m);
        ReachTrans(g2, {}, x, root, m);
      } else {
        ReachRefl(g2, {}, x);
      }
    }
  }

  /** Removing a node other than the root that has no children keeps a tree. */
  lemma TreeRemoveLeaf<ND, ED>(g: GraphState<ND, ED>, root: NodeID, m: NodeID)
    requires g.Valid() && TreeShaped(g, root)
    requires m in g.nodes && m != root
    requires forall x | x in g.edges :: g.edges[x].tail != m
    ensures g.RemoveNode(m).Ok? && TreeShaped(g.RemoveNode(m).value, root)
  {
    var g2 := g.RemoveNode(m).value;
    forall n | n in g2.nodes ensures Reach(g2, {}, root, n) {
      var P :| IsPath(g, {}, P, root, n);
      PathOffNode(g, g2, P, root, n, m);
    }
    assert EdgesWithin(g2, g);
  }

  /** Removing a root that has exactly one out-edge leaves a tree rooted at that edge's head. */
  lemma TreeDropRoot<ND, ED>(g: GraphState<ND, ED>, root: NodeID, e: EdgeID)
    requires g.Valid() && TreeShaped(g, root)
    requires e in g.edges && g.edges[e].tail == root
    requires forall x | x in g.edges && g.edges[x].tail == root :: x == e
    ensures g.RemoveNode(root).Ok? && TreeShaped(g.RemoveNode(root).value, g.edges[e].head)
  {
    var c := g.edges[e].head;
    g.HeadHasEdge(e);
    var g2 := g.RemoveNode(root).value;
    forall n | n in g2.nodes ensures Reach(g2, {}, c, n) {
      var P :| IsPath(g, {}, P, root, n);
      assert P != [] && P[0] == e;
      PathOffNode(g, g2, P[1..], c, n, root);
    }
    assert EdgesWithin(g2, g);
    forall x | x in g2.edges ensures g2.edges[x].head != c {
      assert x in g.edges && x != e;
    }
  }

  /** Re-pointing the in-edge of a node to come from a node outside that node's subtree keeps a tree. */
  lemma TreeMoveSubtree<ND, ED>(g: GraphState<ND, ED>, g2: GraphState<ND, ED>, root: NodeID, e: EdgeID, p: NodeID)
    requires g.Valid() && TreeShaped(g, root)
    requires e in g.edges && p in g.nodes && !Reach(g, {}, g.edges[e].head, p)
    requires g2.nodes.Keys == g.nodes.Keys && AgreeOff(g, g2, e)
    requires e in g2.edges && g2.edges[e].tail == p && g2.edges[e].head == g.edges[e].head
    ensures TreeShaped(g2, root)
  {
    var n := g.edges[e].head;
    g.HeadHasEdge(e);
    var ban := {} + {e};
    var Q :| IsPath(g, {}, Q, root, p);
    if e in Q {
      CutLast(g, {}, Q, root, p, e);
      ReachWiden(g, ban, {}, n, p);
      assert false;
    }
    PathAvoid(g, {}, Q, root, p, e);
    PathTransfer(g, g2, e, ban, Q, root, p);
    PathWiden(g2, ban, {}, Q, root, p);
    ReachStep(g2, {}, root, e);
    forall m | m in g2.nodes ensures Reach(g2, {}, root, m) {
      var P :| IsPath(g, {}, P, root, m);
      if e in P {
        CutLast(g, {}, P, root, m, e);
        var R :| IsPath(g, ban, R, n, m);
        PathTransfer(g, g2, e, ban, R, n, m);
        PathWiden(g2, ban, {}, R, n, m);
        ReachTrans(g2, {}, root, n, m);
      } else {
        PathAvoid(g, {}, P, root, m, e);
        PathTransfer(g, g2, e, ban, P, root, m);
        PathWiden(g2, ban, {}, P, root, m);
      }
    }
    forall x | x in g2.edges ensures g2.edges[x].head != root {
      assert x in g.edges;
    }
    forall x, y | x in g2.edges && y in g2.edges && g2.edges[x].head == g2.edges[y].head ensures x == y {
      assert x in g.edges && y in g.edges;
    }
  }
}
