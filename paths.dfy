/**
 * Paths, reachability and cycles in a graph store: the reference notions
 * the search algorithms (path search, tree test, topological sort) are
 * proved against. A path is the sequence of edges it follows, so parallel
 * edges and self-loops are told apart.
 */
module Paths {
  import opened GraphErrors
  import opened ElementIDs
  import opened EdgeSets
  import opened GraphModel

  /** `p` leads from `a` to `b` through edges of `g` none of which is in `ban`. */
  ghost predicate IsPath<ND, ED>(g: GraphState<ND, ED>, ban: set<EdgeID>, p: seq<EdgeID>, a: NodeID, b: NodeID)
    decreases |p|
  {
    if p == [] then a == b
    else
      p[0] in g.edges && p[0] !in ban && g.edges[p[0]].tail == a
      && IsPath(g, ban, p[1..], g.edges[p[0]].head, b)
  }

  ghost predicate Reach<ND, ED>(g: GraphState<ND, ED>, ban: set<EdgeID>, a: NodeID, b: NodeID) {
    exists p :: IsPath(g, ban, p, a, b)
  }

  /** A closed walk of at least one edge. */
  ghost predicate HasCycle<ND, ED>(g: GraphState<ND, ED>) {
    exists p, a :: p != [] && IsPath(g, {}, p, a, a)
  }

  /**
   * The edges a search rooted at `root` leaves out when `excluded` names an
   * edge: only that edge, and only when it leaves the root.
   */
  ghost function RootBan<ND, ED>(g: GraphState<ND, ED>, excluded: Option<EdgeID>, root: NodeID): set<EdgeID> {
    if excluded.Some? && excluded.value in g.edges && g.edges[excluded.value].tail == root
    then {excluded.value} else {}
  }

  /**
   * A node has a tree shape under `root`: the root exists, every node is
   * reachable from it, no edge enters the root and no two edges enter the
   * same node (so every other node has exactly one parent).
   */
  ghost predicate TreeShaped<ND, ED>(g: GraphState<ND, ED>, root: NodeID) {
    && root in g.nodes
    && (forall n | n in g.nodes :: Reach(g, {}, root, n))
    && (forall e | e in g.edges :: g.edges[e].head != root)
    && (forall e, f | e in g.edges && f in g.edges && g.edges[e].head == g.edges[f].head :: e == f)
  }

  // ------------------------------------------------------------------
  // Path algebra
  // ------------------------------------------------------------------

  lemma ReachRefl<ND, ED>(g: GraphState<ND, ED>, ban: set<EdgeID>, a: NodeID)
    ensures Reach(g, ban, a, a)
  {
    assert IsPath(g, ban, [], a, a);
  }

  lemma {:induction false} PathAppend<ND, ED>(g: GraphState<ND, ED>, ban: set<EdgeID>, p: seq<EdgeID>, q: seq<EdgeID>, a: NodeID, b: NodeID, c: NodeID)
    requires IsPath(g, ban, p, a, b) && IsPath(g, ban, q, b, c)
    ensures IsPath(g, ban, p + q, a, c)
    decreases |p|
  {
    if p == [] {
      assert p + q == q;
    } else {
      PathAppend(g, ban, p[1..], q, g.edges[p[0]].head, b, c);
      assert (p + q)[1..] == p[1..] + q;
    }
  }

  lemma ReachTrans<ND, ED>(g: GraphState<ND, ED>, ban: set<EdgeID>, a: NodeID, b: NodeID, c: NodeID)
    requires Reach(g, ban, a, b) && Reach(g, ban, b, c)
    ensures Reach(g, ban, a, c)
  {
    var p :| IsPath(g, ban, p, a, b);
    var q :| IsPath(g, ban, q, b, c);
    PathAppend(g, ban, p, q, a, b, c);
  }

  /** A single usable edge is a path. */
  lemma EdgePath<ND, ED>(g: GraphState<ND, ED>, ban: set<EdgeID>, e: EdgeID)
    requires e in g.edges && e !in ban
    ensures IsPath(g, ban, [e], g.edges[e].tail, g.edges[e].head)
  {
    assert IsPath(g, ban, [e][1..], g.edges[e].head, g.edges[e].head);
  }

  lemma ReachStep<ND, ED>(g: GraphState<ND, ED>, ban: set<EdgeID>, a: NodeID, e: EdgeID)
    requires e in g.edges && e !in ban && Reach(g, ban, a, g.edges[e].tail)
    ensures Reach(g, ban, a, g.edges[e].head)
  {
    EdgePath(g, ban, e);
    ReachTrans(g, ban, a, g.edges[e].tail, g.edges[e].head);
  }

  /** Banning fewer edges keeps every path. */
  lemma {:induction false} PathWiden<ND, ED>(g: GraphState<ND, ED>, ban: set<EdgeID>, fewer: set<EdgeID>, p: seq<EdgeID>, a: NodeID, b: NodeID)
    requires fewer <= ban && IsPath(g, ban, p, a, b)
    ensures IsPath(g, fewer, p, a, b)
    decreases |p|
  {
    if p != [] {
      PathWiden(g, ban, fewer, p[1..], g.edges[p[0]].head, b);
    }
  }

  lemma ReachWiden<ND, ED>(g: GraphState<ND, ED>, ban: set<EdgeID>, fewer: set<EdgeID>, a: NodeID, b: NodeID)
    requires fewer <= ban && Reach(g, ban, a, b)
    ensures Reach(g, fewer, a, b)
  {
    var p :| IsPath(g, ban, p, a, b);
    PathWiden(g, ban, fewer, p, a, b);
  }

  /** A set closed under the usable edges holds everything reachable from its members. */
  lemma {:induction false} ClosedPath<ND, ED>(g: GraphState<ND, ED>, ban: set<EdgeID>, s: set<NodeID>, p: seq<EdgeID>, a: NodeID, b: NodeID)
    requires forall e | e in g.edges && e !in ban && g.edges[e].tail in s :: g.edges[e].head in s
    requires a in s && IsPath(g, ban, p, a, b)
    ensures b in s
    decreases |p|
  {
    if p != [] {
      ClosedPath(g, ban, s, p[1..], g.edges[p[0]].head, b);
    }
  }

  lemma ClosedReach<ND, ED>(g: GraphState<ND, ED>, ban: set<EdgeID>, s: set<NodeID>, a: NodeID, b: NodeID)
    requires forall e | e in g.edges && e !in ban && g.edges[e].tail in s :: g.edges[e].head in s
    requires a in s && Reach(g, ban, a, b)
    ensures b in s
  {
    var p :| IsPath(g, ban, p, a, b);
    ClosedPath(g, ban, s, p, a, b);
  }

  /** In a valid store a path starting at a missing node is empty. */
  lemma ReachFromMissing<ND, ED>(g: GraphState<ND, ED>, ban: set<EdgeID>, a: NodeID, b: NodeID)
    requires g.Valid() && a !in g.nodes && Reach(g, ban, a, b)
    ensures a == b
  {
    var p :| IsPath(g, ban, p, a, b);
    if p != [] {
      g.TailHasEdge(p[0]);
    }
  }

  /** The last edge of a non-empty path enters its end. */
  lemma {:induction false} PathLast<ND, ED>(g: GraphState<ND, ED>, ban: set<EdgeID>, p: seq<EdgeID>, a: NodeID, b: NodeID)
    requires IsPath(g, ban, p, a, b) && p != []
    ensures p[|p| - 1] in g.edges && g.edges[p[|p| - 1]].head == b
    ensures exists e :: e in g.edges && g.edges[e].head == b
    decreases |p|
  {
    if |p| > 1 {
      PathLast(g, ban, p[1..], g.edges[p[0]].head, b);
      assert p[1..][|p[1..]| - 1] == p[|p| - 1];
    }
    var e := p[|p| - 1];
    assert e in g.edges && g.edges[e].head == b;
  }

  /** A path ending at a node no edge enters is empty. */
  lemma NoEntryPath<ND, ED>(g: GraphState<ND, ED>, ban: set<EdgeID>, p: seq<EdgeID>, a: NodeID, b: NodeID)
    requires IsPath(g, ban, p, a, b)
    requires forall e | e in g.edges :: g.edges[e].head != b
    ensures p == [] && a == b
  {
    if p != [] {
      PathLast(g, ban, p, a, b);
      assert false;
    }
  }

  /** Every edge of `g2` is an edge of `g` with the same ends. */
  ghost predicate EdgesWithin<ND, ED>(g2: GraphState<ND, ED>, g: GraphState<ND, ED>) {
    forall x | x in g2.edges :: x in g.edges && g.edges[x].tail == g2.edges[x].tail && g.edges[x].head == g2.edges[x].head
  }

  lemma {:induction false} PathWithin<ND, ED>(g2: GraphState<ND, ED>, g: GraphState<ND, ED>, p: seq<EdgeID>, a: NodeID, b: NodeID)
    requires EdgesWithin(g2, g) && IsPath(g2, {}, p, a, b)
    ensures IsPath(g, {}, p, a, b)
    decreases |p|
  {
    if p != [] {
      var x := p[0];
      assert x in g2.edges;
      assert x in g.edges && g.edges[x].tail == a && g.edges[x].head == g2.edges[x].head;
      PathWithin(g2, g, p[1..], g2.edges[x].head, b);
    }
  }

  /** Dropping edges, or keeping them with other data, cannot create a cycle. */
  lemma SubgraphAcyclic<ND, ED>(g2: GraphState<ND, ED>, g: GraphState<ND, ED>)
    requires EdgesWithin(g2, g) && !HasCycle(g)
    ensures !HasCycle(g2)
  {
    if HasCycle(g2) {
      var p, a :| p != [] && IsPath(g2, {}, p, a, a);
      PathWithin(g2, g, p, a, a);
    }
  }

  /** An edge from `t` back to a node `h` that reaches `t` closes a cycle. */
  lemma BackEdgeCycle<ND, ED>(g: GraphState<ND, ED>, e: EdgeID)
    requires e in g.edges && Reach(g, {}, g.edges[e].head, g.edges[e].tail)
    ensures HasCycle(g)
  {
    var x := g.edges[e];
    var p :| IsPath(g, {}, p, x.head, x.tail);
    EdgePath(g, {}, e);
    PathAppend(g, {}, [e], p, x.tail, x.head, x.tail);
    assert [e] + p != [];
  }

  // ------------------------------------------------------------------
  // Orders that rank the edges
  // ------------------------------------------------------------------

  /**
   * `order` lists nodes heads-first: whenever an edge leaves a listed node,
   * its head is listed strictly earlier.
   */
  ghost predicate HeadsFirst<ND, ED>(g: GraphState<ND, ED>, order: seq<NodeID>) {
    forall i, e | 0 <= i < |order| && e in g.edges && g.edges[e].tail == order[i] :: g.edges[e].head in order[..i]
  }

  lemma {:induction false} HeadsFirstPath<ND, ED>(g: GraphState<ND, ED>, order: seq<NodeID>, i: nat, p: seq<EdgeID>, b: NodeID)
    requires HeadsFirst(g, order) && i < |order|
    requires p != [] && IsPath(g, {}, p, order[i], b)
    ensures b in order[..i]
    decreases |p|
  {
    var e := p[0];
    var h := g.edges[e].head;
    assert e in g.edges && g.edges[e].tail == order[i];
    assert h in order[..i];
    var j :| 0 <= j < i && order[j] == h;
    if p[1..] == [] {
      assert b == h;
    } else {
      HeadsFirstPath(g, order, j, p[1..], b);
      assert order[..j] == order[..i][..j];
    }
  }

  /** A duplicate-free heads-first listing of every node rules out cycles. */
  lemma HeadsFirstAcyclic<ND, ED>(g: GraphState<ND, ED>, order: seq<NodeID>)
    requires g.Valid() && Distinct(order) && HeadsFirst(g, order)
    requires forall n | n in g.nodes :: n in order
    ensures !HasCycle(g)
  {
    if HasCycle(g) {
      var p, a :| p != [] && IsPath(g, {}, p, a, a);
      g.TailHasEdge(p[0]);
      var i :| 0 <= i < |order| && order[i] == a;
      HeadsFirstPath(g, order, i, p, a);
      assert false;
    }
  }

  // ------------------------------------------------------------------
  // Graphs that differ in one edge
  // ------------------------------------------------------------------

  /** `g` and `g2` have the same edges, with the same ends, except possibly edge `e`. */
  ghost predicate AgreeOff<ND, ED>(g: GraphState<ND, ED>, g2: GraphState<ND, ED>, e: EdgeID) {
    forall x | x != e ::
      (x in g.edges <==> x in g2.edges)
      && (x in g.edges ==> g.edges[x].tail == g2.edges[x].tail && g.edges[x].head == g2.edges[x].head)
  }

  /** A path that avoids `e` is a path in any graph that agrees off `e`. */
  lemma {:induction false} PathTransfer<ND, ED>(g: GraphState<ND, ED>, g2: GraphState<ND, ED>, e: EdgeID,
                                                ban: set<EdgeID>, p: seq<EdgeID>, a: NodeID, b: NodeID)
    requires AgreeOff(g, g2, e) && e in ban && IsPath(g, ban, p, a, b)
    ensures IsPath(g2, ban, p, a, b)
    decreases |p|
  {
    if p != [] {
      assert p[0] != e;
      PathTransfer(g, g2, e, ban, p[1..], g.edges[p[0]].head, b);
    }
  }

  /** A path that does not use `e` also avoids it when `e` is banned. */
  lemma {:induction false} PathAvoid<ND, ED>(g: GraphState<ND, ED>, ban: set<EdgeID>, p: seq<EdgeID>, a: NodeID, b: NodeID, e: EdgeID)
    requires IsPath(g, ban, p, a, b) && e !in p
    ensures IsPath(g, ban + {e}, p, a, b)
    decreases |p|
  {
    if p != [] {
      PathAvoid(g, ban, p[1..], g.edges[p[0]].head, b, e);
    }
  }

  /** Banning an edge the graph does not have changes nothing. */
  lemma {:induction false} PathBanAbsent<ND, ED>(g: GraphState<ND, ED>, ban: set<EdgeID>, p: seq<EdgeID>, a: NodeID, b: NodeID, e: EdgeID)
    requires IsPath(g, ban, p, a, b) && e !in g.edges
    ensures IsPath(g, ban + {e}, p, a, b)
    decreases |p|
  {
    if p != [] {
      PathBanAbsent(g, ban, p[1..], g.edges[p[0]].head, b, e);
    }
  }

  /** The part of a path before its first use of `e` reaches the tail of `e` without it. */
  lemma {:induction false} CutFirst<ND, ED>(g: GraphState<ND, ED>, ban: set<EdgeID>, p: seq<EdgeID>, a: NodeID, b: NodeID, e: EdgeID)
    requires IsPath(g, ban, p, a, b) && e in p && e in g.edges
    ensures Reach(g, ban + {e}, a, g.edges[e].tail)
    decreases |p|
  {
    if p[0] == e {
      assert IsPath(g, ban + {e}, [], a, a);
    } else {
      var x := p[0];
      assert e in p[1..];
      CutFirst(g, ban, p[1..], g.edges[x].head, b, e);
      EdgePath(g, ban + {e}, x);
      ReachTrans(g, ban + {e}, a, g.edges[x].head, g.edges[e].tail);
    }
  }

  /** The part of a path after its last use of `e` leads from the head of `e` without it. */
  lemma {:induction false} CutLast<ND, ED>(g: GraphState<ND, ED>, ban: set<EdgeID>, p: seq<EdgeID>, a: NodeID, b: NodeID, e: EdgeID)
    requires IsPath(g, ban, p, a, b) && e in p && e in g.edges
    ensures Reach(g, ban + {e}, g.edges[e].head, b)
    decreases |p|
  {
    var x := p[0];
    if e in p[1..] {
      CutLast(g, ban, p[1..], g.edges[x].head, b, e);
    } else {
      assert x == e;
      PathAvoid(g, ban, p[1..], g.edges[x].head, b, e);
    }
  }

  /**
   * Re-pointing one edge `e` of an acyclic graph so that it leads from `t`
   * to `h` creates a cycle exactly when `h` already reaches `t` without `e`.
   */
  lemma RepointCycle<ND, ED>(g: GraphState<ND, ED>, g2: GraphState<ND, ED>, e: EdgeID)
    requires AgreeOff(g, g2, e) && e in g2.edges && !HasCycle(g)
    ensures HasCycle(g2) <==> Reach(g, {e}, g2.edges[e].head, g2.edges[e].tail)
  {
    var t, h := g2.edges[e].tail, g2.edges[e].head;
    assert AgreeOff(g2, g, e);
    if Reach(g, {e}, h, t) {
      var q :| IsPath(g, {e}, q, h, t);
      PathTransfer(g, g2, e, {e}, q, h, t);
      PathWiden(g2, {e}, {}, q, h, t);
      EdgePath(g2, {}, e);
      PathAppend(g2, {}, [e], q, t, h, t);
      assert [e] + q != [];
    }
    if HasCycle(g2) {
      var p, a :| p != [] && IsPath(g2, {}, p, a, a);
      if e in p {
        CutFirst(g2, {}, p, a, a, e);
        CutLast(g2, {}, p, a, a, e);
        assert {} + {e} == {e};
        ReachTrans(g2, {e}, h, a, t);
        var q :| IsPath(g2, {e}, q, h, t);
        PathTransfer(g2, g, e, {e}, q, h, t);
      } else {
        PathAvoid(g2, {}, p, a, a, e);
        assert {} + {e} == {e};
        PathTransfer(g2, g, e, {e}, p, a, a);
        PathWiden(g, {e}, {}, p, a, a);
        assert false;
      }
    }
  }

  /** Adding edge `e` from `t` to `h` to an acyclic graph creates a cycle exactly when `h` reaches `t`. */
  lemma NewEdgeCycle<ND, ED>(g: GraphState<ND, ED>, e: EdgeID, t: NodeID, h: NodeID, d: ED)
    requires g.Valid() && !HasCycle(g) && g.NewEdge(e, t, h, d).Ok?
    ensures HasCycle(g.NewEdge(e, t, h, d).value) <==> Reach(g, {}, h, t)
  {
    var g2 := g.NewEdge(e, t, h, d).value;
    RepointCycle(g, g2, e);
    if Reach(g, {}, h, t) {
      var p :| IsPath(g, {}, p, h, t);
      PathBanAbsent(g, {}, p, h, t, e);
      assert {} + {e} == {e};
    }
    if Reach(g, {e}, h, t) {
      ReachWiden(g, {e}, {}, h, t);
    }
  }

  /** Moving edge `e` of an acyclic graph to lead from `t` to `h` creates a cycle exactly when `h` reaches `t` without `e`. */
  lemma MoveEdgeCycle<ND, ED>(g: GraphState<ND, ED>, e: EdgeID, t: NodeID, h: NodeID)
    requires g.Valid() && !HasCycle(g) && g.MoveEdge(e, t, h).Ok?
    ensures HasCycle(g.MoveEdge(e, t, h).value) <==> Reach(g, {e}, h, t)
  {
    RepointCycle(g, g.MoveEdge(e, t, h).value, e);
  }
}
