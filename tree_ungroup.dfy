/**
 * `removeNodeUngrouping`: a node leaves the tree and its children take its
 * place. Below the root the children move one by one under the node's
 * parent (in order, at the node's own position, when the graph is ordered)
 * and the node, childless by then, is removed; the root may go only when
 * it has exactly one child, which becomes the root.
 */
module TreeUngroup {
  import opened GraphErrors
  import opened ElementIDs
  import opened EdgeSets
  import opened GraphModel
  import opened Paths
  import opened TreeShapes
  import opened TreeViews
  import opened TreeEdits

  /** Where the lifting starts: `n` is a non-root node of the tree, `p` its parent and `i` the position of its edge among the out-edges of `p`. */
  ghost predicate LiftFrom<ND, ED>(g: GraphState<ND, ED>, root: NodeID, n: NodeID, p: NodeID, i: nat) {
    && g.Valid() && TreeShaped(g, root) && n in g.nodes && n != root
    && Parent(g, n) == Ok(Some(p)) && (g.isOrdered ==> IndexOf(g, n) == Ok(Some(i)))
  }

  /**
   * `h` is the tree `g` after the first `k` children of `n` moved under
   * the parent `p` of `n`: their in-edges now leave `p`, the other
   * children still hang from `n`, no other out-list changed, and in an
   * ordered graph the moved edges sit in order at position `i`, just
   * before the edge of `n`.
   */
  ghost predicate Lifting<ND, ED>(g: GraphState<ND, ED>, h: GraphState<ND, ED>, root: NodeID, n: NodeID, p: NodeID, i: nat, k: nat)
    requires n in g.nodes && p in g.nodes
  {
    h.Valid() && TreeShaped(h, root) && LiftedStore(g, h, n, p, i, k)
  }

  /** `Lifting` behind a countdown of `d` steps (see `MoveChildAfter`), which keeps it unexpanded until `LiftingIs` writes it out. */
  ghost predicate LiftingAfter<ND, ED>(g: GraphState<ND, ED>, h: GraphState<ND, ED>, root: NodeID, n: NodeID, p: NodeID, i: nat, k: nat, d: nat)
    requires n in g.nodes && p in g.nodes
    decreases d
  {
    if d == 0 then Lifting(g, h, root, n, p, i, k) else LiftingAfter(g, h, root, n, p, i, k, d - 1)
  }

  /** `LiftingAfter`, written out. */
  lemma LiftingIs<ND, ED>(g: GraphState<ND, ED>, h: GraphState<ND, ED>, root: NodeID, n: NodeID, p: NodeID, i: nat, k: nat)
    requires n in g.nodes && p in g.nodes
    ensures LiftingAfter(g, h, root, n, p, i, k, k + 2) <==> Lifting(g, h, root, n, p, i, k)
  {
    LiftingCountdown(g, h, root, n, p, i, k, k + 2);
  }

  /** Every countdown ends in `Lifting` itself. */
  lemma {:induction false} LiftingCountdown<ND, ED>(g: GraphState<ND, ED>, h: GraphState<ND, ED>, root: NodeID, n: NodeID, p: NodeID, i: nat, k: nat, d: nat)
    requires n in g.nodes && p in g.nodes
    ensures LiftingAfter(g, h, root, n, p, i, k, d) == Lifting(g, h, root, n, p, i, k)
    decreases d
  {
    if d > 0 {
      LiftingCountdown(g, h, root, n, p, i, k, d - 1);
    }
  }

  /** The stores of `g` and `h` are as `Lifting` says, leaving the tree shape aside. */
  ghost predicate LiftedStore<ND, ED>(g: GraphState<ND, ED>, h: GraphState<ND, ED>, n: NodeID, p: NodeID, i: nat, k: nat)
    requires n in g.nodes && p in g.nodes
  {
    && g.SameNodesAs(h)
    && EdgesLifted(g.edges, h.edges, g.nodes[n].outEdges, p, k)
    && OutsLifted(g.nodes, h.nodes, g.isOrdered, n, p, i, k)
  }

  /** The first `k` edges of `E` now leave `p`; every other edge is as it was. */
  ghost predicate EdgesLifted<ED>(ge: map<EdgeID, Edge<ED>>, he: map<EdgeID, Edge<ED>>, E: seq<EdgeID>, p: NodeID, k: nat) {
    && k <= |E| && he.Keys == ge.Keys
    && (forall j | 0 <= j < k :: E[j] in ge && he[E[j]] == ge[E[j]].(tail := p))
    && (forall x | x in ge && x !in E[..k] :: he[x] == ge[x])
  }

  /** The out-lists after the first `k` children of `n` moved under `p`. */
  ghost predicate OutsLifted<ND>(gn: map<NodeID, Node<ND>>, hn: map<NodeID, Node<ND>>, ordered: bool, n: NodeID, p: NodeID, i: nat, k: nat)
    requires n in gn && p in gn
  {
    var E := gn[n].outEdges;
    var out := gn[p].outEdges;
    && k <= |E| && hn.Keys == gn.Keys
    && hn[n].outEdges == E[k..]
    && (forall m | m in gn && m != n && m != p :: hn[m].outEdges == gn[m].outEdges)
    && (ordered ==> i < |out| && hn[p].outEdges == out[..i] + E[..k] + out[i..])
  }

  /** The out-edges of a node in a valid store are distinct edges leaving it. */
  lemma OutEdgesOf<ND, ED>(g: GraphState<ND, ED>, n: NodeID)
    requires g.Valid() && n in g.nodes
    ensures Distinct(g.nodes[n].outEdges)
    ensures forall j | 0 <= j < |g.nodes[n].outEdges| :: g.nodes[n].outEdges[j] in g.edges && g.edges[g.nodes[n].outEdges[j]].tail == n
  {
    var E := g.nodes[n].outEdges;
    assert g.NodeValid(n);
    if !g.isOrdered {
      IncreasingIsDistinct(E);
    }
    forall j | 0 <= j < |E| ensures E[j] in g.edges && g.edges[E[j]].tail == n {
      assert E[j] in Elements(E);
    }
  }

  /** Nothing has moved yet. */
  lemma LiftStart<ND, ED>(g: GraphState<ND, ED>, root: NodeID, n: NodeID, p: NodeID, i: nat)
    requires LiftFrom(g, root, n, p, i)
    ensures p in g.nodes && Lifting(g, g, root, n, p, i, 0)
  {
    var out := g.nodes[p].outEdges;
    var E := g.nodes[n].outEdges;
    assert E[..0] == [] && E[0..] == E;
    if g.isOrdered {
      assert out[..i] + E[..0] + out[i..] == out;
    }
  }

  /** The move `removeNodeUngrouping` makes for the `k`-th child: at position `i + k` when the graph is ordered. */
  ghost function MoveChild<ND, ED>(g: GraphState<ND, ED>, h: GraphState<ND, ED>, root: NodeID, n: NodeID, p: NodeID, i: nat, k: nat): Result<GraphState<ND, ED>>
    requires h.Valid() && TreeShaped(h, root) && n in g.nodes && k < |g.nodes[n].outEdges| && g.nodes[n].outEdges[k] in g.edges
  {
    MoveChildAfter(g, h, root, n, p, i, k, k + 2)
  }

  /**
   * `MoveChild`, stated behind a countdown of `d` steps. Unless `d` is a
   * literal, the verifier expands a recursive definition only a step or
   * two at a time, so a proof that merely carries a lifted store around
   * does not expand the whole move; `MoveChildIs` expands it where a proof
   * needs it.
   */
  ghost function MoveChildAfter<ND, ED>(g: GraphState<ND, ED>, h: GraphState<ND, ED>, root: NodeID, n: NodeID, p: NodeID, i: nat, k: nat, d: nat): Result<GraphState<ND, ED>>
    requires h.Valid() && TreeShaped(h, root) && n in g.nodes && k < |g.nodes[n].outEdges| && g.nodes[n].outEdges[k] in g.edges
    decreases d
  {
    if d == 0 then
      var c := g.edges[g.nodes[n].outEdges[k]].head;
      if g.isOrdered then MovedAt(h, root, c, p, i + k) else Moved(h, root, c, p)
    else MoveChildAfter(g, h, root, n, p, i, k, d - 1)
  }

  /** The move of the `k`-th child, written out. */
  lemma MoveChildIs<ND, ED>(g: GraphState<ND, ED>, h: GraphState<ND, ED>, root: NodeID, n: NodeID, p: NodeID, i: nat, k: nat)
    requires h.Valid() && TreeShaped(h, root) && n in g.nodes && k < |g.nodes[n].outEdges| && g.nodes[n].outEdges[k] in g.edges
    ensures var c := g.edges[g.nodes[n].outEdges[k]].head;
      MoveChild(g, h, root, n, p, i, k) == if g.isOrdered then MovedAt(h, root, c, p, i + k) else Moved(h, root, c, p)
  {
    MoveChildCountdown(g, h, root, n, p, i, k, k + 2);
  }

  /** Every countdown ends in the move itself. */
  lemma {:induction false} MoveChildCountdown<ND, ED>(g: GraphState<ND, ED>, h: GraphState<ND, ED>, root: NodeID, n: NodeID, p: NodeID, i: nat, k: nat, d: nat)
    requires h.Valid() && TreeShaped(h, root) && n in g.nodes && k < |g.nodes[n].outEdges| && g.nodes[n].outEdges[k] in g.edges
    ensures MoveChildAfter(g, h, root, n, p, i, k, d) == MoveChildAfter(g, h, root, n, p, i, k, 0)
    decreases d
  {
    if d > 0 {
      MoveChildCountdown(g, h, root, n, p, i, k, d - 1);
    }
  }

  /** Before the `k`-th move the `k`-th child still hangs from `n` by its own edge, and cannot reach `p`. */
  lemma LiftReady<ND, ED>(g: GraphState<ND, ED>, h: GraphState<ND, ED>, root: NodeID, n: NodeID, p: NodeID, i: nat, k: nat)
    requires LiftFrom(g, root, n, p, i) && p in g.nodes && Lifting(g, h, root, n, p, i, k) && k < |g.nodes[n].outEdges|
    ensures g.nodes[n].outEdges[k] in g.edges && g.nodes[n].outEdges[k] in h.edges
    ensures var f := g.nodes[n].outEdges[k]; var c := g.edges[f].head;
      && h.edges[f] == g.edges[f] && g.edges[f].tail == n
      && c in h.nodes && c != root && c != n && c != p && p != n
      && InEdge(h, c) == Ok(Some(f)) && Parent(h, c) == Ok(Some(n)) && !Reach(h, {}, c, p)
  {
    var E := g.nodes[n].outEdges;
    OutEdgesOf(g, n);
    var f := E[k];
    assert f !in E[..k];
    var c := g.edges[f].head;
    assert h.edges[f] == g.edges[f];
    ParentUnreachable(g, root, n, p);
    ReachRefl(g, {}, n);
    InEdgeLeast(g, n);
    var en := InEdge(g, n).value.value;
    assert en in g.EdgesInto(n);
    assert en !in E[..k];
    assert h.edges[en] == g.edges[en];
    TreeParent(h, root, c);
    assert f in h.EdgesInto(c);
    ReachRefl(h, {}, p);
    ReachStep(h, {}, p, en);
    AncestorUnreachable(h, root, f, p);
    ReachRefl(h, {}, c);
    ReachRefl(h, {}, n);
    AncestorUnreachable(h, root, f, n);
  }

  /** The edge map after one more move. */
  lemma LiftEdgesNext<ED>(ge: map<EdgeID, Edge<ED>>, he: map<EdgeID, Edge<ED>>, h2e: map<EdgeID, Edge<ED>>, E: seq<EdgeID>, p: NodeID, k: nat)
    requires Distinct(E) && k < |E| && E[k] in ge && EdgesLifted(ge, he, E, p, k)
    requires h2e == he[E[k] := ge[E[k]].(tail := p)]
    ensures EdgesLifted(ge, h2e, E, p, k + 1)
  {
    assert E[..k + 1] == E[..k] + [E[k]];
  }

  /** The out-lists after one more move. */
  lemma LiftOutsNext<ND>(gn: map<NodeID, Node<ND>>, hn: map<NodeID, Node<ND>>, h2n: map<NodeID, Node<ND>>, ordered: bool, n: NodeID, p: NodeID, i: nat, k: nat)
    requires n in gn && p in gn && p != n && OutsLifted(gn, hn, ordered, n, p, i, k) && k < |gn[n].outEdges|
    requires Distinct(gn[n].outEdges) && h2n.Keys == hn.Keys
    requires forall m | m in hn && m != p && m != n :: h2n[m].outEdges == hn[m].outEdges
    requires h2n[n].outEdges == Without(hn[n].outEdges, gn[n].outEdges[k])
    requires ordered ==> var r := h2n[p].outEdges;
      Distinct(r) && FirstIndex(r, gn[n].outEdges[k]) == Ok(i + k) && Without(r, gn[n].outEdges[k]) == hn[p].outEdges
    ensures OutsLifted(gn, h2n, ordered, n, p, i, k + 1)
  {
    var E := gn[n].outEdges;
    DropFirst(E, k);
    if ordered {
      PlaceNext(gn[p].outEdges, E, i, k, h2n[p].outEdges);
    }
  }

  /** In an ordered graph, the `k`-th moved edge lands right after the ones moved before it. */
  lemma PlaceNext(out: seq<EdgeID>, E: seq<EdgeID>, i: nat, k: nat, r: seq<EdgeID>)
    requires i <= |out| && k < |E|
    requires Distinct(r) && FirstIndex(r, E[k]) == Ok(i + k) && Without(r, E[k]) == out[..i] + E[..k] + out[i..]
    ensures r == out[..i] + E[..k + 1] + out[i..]
  {
    var a := out[..i] + E[..k];
    var b := out[i..];
    SplitJoin(a, b);
    PlacedAt(r, a + b, E[k], i + k);
    JoinNext(out, E, i, k, r);
  }

  lemma SplitJoin(a: seq<EdgeID>, b: seq<EdgeID>)
    ensures (a + b)[..|a|] == a && (a + b)[|a|..] == b
  {
  }

  lemma JoinNext(out: seq<EdgeID>, E: seq<EdgeID>, i: nat, k: nat, r: seq<EdgeID>)
    requires i <= |out| && k < |E|
    requires r == out[..i] + E[..k] + [E[k]] + out[i..]
    ensures r == out[..i] + E[..k + 1] + out[i..]
  {
    assert E[..k + 1] == E[..k] + [E[k]];
  }

  /** Dropping the first of a list without repeats leaves the rest. */
  lemma DropFirst(E: seq<EdgeID>, k: nat)
    requires Distinct(E) && k < |E|
    ensures Without(E[k..], E[k]) == E[k + 1..]
  {
    var s := E[k..];
    assert Distinct(s);
    WithoutAt(s, 0);
    assert s[..0] + s[1..] == E[k + 1..];
  }

  /** The lifting invariant after the `k`-th child's edge was re-pointed to `p`, whichever operation did it. */
  lemma LiftNext<ND, ED>(g: GraphState<ND, ED>, h: GraphState<ND, ED>, h2: GraphState<ND, ED>, n: NodeID, p: NodeID, i: nat, k: nat)
    requires n in g.nodes && p in g.nodes && p != n && LiftedStore(g, h, n, p, i, k) && k < |g.nodes[n].outEdges|
    requires Distinct(g.nodes[n].outEdges) && g.nodes[n].outEdges[k] in g.edges && g.nodes[n].outEdges[k] in h.edges
    requires h.edges[g.nodes[n].outEdges[k]] == g.edges[g.nodes[n].outEdges[k]]
    requires h.SameNodesAs(h2)
    requires h2.edges == h.edges[g.nodes[n].outEdges[k] := h.edges[g.nodes[n].outEdges[k]].(tail := p)]
    requires forall m | m in h.nodes && m != p && m != n :: h2.nodes[m].outEdges == h.nodes[m].outEdges
    requires h2.nodes[n].outEdges == Without(h.nodes[n].outEdges, g.nodes[n].outEdges[k])
    requires g.isOrdered ==> var r := h2.nodes[p].outEdges;
      Distinct(r) && FirstIndex(r, g.nodes[n].outEdges[k]) == Ok(i + k) && Without(r, g.nodes[n].outEdges[k]) == h.nodes[p].outEdges
    ensures LiftedStore(g, h2, n, p, i, k + 1)
  {
    LiftEdgesNext(g.edges, h.edges, h2.edges, g.nodes[n].outEdges, p, k);
    LiftOutsNext(g.nodes, h.nodes, h2.nodes, g.isOrdered, n, p, i, k);
  }

  /** An edge whose tail is not `p` is not among the out-edges of `p`. */
  lemma NotOut<ND, ED>(h: GraphState<ND, ED>, p: NodeID, f: EdgeID)
    requires h.Valid() && p in h.nodes && f in h.edges && h.edges[f].tail != p
    ensures f !in h.nodes[p].outEdges && Without(h.nodes[p].outEdges, f) == h.nodes[p].outEdges
  {
    assert h.NodeValid(p);
    assert f !in h.EdgesFrom(p);
    WithoutAbsent(h.nodes[p].outEdges, f);
  }

  /** One more move keeps the lifting invariant. */
  lemma LiftStep<ND, ED>(g: GraphState<ND, ED>, h: GraphState<ND, ED>, root: NodeID, n: NodeID, p: NodeID, i: nat, k: nat)
    requires LiftFrom(g, root, n, p, i) && p in g.nodes && Lifting(g, h, root, n, p, i, k) && k < |g.nodes[n].outEdges|
    ensures h.Valid() && TreeShaped(h, root) && g.nodes[n].outEdges[k] in g.edges
    ensures MoveChild(g, h, root, n, p, i, k).Ok?
    ensures Lifting(g, MoveChild(g, h, root, n, p, i, k).value, root, n, p, i, k + 1)
  {
    LiftReady(g, h, root, n, p, i, k);
    OutEdgesOf(g, n);
    MoveChildIs(g, h, root, n, p, i, k);
    if g.isOrdered {
      LiftStepOrdered(g, h, root, n, p, i, k);
    } else {
      LiftStepUnordered(g, h, root, n, p, i, k);
    }
  }

  lemma LiftStepUnordered<ND, ED>(g: GraphState<ND, ED>, h: GraphState<ND, ED>, root: NodeID, n: NodeID, p: NodeID, i: nat, k: nat)
    requires LiftFrom(g, root, n, p, i) && p in g.nodes && Lifting(g, h, root, n, p, i, k) && k < |g.nodes[n].outEdges|
    requires !g.isOrdered && Distinct(g.nodes[n].outEdges)
    requires g.nodes[n].outEdges[k] in g.edges && g.nodes[n].outEdges[k] in h.edges
    requires var f := g.nodes[n].outEdges[k]; var c := g.edges[f].head;
      && h.edges[f] == g.edges[f] && g.edges[f].tail == n
      && c in h.nodes && c != root && c != n && c != p && p != n
      && InEdge(h, c) == Ok(Some(f)) && Parent(h, c) == Ok(Some(n)) && !Reach(h, {}, c, p)
    ensures Moved(h, root, g.edges[g.nodes[n].outEdges[k]].head, p).Ok?
    ensures Lifting(g, Moved(h, root, g.edges[g.nodes[n].outEdges[k]].head, p).value, root, n, p, i, k + 1)
  {
    var f := g.nodes[n].outEdges[k];
    var c := g.edges[f].head;
    MovedRehung(h, root, c, p);
    var h2 := Moved(h, root, c, p).value;
    assert Rehung(h, h2, root, c, p);
    LiftNext(g, h, h2, n, p, i, k);
  }

  lemma LiftStepOrdered<ND, ED>(g: GraphState<ND, ED>, h: GraphState<ND, ED>, root: NodeID, n: NodeID, p: NodeID, i: nat, k: nat)
    requires LiftFrom(g, root, n, p, i) && p in g.nodes && Lifting(g, h, root, n, p, i, k) && k < |g.nodes[n].outEdges|
    requires g.isOrdered && Distinct(g.nodes[n].outEdges)
    requires g.nodes[n].outEdges[k] in g.edges && g.nodes[n].outEdges[k] in h.edges
    requires var f := g.nodes[n].outEdges[k]; var c := g.edges[f].head;
      && h.edges[f] == g.edges[f] && g.edges[f].tail == n
      && c in h.nodes && c != root && c != n && c != p && p != n
      && InEdge(h, c) == Ok(Some(f)) && Parent(h, c) == Ok(Some(n)) && !Reach(h, {}, c, p)
    ensures MovedAt(h, root, g.edges[g.nodes[n].outEdges[k]].head, p, i + k).Ok?
    ensures Lifting(g, MovedAt(h, root, g.edges[g.nodes[n].outEdges[k]].head, p, i + k).value, root, n, p, i, k + 1)
  {
    var E := g.nodes[n].outEdges;
    var out := g.nodes[p].outEdges;
    var f := E[k];
    var c := g.edges[f].head;
    assert |h.nodes[p].outEdges| == |out| + k;
    MovedAtRehung(h, root, c, p, i + k);
    var h2 := MovedAt(h, root, c, p, i + k).value;
    assert Rehung(h, h2, root, c, p);
    NotOut(h, p, f);
    assert h2.NodeValid(p);
    LiftNext(g, h, h2, n, p, i, k);
  }

  /** The tree after the first `k` children of `n` moved under its parent. */
  ghost function Lifted<ND, ED>(g: GraphState<ND, ED>, root: NodeID, n: NodeID, p: NodeID, i: nat, k: nat): (h: GraphState<ND, ED>)
    requires LiftFrom(g, root, n, p, i) && k <= |g.nodes[n].outEdges|
    ensures p in g.nodes && LiftingAfter(g, h, root, n, p, i, k, k + 2)
    decreases k
  {
    if k == 0 then
      LiftStart(g, root, n, p, i);
      LiftingIs(g, g, root, n, p, i, 0);
      g
    else
      var h := Lifted(g, root, n, p, i, k - 1);
      LiftedStep(g, h, root, n, p, i, k - 1);
      MoveChild(g, h, root, n, p, i, k - 1).value
  }

  /** `LiftStep` stated on the countdown forms that `Lifted` carries. */
  lemma LiftedStep<ND, ED>(g: GraphState<ND, ED>, h: GraphState<ND, ED>, root: NodeID, n: NodeID, p: NodeID, i: nat, k: nat)
    requires LiftFrom(g, root, n, p, i) && p in g.nodes && k < |g.nodes[n].outEdges|
    requires LiftingAfter(g, h, root, n, p, i, k, k + 2)
    ensures h.Valid() && TreeShaped(h, root) && g.nodes[n].outEdges[k] in g.edges
    ensures MoveChild(g, h, root, n, p, i, k).Ok?
    ensures LiftingAfter(g, MoveChild(g, h, root, n, p, i, k).value, root, n, p, i, k + 1, k + 3)
  {
    LiftingCountdown(g, h, root, n, p, i, k, k + 2);
    LiftStep(g, h, root, n, p, i, k);
    LiftingCountdown(g, MoveChild(g, h, root, n, p, i, k).value, root, n, p, i, k + 1, k + 3);
  }

  /** Once every child has moved, `n` is a childless non-root node: no edge leaves it. */
  lemma LiftedLeaf<ND, ED>(g: GraphState<ND, ED>, h: GraphState<ND, ED>, root: NodeID, n: NodeID, p: NodeID, i: nat)
    requires n in g.nodes && p in g.nodes && Lifting(g, h, root, n, p, i, |g.nodes[n].outEdges|)
    ensures n in h.nodes && forall x | x in h.edges :: h.edges[x].tail != n
  {
    var E := g.nodes[n].outEdges;
    assert h.nodes[n].outEdges == [];
    assert h.NodeValid(n);
    EmptyElements(h.nodes[n].outEdges);
    assert h.EdgesFrom(n) == {};
    assert forall x | x in h.edges :: x !in h.EdgesFrom(n);
  }

  /** Removing the childless non-root `n` once every child has moved leaves a tree with the same root. */
  lemma LiftedAll<ND, ED>(g: GraphState<ND, ED>, h: GraphState<ND, ED>, root: NodeID, n: NodeID, p: NodeID, i: nat)
    requires n in g.nodes && n != root && p in g.nodes && Lifting(g, h, root, n, p, i, |g.nodes[n].outEdges|)
    ensures h.RemoveNode(n).Ok? && TreeShaped(h.RemoveNode(n).value, root)
  {
    LiftedLeaf(g, h, root, n, p, i);
    TreeRemoveLeaf(h, root, n);
  }

  /** The position of the edge of `n` among its parent's out-edges, in an ordered graph; 0 otherwise. */
  ghost function SlotOf<ND, ED>(g: GraphState<ND, ED>, n: NodeID): nat
    requires g.Valid()
  {
    if g.isOrdered && IndexOf(g, n).Ok? && IndexOf(g, n).value.Some? then IndexOf(g, n).value.value else 0
  }

  /** A non-root node of a tree is where the lifting of its children starts. */
  lemma UngroupStart<ND, ED>(g: GraphState<ND, ED>, root: NodeID, n: NodeID)
    requires g.Valid() && TreeShaped(g, root) && n in g.nodes && n != root
    ensures Parent(g, n).Ok? && Parent(g, n).value.Some?
    ensures LiftFrom(g, root, n, Parent(g, n).value.value, SlotOf(g, n))
  {
    TreeParent(g, root, n);
    InEdgeLeast(g, n);
  }

  /**
   * `removeNodeUngrouping` on a tree: the result is the new tree and its
   * root. Removing the root needs it to have exactly one child, which
   * becomes the root; any other node hands its children, in order, to its
   * parent and is then removed.
   */
  ghost function Ungrouped<ND, ED>(g: GraphState<ND, ED>, root: NodeID, n: NodeID): (r: Result<(GraphState<ND, ED>, NodeID)>)
    requires g.Valid() && TreeShaped(g, root)
    ensures n == root ==> (r.Ok? <==> |g.nodes[root].outEdges| == 1)
    ensures n != root ==> (r.Ok? <==> n in g.nodes)
    ensures r.Err? ==> r.error == (if n == root then NotATree else NotFound)
    ensures r.Ok? ==> r.value.0.Valid() && TreeShaped(r.value.0, r.value.1) && r.value.0.nodes.Keys == g.nodes.Keys - {n}
    ensures r.Ok? && n != root ==> r.value.1 == root
  {
    if n == root then
      var cs := Children(g, root).value;
      if |cs| != 1 then Err(NotATree)
      else
        OnlyChild(g, root);
        Ok((g.RemoveNode(root).value, cs[0]))
    else if n !in g.nodes then Err(NotFound)
    else
      UngroupStart(g, root, n);
      var p := Parent(g, n).value.value;
      var i := SlotOf(g, n);
      LiftingIs(g, Lifted(g, root, n, p, i, |g.nodes[n].outEdges|), root, n, p, i, |g.nodes[n].outEdges|);
      LiftedAll(g, Lifted(g, root, n, p, i, |g.nodes[n].outEdges|), root, n, p, i);
      Ok((Lifted(g, root, n, p, i, |g.nodes[n].outEdges|).RemoveNode(n).value, root))
  }

  /** A root with one out-edge: that edge alone leaves it, its head is the only child, and removing the root leaves a tree under that child. */
  lemma OnlyChild<ND, ED>(g: GraphState<ND, ED>, root: NodeID)
    requires g.Valid() && TreeShaped(g, root) && |g.nodes[root].outEdges| == 1
    ensures var e := g.nodes[root].outEdges[0];
      && e in g.edges && g.edges[e].tail == root
      && (forall x | x in g.edges && g.edges[x].tail == root :: x == e)
      && Children(g, root) == Ok([g.edges[e].head])
      && g.RemoveNode(root).Ok? && TreeShaped(g.RemoveNode(root).value, g.edges[e].head)
  {
    var out := g.nodes[root].outEdges;
    var e := out[0];
    assert g.NodeValid(root);
    assert e in Elements(out);
    assert Elements(out) == {e};
    assert forall x | x in g.edges && g.edges[x].tail == root :: x in g.EdgesFrom(root);
    assert g.Heads([e]) == [g.edges[e].head];
    TreeDropRoot(g, root, e);
  }

  /** Removing nodes, and edges that enter only removed nodes or nodes of `moved`, leaves every other node's parent as it was. */
  lemma ParentsKept<ND, ED>(g: GraphState<ND, ED>, g2: GraphState<ND, ED>, moved: set<NodeID>)
    requires g.Valid() && g2.Valid() && g2.nodes.Keys <= g.nodes.Keys
    requires forall z | z in g.edges && g.edges[z].head in g2.nodes && g.edges[z].head !in moved :: z in g2.edges && g2.edges[z] == g.edges[z]
    requires forall z | z in g2.edges && g2.edges[z].head !in moved :: z in g.edges && g.edges[z] == g2.edges[z]
    ensures forall m | m in g2.nodes && m !in moved :: Parent(g2, m) == Parent(g, m)
  {
    forall m | m in g2.nodes && m !in moved ensures Parent(g2, m) == Parent(g, m) {
      forall z | z in g2.EdgesInto(m) ensures z in g.EdgesInto(m) {
      }
      forall z | z in g.EdgesInto(m) ensures z in g2.EdgesInto(m) {
      }
      SameParent(g, g2, m);
    }
  }

  /**
   * `removeNodeUngrouping` of the root: its only child becomes the root,
   * the edge to it goes with the root, and every other node keeps its
   * parent and its data.
   */
  lemma UngroupedRoot<ND, ED>(g: GraphState<ND, ED>, root: NodeID)
    requires g.Valid() && TreeShaped(g, root) && |g.nodes[root].outEdges| == 1
    ensures Ungrouped(g, root, root).Ok?
    ensures var (g2, c) := Ungrouped(g, root, root).value; var e := g.nodes[root].outEdges[0];
      && e in g.edges && c == g.edges[e].head && Children(g, root) == Ok([c])
      && (forall m | m in g2.nodes :: g2.nodes[m].data == g.nodes[m].data)
      && g2.edges == (map x | x in g.edges && x != e :: g.edges[x])
      && Parent(g2, c) == Ok(None)
      && (forall m | m in g2.nodes && m != c :: Parent(g2, m) == Parent(g, m))
  {
    OnlyChild(g, root);
    var e := g.nodes[root].outEdges[0];
    var (g2, c) := Ungrouped(g, root, root).value;
    assert forall x | x in g.edges :: g.edges[x].head != root;
    DropOnly(g.edges, g2.edges, root, e);
    TreeParent(g2, c, c);
    ParentsKept(g, g2, {c});
  }

  /** Removing a node that no edge enters and that only `e` leaves removes `e` alone. */
  lemma DropOnly<ED>(ge: map<EdgeID, Edge<ED>>, g2e: map<EdgeID, Edge<ED>>, n: NodeID, e: EdgeID)
    requires e in ge && ge[e].tail == n
    requires forall x | x in ge :: ge[x].head != n
    requires forall x | x in ge && ge[x].tail == n :: x == e
    requires g2e == map x | x in ge && ge[x].tail != n && ge[x].head != n :: ge[x]
    ensures g2e == map x | x in ge && x != e :: ge[x]
  {
  }

  /** One node's parent after its in-edge may have been re-pointed from `n` to `p`. */
  lemma RetailedParent<ND, ED>(g: GraphState<ND, ED>, g2: GraphState<ND, ED>, n: NodeID, p: NodeID, en: EdgeID, m: NodeID)
    requires g.Valid() && g2.Valid() && m in g2.nodes && m in g.nodes && m != n
    requires en in g.edges && g.edges[en].head == n && Regrouped(g.edges, g2.edges, n, p, en)
    ensures Parent(g2, m) == if Parent(g, m) == Ok(Some(n)) then Ok(Some(p)) else Parent(g, m)
  {
    forall z | z in g2.EdgesInto(m) ensures z in g.EdgesInto(m) {
    }
    forall z | z in g.EdgesInto(m) ensures z in g2.EdgesInto(m) {
    }
    assert g.NodeValid(m) && g2.NodeValid(m);
    IncreasingUnique(g.nodes[m].inEdges, g2.nodes[m].inEdges);
    InEdgeLeast(g, m);
    InEdgeLeast(g2, m);
  }

  /** The edges touching `n`: `en` is the only one entering it, and those of `E` are the ones leaving it. */
  ghost predicate Touching<ED>(ge: map<EdgeID, Edge<ED>>, n: NodeID, en: EdgeID, E: seq<EdgeID>) {
    && en in ge && en !in E && ge[en].head == n
    && (forall x | x in ge :: (ge[x].tail == n <==> x in Elements(E)))
    && (forall x | x in ge && x != en :: ge[x].head != n)
  }

  /** The edges once `n` is ungrouped: `en` is gone, and the edges that left `n` now leave `p`. */
  ghost predicate Regrouped<ED>(ge: map<EdgeID, Edge<ED>>, g2e: map<EdgeID, Edge<ED>>, n: NodeID, p: NodeID, en: EdgeID) {
    && g2e.Keys == ge.Keys - {en}
    && forall x | x in g2e :: g2e[x] == if ge[x].tail == n then ge[x].(tail := p) else ge[x]
  }

  /** The edge map once the lifted node is removed, on any maps. */
  lemma RemovedLifted<ED>(ge: map<EdgeID, Edge<ED>>, he: map<EdgeID, Edge<ED>>, g2e: map<EdgeID, Edge<ED>>, E: seq<EdgeID>, n: NodeID, p: NodeID, en: EdgeID)
    requires EdgesLifted(ge, he, E, p, |E|) && Touching(ge, n, en, E)
    requires forall x | x in he :: he[x].tail != n
    requires g2e == map x | x in he && he[x].tail != n && he[x].head != n :: he[x]
    ensures Regrouped(ge, g2e, n, p, en)
  {
    assert E[..|E|] == E;
    forall x | x in ge ensures he[x] == if ge[x].tail == n then ge[x].(tail := p) else ge[x] {
      if x in E {
        var j :| 0 <= j < |E| && E[j] == x;
      }
    }
    forall x ensures x in g2e <==> x in ge && x != en {
      if x in ge {
        assert he[x].head == ge[x].head;
      }
    }
  }

  /** Removing `n` from a store where no edge leaves it any more. */
  lemma RemoveLifted<ND, ED>(g: GraphState<ND, ED>, h: GraphState<ND, ED>, E: seq<EdgeID>, n: NodeID, p: NodeID, en: EdgeID)
    requires h.Valid() && n in h.nodes && EdgesLifted(g.edges, h.edges, E, p, |E|) && Touching(g.edges, n, en, E)
    requires forall x | x in h.edges :: h.edges[x].tail != n
    ensures h.RemoveNode(n).Ok? && Regrouped(g.edges, h.RemoveNode(n).value.edges, n, p, en)
  {
    RemovedLifted(g.edges, h.edges, h.RemoveNode(n).value.edges, E, n, p, en);
  }

  /** The edges after the lifted node is removed: its in-edge is gone and the edges to its children leave its parent. */
  lemma LiftedEdges<ND, ED>(g: GraphState<ND, ED>, h: GraphState<ND, ED>, root: NodeID, n: NodeID, p: NodeID, i: nat, en: EdgeID)
    requires LiftFrom(g, root, n, p, i) && InEdge(g, n) == Ok(Some(en)) && p in g.nodes && Lifting(g, h, root, n, p, i, |g.nodes[n].outEdges|)
    ensures h.Valid() && h.RemoveNode(n).Ok? && Regrouped(g.edges, h.RemoveNode(n).value.edges, n, p, en)
  {
    NodeEdges(g, root, n, p, en);
    LiftedLeaf(g, h, root, n, p, i);
    RemoveLifted(g, h, g.nodes[n].outEdges, n, p, en);
  }

  /** In a tree, the edges touching a non-root node `n` are its in-edge `en` and its out-edges. */
  lemma NodeEdges<ND, ED>(g: GraphState<ND, ED>, root: NodeID, n: NodeID, p: NodeID, en: EdgeID)
    requires g.Valid() && TreeShaped(g, root) && n in g.nodes && n != root
    requires Parent(g, n) == Ok(Some(p)) && InEdge(g, n) == Ok(Some(en))
    ensures Touching(g.edges, n, en, g.nodes[n].outEdges) && g.edges[en].tail == p && p != n
  {
    TreeParent(g, root, n);
    ParentUnreachable(g, root, n, p);
    ReachRefl(g, {}, n);
    assert en in g.EdgesInto(n);
    assert g.NodeValid(n);
    assert forall x | x in g.edges :: (g.edges[x].tail == n <==> x in Elements(g.nodes[n].outEdges));
    assert forall x | x in g.edges :: (g.edges[x].head == n <==> x in g.EdgesInto(n));
  }

  /**
   * `removeNodeUngrouping` below the root: the root stays, `n` and its
   * in-edge go, the edges to its children now leave its parent `p`, so the
   * children of `n` become children of `p`; every other node keeps its
   * parent and its data.
   */
  lemma UngroupedBelow<ND, ED>(g: GraphState<ND, ED>, root: NodeID, n: NodeID)
    requires g.Valid() && TreeShaped(g, root) && n in g.nodes && n != root
    ensures Ungrouped(g, root, n).Ok? && Ungrouped(g, root, n).value.1 == root
    ensures Parent(g, n).Ok? && Parent(g, n).value.Some? && InEdge(g, n).Ok? && InEdge(g, n).value.Some?
    ensures var g2 := Ungrouped(g, root, n).value.0; var en := InEdge(g, n).value.value;
      && en in g.edges && g.edges[en].head == n
      && (forall m | m in g2.nodes :: g2.nodes[m].data == g.nodes[m].data)
      && Regrouped(g.edges, g2.edges, n, Parent(g, n).value.value, en)
  {
    UngroupStart(g, root, n);
    TreeParent(g, root, n);
    var p := Parent(g, n).value.value;
    var i := SlotOf(g, n);
    var en := InEdge(g, n).value.value;
    var h := Lifted(g, root, n, p, i, |g.nodes[n].outEdges|);
    LiftingIs(g, h, root, n, p, i, |g.nodes[n].outEdges|);
    LiftedEdges(g, h, root, n, p, i, en);
    NodeEdges(g, root, n, p, en);
  }

  /** After `removeNodeUngrouping` below the root, the children of `n` are children of its parent and every other node keeps its parent. */
  lemma UngroupedParents<ND, ED>(g: GraphState<ND, ED>, root: NodeID, n: NodeID)
    requires g.Valid() && TreeShaped(g, root) && n in g.nodes && n != root
    ensures Ungrouped(g, root, n).Ok? && Parent(g, n).Ok? && Parent(g, n).value.Some?
    ensures var g2 := Ungrouped(g, root, n).value.0;
      forall m | m in g2.nodes :: Parent(g2, m) == if Parent(g, m) == Ok(Some(n)) then Ok(Some(Parent(g, n).value.value)) else Parent(g, m)
  {
    UngroupedBelow(g, root, n);
    var g2 := Ungrouped(g, root, n).value.0;
    var p := Parent(g, n).value.value;
    var en := InEdge(g, n).value.value;
    forall m | m in g2.nodes ensures Parent(g2, m) == if Parent(g, m) == Ok(Some(n)) then Ok(Some(p)) else Parent(g, m) {
      RetailedParent(g, g2, n, p, en, m);
    }
  }

  /** Dropping the edge at position `i` of `out` after `E` was inserted there. */
  lemma DropAfter(out: seq<EdgeID>, E: seq<EdgeID>, i: nat, s: seq<EdgeID>)
    requires i < |out| && s == out[..i] + E + out[i..] && Distinct(s)
    ensures Without(s, out[i]) == out[..i] + E + out[i + 1..]
  {
    var j := i + |E|;
    assert s[j] == out[i];
    WithoutAt(s, j);
    assert s[..j] == out[..i] + E;
    assert s[j + 1..] == out[i + 1..];
  }

  /** The parent's out-list once the lifted edges sit before `en` and the edges surviving in `g2e` are kept: `en` alone is gone. */
  lemma SpliceOut<ED>(out: seq<EdgeID>, E: seq<EdgeID>, i: nat, s: seq<EdgeID>, keys: set<EdgeID>, g2e: map<EdgeID, Edge<ED>>, en: EdgeID)
    requires i < |out| && out[i] == en && s == out[..i] + E + out[i..] && Distinct(s)
    requires (forall j | 0 <= j < |s| :: s[j] in keys) && g2e.Keys == keys - {en}
    ensures Keep(s, x => x in g2e) == out[..i] + E + out[i + 1..]
  {
    KeepAgree(s, x => x in g2e, y => y != en);
    WithoutIsKeep(s, en);
    DropAfter(out, E, i, s);
  }

  /** Once every out-edge of `n` is lifted, the parent's out-list holds them all at slot `i`. */
  lemma OutsDone<ND>(gn: map<NodeID, Node<ND>>, hn: map<NodeID, Node<ND>>, n: NodeID, p: NodeID, i: nat)
    requires n in gn && p in gn && OutsLifted(gn, hn, true, n, p, i, |gn[n].outEdges|)
    ensures p in hn && i < |gn[p].outEdges|
    ensures hn[p].outEdges == gn[p].outEdges[..i] + gn[n].outEdges + gn[p].outEdges[i..]
  {
    var E := gn[n].outEdges;
    assert E[..|E|] == E;
  }

  /** In an ordered tree the slot of `n` is where its in-edge sits among its parent's out-edges. */
  lemma SlotEdge<ND, ED>(g: GraphState<ND, ED>, root: NodeID, n: NodeID, p: NodeID, i: nat, en: EdgeID)
    requires LiftFrom(g, root, n, p, i) && InEdge(g, n) == Ok(Some(en)) && g.isOrdered
    ensures p in g.nodes && p != n && i < |g.nodes[p].outEdges| && g.nodes[p].outEdges[i] == en
  {
    NodeEdges(g, root, n, p, en);
  }

  /** The out-list of the parent once the lifted node is removed, in an ordered graph. */
  lemma LiftedOrder<ND, ED>(g: GraphState<ND, ED>, h: GraphState<ND, ED>, n: NodeID, p: NodeID, i: nat, en: EdgeID)
    requires n in g.nodes && p in g.nodes && p != n && i < |g.nodes[p].outEdges| && g.nodes[p].outEdges[i] == en
    requires OutsLifted(g.nodes, h.nodes, true, n, p, i, |g.nodes[n].outEdges|)
    requires h.Valid() && h.edges.Keys == g.edges.Keys
    requires h.RemoveNode(n).Ok? && h.RemoveNode(n).value.edges.Keys == g.edges.Keys - {en}
    ensures p in h.RemoveNode(n).value.nodes
    ensures var out := g.nodes[p].outEdges;
      h.RemoveNode(n).value.nodes[p].outEdges == out[..i] + g.nodes[n].outEdges + out[i + 1..]
  {
    var out := g.nodes[p].outEdges;
    var E := g.nodes[n].outEdges;
    var s := h.nodes[p].outEdges;
    var g2 := h.RemoveNode(n).value;
    OutsDone(g.nodes, h.nodes, n, p, i);
    OutEdgesOf(h, p);
    assert g2.nodes[p].outEdges == Keep(s, x => x in g2.edges);
    SpliceOut(out, E, i, s, h.edges.Keys, g2.edges, en);
  }

  /**
   * `removeNodeUngrouping` below the root of an ordered tree: the out-edges
   * of `n`, in their order, take the place of the in-edge of `n` among its
   * parent's out-edges.
   */
  lemma UngroupedOuts<ND, ED>(g: GraphState<ND, ED>, root: NodeID, n: NodeID)
    requires g.Valid() && TreeShaped(g, root) && n in g.nodes && n != root && g.isOrdered
    ensures Ungrouped(g, root, n).Ok? && Parent(g, n).Ok? && Parent(g, n).value.Some? && IndexOf(g, n).Ok? && IndexOf(g, n).value.Some?
    ensures var g2 := Ungrouped(g, root, n).value.0; var p := Parent(g, n).value.value; var i := IndexOf(g, n).value.value;
      var out := g.nodes[p].outEdges;
      && p in g2.nodes && i < |out|
      && g2.nodes[p].outEdges == out[..i] + g.nodes[n].outEdges + out[i + 1..]
  {
    UngroupStart(g, root, n);
    var p := Parent(g, n).value.value;
    var i := SlotOf(g, n);
    var en := InEdge(g, n).value.value;
    var h := Lifted(g, root, n, p, i, |g.nodes[n].outEdges|);
    LiftingIs(g, h, root, n, p, i, |g.nodes[n].outEdges|);
    LiftedEdges(g, h, root, n, p, i, en);
    SlotEdge(g, root, n, p, i, en);
    LiftedOrder(g, h, n, p, i, en);
    assert IndexOf(g, n).value.value == i;
    assert Ungrouped(g, root, n).value.0 == h.RemoveNode(n).value;
  }

  /**
   * `removeNodeUngrouping` below the root of an ordered tree: the children
   * of `n`, in their order, take the place of `n` among its parent's
   * children.
   */
  lemma UngroupedOrder<ND, ED>(g: GraphState<ND, ED>, root: NodeID, n: NodeID)
    requires g.Valid() && TreeShaped(g, root) && n in g.nodes && n != root && g.isOrdered
    ensures Ungrouped(g, root, n).Ok? && Parent(g, n).Ok? && Parent(g, n).value.Some? && IndexOf(g, n).Ok? && IndexOf(g, n).value.Some?
    ensures var g2 := Ungrouped(g, root, n).value.0; var p := Parent(g, n).value.value; var i := IndexOf(g, n).value.value;
      && p in g2.nodes && i < |Children(g, p).value|
      && Children(g2, p).value == Children(g, p).value[..i] + Children(g, n).value + Children(g, p).value[i + 1..]
  {
    UngroupedOuts(g, root, n);
    UngroupedBelow(g, root, n);
    var g2 := Ungrouped(g, root, n).value.0;
    var p := Parent(g, n).value.value;
    ChildrenAfter(g, g2, n, p, IndexOf(g, n).value.value, InEdge(g, n).value.value);
  }

  /** The children of a node are the heads of its out-edges, position by position. */
  lemma ChildrenHeads<ND, ED>(g: GraphState<ND, ED>, n: NodeID)
    requires g.Valid() && n in g.nodes
    ensures var out := g.nodes[n].outEdges;
      && Children(g, n).Ok? && |Children(g, n).value| == |out|
      && forall k | 0 <= k < |out| :: out[k] in g.edges && Children(g, n).value[k] == g.edges[out[k]].head
  {
    var out := g.nodes[n].outEdges;
    assert g.NodeValid(n);
    assert forall k | 0 <= k < |out| :: out[k] in Elements(out);
  }

  /** Splicing out-lists splices their heads, when the regrouped edges keep their heads. */
  lemma SpliceHeads<ED>(ge: map<EdgeID, Edge<ED>>, g2e: map<EdgeID, Edge<ED>>, n: NodeID, p: NodeID, en: EdgeID,
                        out: seq<EdgeID>, E: seq<EdgeID>, r: seq<EdgeID>, i: nat,
                        cs: seq<NodeID>, ds: seq<NodeID>, cs2: seq<NodeID>)
    requires Regrouped(ge, g2e, n, p, en)
    requires i < |out| && r == out[..i] + E + out[i + 1..]
    requires |cs| == |out| && forall k | 0 <= k < |out| :: out[k] in ge && cs[k] == ge[out[k]].head
    requires |ds| == |E| && forall k | 0 <= k < |E| :: E[k] in ge && ds[k] == ge[E[k]].head
    requires |cs2| == |r| && forall k | 0 <= k < |r| :: r[k] in g2e && cs2[k] == g2e[r[k]].head
    ensures cs2 == cs[..i] + ds + cs[i + 1..]
  {
    forall x | x in g2e ensures g2e[x].head == ge[x].head {}
    var want := cs[..i] + ds + cs[i + 1..];
    forall k | 0 <= k < |r| ensures cs2[k] == want[k] {
      if k < i {
        assert r[k] == out[k];
      } else if k < i + |E| {
        assert r[k] == E[k - i];
      } else {
        assert r[k] == out[k - |E| + 1];
      }
    }
  }

  /** The children of `p` follow its out-list: each edge keeps its head. */
  lemma ChildrenAfter<ND, ED>(g: GraphState<ND, ED>, g2: GraphState<ND, ED>, n: NodeID, p: NodeID, i: nat, en: EdgeID)
    requires g.Valid() && g2.Valid() && n in g.nodes && p in g.nodes && p in g2.nodes && i < |g.nodes[p].outEdges|
    requires g2.nodes[p].outEdges == g.nodes[p].outEdges[..i] + g.nodes[n].outEdges + g.nodes[p].outEdges[i + 1..]
    requires Regrouped(g.edges, g2.edges, n, p, en)
    ensures Children(g2, p).value == Children(g, p).value[..i] + Children(g, n).value + Children(g, p).value[i + 1..]
  {
    ChildrenHeads(g, p);
    ChildrenHeads(g, n);
    ChildrenHeads(g2, p);
    SpliceHeads(g.edges, g2.edges, n, p, en, g.nodes[p].outEdges, g.nodes[n].outEdges, g2.nodes[p].outEdges, i,
                Children(g, p).value, Children(g, n).value, Children(g2, p).value);
  }
}
