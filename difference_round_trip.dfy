/**
 * Replaying `b.difference(from: a)` onto `a` rebuilds `b`. The proof runs on
 * snapshots (node data by id and the edge map): each group of the difference
 * touches its own ids one at a time, so a whole group has a closed-form
 * effect, and the seven effects in turn take `a`'s snapshot to `b`'s. A
 * sorted store is determined by its snapshot, so there the replayed store is
 * `b` itself.
 */
module DiffRoundTrip {
  import opened GraphErrors
  import opened ElementIDs
  import opened EdgeSets
  import opened SetOrder
  import opened GraphModel
  import opened GraphDiff
  import opened DiffReplay

  /** Mutations replayed on a snapshot; `None` once one does not apply. */
  ghost function Run<ND, ED>(s: Snap<ND, ED>, ms: seq<Mutation<ND, ED>>): Option<Snap<ND, ED>>
    decreases |ms|
  {
    if ms == [] then Some(s)
    else if !Applicable(s, ms[0]) then None
    else Run(Effect(s, ms[0]), ms[1..])
  }

  /** Replaying on the store passes exactly when replaying on its snapshot
    * does, and then ends in the store whose snapshot the snapshot replay gives. */
  lemma {:induction false} ReplayRuns<ND, ED>(g: GraphState<ND, ED>, ms: seq<Mutation<ND, ED>>)
    requires g.Valid()
    ensures (Replay(g, ms).0 == Pass) == Run(SnapOf(g), ms).Some?
    ensures Run(SnapOf(g), ms).Some? ==> SnapOf(Replay(g, ms).1) == Run(SnapOf(g), ms).value
    decreases |ms|
  {
    if ms != [] {
      var r := Mutated(g, ms[0]);
      if r.Ok? {
        ReplayRuns(r.value, ms[1..]);
      }
    }
  }

  /** A replay in two parts: the second part runs on what the first left. */
  lemma {:induction false} RunAppend<ND, ED>(s: Snap<ND, ED>, xs: seq<Mutation<ND, ED>>, ys: seq<Mutation<ND, ED>>)
    ensures Run(s, xs + ys) == if Run(s, xs).None? then None else Run(Run(s, xs).value, ys)
    decreases |xs|
  {
    if xs == [] {
      assert xs + ys == ys;
    } else {
      assert (xs + ys)[0] == xs[0] && (xs + ys)[1..] == xs[1..] + ys;
      if Applicable(s, xs[0]) {
        RunAppend(Effect(s, xs[0]), xs[1..], ys);
      }
    }
  }

  /** What group `k` needs of the snapshot `s` it starts from, for the ids `ts`
    * of target snapshot `t`: new ids absent, updated ids present, new ends
    * present, and no remaining edge at a node about to go. */
  ghost predicate Ready<ND, ED>(k: Kind, s: Snap<ND, ED>, ts: set<int>, t: Snap<ND, ED>) {
    match k
    case NodesEntering => forall x | x in ts :: x !in s.data && x in t.data
    case NodesUpdating => forall x | x in ts :: x in s.data && x in t.data
    case EdgesEntering =>
      forall x | x in ts :: x !in s.edges && x in t.edges && t.edges[x].tail in s.data && t.edges[x].head in s.data
    case EdgesUpdating => forall x | x in ts :: x in s.edges && x in t.edges
    case EdgesMoving =>
      forall x | x in ts :: x in s.edges && x in t.edges && t.edges[x].tail in s.data && t.edges[x].head in s.data
    case EdgesExiting => forall x | x in ts :: x in s.edges
    case NodesExiting =>
      (forall x | x in ts :: x in s.data) &&
      forall e | e in s.edges :: s.edges[e].tail !in ts && s.edges[e].head !in ts
  }

  /** The snapshot after group `k` has handled the ids `ts`, each given the
    * data or ends target `t` has for it. */
  ghost function GroupEffect<ND, ED>(k: Kind, s: Snap<ND, ED>, ts: set<int>, t: Snap<ND, ED>): Snap<ND, ED> {
    match k
    case NodesEntering => Snap(s.data + DataFor(ts, t), s.edges)
    case NodesUpdating => Snap(s.data + DataFor(ts, t), s.edges)
    case EdgesEntering => Snap(s.data, s.edges + map x | x in ts && x in t.edges :: t.edges[x])
    case EdgesUpdating =>
      Snap(s.data, s.edges + map x | x in ts && x in s.edges && x in t.edges :: s.edges[x].(data := t.edges[x].data))
    case EdgesMoving =>
      Snap(s.data, s.edges + map x | x in ts && x in s.edges && x in t.edges :: Edge(t.edges[x].tail, t.edges[x].head, s.edges[x].data))
    case EdgesExiting => Snap(s.data, s.edges - ts)
    case NodesExiting => Snap(s.data - ts, s.edges)
  }

  /** The data written for the ids `ts`: target `t`'s entries. */
  ghost function DataFor<ND, ED>(ts: set<int>, t: Snap<ND, ED>): map<NodeID, ND> {
    map x | x in ts && x in t.data :: t.data[x]
  }

  /** A group that is ready for some ids is ready for fewer. */
  lemma ReadyFewer<ND, ED>(k: Kind, s: Snap<ND, ED>, ts: set<int>, us: set<int>, t: Snap<ND, ED>)
    requires ts <= us && Ready(k, s, us, t)
    ensures Ready(k, s, ts, t)
  {
  }

  lemma NodeDataStep<ND, ED>(s: Snap<ND, ED>, ts: set<int>, x: int, t: Snap<ND, ED>)
    requires x in t.data
    ensures (s.data + DataFor(ts, t))[x := t.data[x]] == s.data + DataFor(ts + {x}, t)
  {
  }

  lemma EnteringEdgeStep<ND, ED>(s: Snap<ND, ED>, ts: set<int>, x: int, t: Snap<ND, ED>)
    requires Ready(EdgesEntering, s, ts + {x}, t) && x !in ts
    ensures var u := GroupEffect(EdgesEntering, s, ts, t);
      var m: Mutation<ND, ED> := NewEdge(x, t.edges[x].tail, t.edges[x].head, t.edges[x].data);
      Applicable(u, m) && Effect(u, m) == GroupEffect(EdgesEntering, s, ts + {x}, t)
  {
  }

  lemma UpdatingEdgeStep<ND, ED>(s: Snap<ND, ED>, ts: set<int>, x: int, t: Snap<ND, ED>)
    requires Ready(EdgesUpdating, s, ts + {x}, t) && x !in ts
    ensures var u := GroupEffect(EdgesUpdating, s, ts, t);
      var m: Mutation<ND, ED> := SetEdgeData(x, t.edges[x].data);
      Applicable(u, m) && Effect(u, m) == GroupEffect(EdgesUpdating, s, ts + {x}, t)
  {
    var u := GroupEffect(EdgesUpdating, s, ts, t);
    assert u.edges[x] == s.edges[x];
  }

  lemma MovingEdgeStep<ND, ED>(s: Snap<ND, ED>, ts: set<int>, x: int, t: Snap<ND, ED>)
    requires Ready(EdgesMoving, s, ts + {x}, t) && x !in ts
    ensures var u := GroupEffect(EdgesMoving, s, ts, t);
      var m: Mutation<ND, ED> := MoveEdge(x, t.edges[x].tail, t.edges[x].head);
      Applicable(u, m) && Effect(u, m) == GroupEffect(EdgesMoving, s, ts + {x}, t)
  {
    var u := GroupEffect(EdgesMoving, s, ts, t);
    assert u.edges[x] == s.edges[x];
  }

  lemma ExitingNodeStep<ND, ED>(s: Snap<ND, ED>, ts: set<int>, x: int, t: Snap<ND, ED>)
    requires Ready(NodesExiting, s, ts + {x}, t) && x !in ts
    ensures var u := GroupEffect(NodesExiting, s, ts, t);
      var m: Mutation<ND, ED> := RemoveNode(x);
      Applicable(u, m) && Effect(u, m) == GroupEffect(NodesExiting, s, ts + {x}, t)
  {
    var u := GroupEffect(NodesExiting, s, ts, t);
    var v := Effect(u, RemoveNode(x));
    forall e | e in s.edges ensures s.edges[e].tail != x && s.edges[e].head != x {
      assert s.edges[e].tail !in ts + {x} && s.edges[e].head !in ts + {x};
    }
    assert v.edges == s.edges;
  }

  /** One more id of a group: its mutation applies to what the earlier ids
    * left, and extends the group's effect by that id. */
  lemma GroupStep<ND, ED>(k: Kind, s: Snap<ND, ED>, ts: set<int>, x: int, b: GraphState<ND, ED>)
    requires Ready(k, s, ts + {x}, SnapOf(b)) && x !in ts
    ensures Needs(k, x, b)
    ensures Applicable(GroupEffect(k, s, ts, SnapOf(b)), Build(k, x, b))
    ensures Effect(GroupEffect(k, s, ts, SnapOf(b)), Build(k, x, b)) == GroupEffect(k, s, ts + {x}, SnapOf(b))
  {
    var t := SnapOf(b);
    match k
    case NodesEntering =>
      assert Build(k, x, b) == NewNode(x, t.data[x]);
      NodeDataStep(s, ts, x, t);
    case NodesUpdating =>
      assert Build(k, x, b) == SetNodeData(x, t.data[x]);
      NodeDataStep(s, ts, x, t);
    case EdgesEntering =>
      EnteringEdgeStep(s, ts, x, t);
    case EdgesUpdating =>
      UpdatingEdgeStep(s, ts, x, t);
    case EdgesMoving =>
      MovingEdgeStep(s, ts, x, t);
    case EdgesExiting =>
      assert GroupEffect(k, s, ts + {x}, t).edges == (s.edges - ts) - {x};
    case NodesExiting =>
      ExitingNodeStep(s, ts, x, t);
  }

  /** A group's replay extended by one more id. */
  lemma GroupExtends<ND, ED>(k: Kind, s: Snap<ND, ED>, pre: seq<Mutation<ND, ED>>, ts: set<int>, x: int, us: set<int>, b: GraphState<ND, ED>)
    requires Run(s, pre) == Some(GroupEffect(k, s, ts, SnapOf(b)))
    requires Ready(k, s, us, SnapOf(b)) && us == ts + {x} && x !in ts
    ensures Needs(k, x, b)
    ensures Run(s, pre + [Build(k, x, b)]) == Some(GroupEffect(k, s, us, SnapOf(b)))
  {
    GroupStep(k, s, ts, x, b);
    RunAppend(s, pre, [Build(k, x, b)]);
  }

  /** A whole group, its ids in increasing order, has its closed-form effect. */
  lemma {:induction false} GroupRuns<ND, ED>(k: Kind, s: Snap<ND, ED>, ids: seq<int>, b: GraphState<ND, ED>)
    requires Increasing(ids) && Ready(k, s, Elements(ids), SnapOf(b))
    requires forall i | 0 <= i < |ids| :: Needs(k, ids[i], b)
    ensures Run(s, Group(k, ids, b)) == Some(GroupEffect(k, s, Elements(ids), SnapOf(b)))
    decreases |ids|
  {
    if ids == [] {
      assert Elements(ids) == {};
      assert GroupEffect(k, s, {}, SnapOf(b)) == s;
    } else {
      var n := |ids| - 1;
      var init, x := ids[..n], ids[n];
      assert ids == init + [x];
      var ts := Elements(init);
      assert Elements(ids) == ts + {x};
      assert x !in ts;
      ReadyFewer(k, s, ts, Elements(ids), SnapOf(b));
      GroupRuns(k, s, init, b);
      GroupExtends(k, s, Group(k, init, b), ts, x, Elements(ids), b);
    }
  }

  /** One group of `b.difference(from: a)` has its closed-form effect. */
  lemma StageRuns<ND, ED>(k: Kind, s: Snap<ND, ED>, a: GraphState<ND, ED>, b: GraphState<ND, ED>)
    requires Ready(k, s, Ids(a, b, k), SnapOf(b))
    ensures Run(s, Stage(a, b, k)) == Some(GroupEffect(k, s, Ids(a, b, k), SnapOf(b)))
  {
    var ids := SortedElements(Ids(a, b, k));
    GroupRuns(k, s, ids, b);
  }

  /** The snapshot after the first `r` groups of `b.difference(from: a)`. */
  ghost function Mid<ND, ED>(a: GraphState<ND, ED>, b: GraphState<ND, ED>, r: nat): Snap<ND, ED>
    requires r <= 7
  {
    if r == 0 then SnapOf(a)
    else GroupEffect(KindAt(r - 1), Mid(a, b, r - 1), Ids(a, b, KindAt(r - 1)), SnapOf(b))
  }

  /** After the node groups: every node of either graph, with `b`'s data where
    * `b` has the node; the edges are still `a`'s. */
  lemma NodesMerged<ND, ED>(a: GraphState<ND, ED>, b: GraphState<ND, ED>)
    ensures Mid(a, b, 1).edges == a.edges && Mid(a, b, 2).edges == a.edges
    ensures Mid(a, b, 1).data.Keys == Mid(a, b, 2).data.Keys == a.nodes.Keys + b.nodes.Keys
    ensures forall n | n in b.nodes :: Mid(a, b, 2).data[n] == b.nodes[n].data
  {
    var A, B := SnapOf(a), SnapOf(b);
    assert KindAt(0) == NodesEntering && KindAt(1) == NodesUpdating;
    assert Mid(a, b, 0) == A;
    var m1 := Mid(a, b, 1);
    assert m1 == GroupEffect(NodesEntering, A, b.nodes.Keys - a.nodes.Keys, B);
    var m2 := Mid(a, b, 2);
    assert m2.data == m1.data + DataFor(UpdatingNodes(a, b), B);
    forall n | n in b.nodes ensures m2.data[n] == b.nodes[n].data {
      assert B.data[n] == b.nodes[n].data;
      if n !in a.nodes {
        assert m1.data[n] == B.data[n];
      } else if n !in UpdatingNodes(a, b) {
        assert A.data[n] == a.nodes[n].data;
      }
    }
  }

  /** The edge groups leave the node data alone. */
  lemma DataSettled<ND, ED>(a: GraphState<ND, ED>, b: GraphState<ND, ED>, r: nat)
    requires 2 <= r <= 6
    ensures Mid(a, b, r).data == Mid(a, b, 2).data
  {
    if r > 2 {
      DataSettled(a, b, r - 1);
      assert KindAt(r - 1).Rank() == r - 1;
    }
  }

  /** After the new edges: `a`'s edges and `b`'s new ones. */
  lemma EdgesEntered<ND, ED>(a: GraphState<ND, ED>, b: GraphState<ND, ED>)
    ensures Mid(a, b, 3).edges.Keys == a.edges.Keys + b.edges.Keys
    ensures forall e | e in a.edges :: Mid(a, b, 3).edges[e] == a.edges[e]
    ensures forall e | e in b.edges && e !in a.edges :: Mid(a, b, 3).edges[e] == b.edges[e]
  {
    NodesMerged(a, b);
    assert KindAt(2) == EdgesEntering;
    assert Mid(a, b, 3) == GroupEffect(EdgesEntering, Mid(a, b, 2), b.edges.Keys - a.edges.Keys, SnapOf(b));
  }

  /** After the edge data updates: shared edges carry `b`'s data and still `a`'s ends. */
  lemma EdgesUpdated<ND, ED>(a: GraphState<ND, ED>, b: GraphState<ND, ED>)
    ensures Mid(a, b, 4).edges.Keys == a.edges.Keys + b.edges.Keys
    ensures forall e | e in a.edges && e in b.edges ::
      Mid(a, b, 4).edges[e] == Edge(a.edges[e].tail, a.edges[e].head, b.edges[e].data)
    ensures forall e | e in b.edges && e !in a.edges :: Mid(a, b, 4).edges[e] == b.edges[e]
  {
    EdgesEntered(a, b);
    assert KindAt(3) == EdgesUpdating;
    var m3 := Mid(a, b, 3);
    assert Mid(a, b, 4) == GroupEffect(EdgesUpdating, m3, UpdatingEdges(a, b), SnapOf(b));
  }

  /** After the moves: every edge of either graph, as `b` has it where `b` has it. */
  lemma EdgesMerged<ND, ED>(a: GraphState<ND, ED>, b: GraphState<ND, ED>)
    ensures Mid(a, b, 5).edges.Keys == a.edges.Keys + b.edges.Keys
    ensures forall e | e in b.edges :: Mid(a, b, 5).edges[e] == b.edges[e]
  {
    EdgesUpdated(a, b);
    assert KindAt(4) == EdgesMoving;
    var m4 := Mid(a, b, 4);
    assert Mid(a, b, 5) == GroupEffect(EdgesMoving, m4, MovingEdges(a, b), SnapOf(b));
  }

  /** After the removed edges, the edges are `b`'s. */
  lemma EdgesRebuilt<ND, ED>(a: GraphState<ND, ED>, b: GraphState<ND, ED>)
    ensures Mid(a, b, 6).edges == b.edges
  {
    EdgesMerged(a, b);
    assert KindAt(5) == EdgesExiting;
    var m5 := Mid(a, b, 5).edges;
    var m6 := Mid(a, b, 6).edges;
    assert m6 == m5 - (a.edges.Keys - b.edges.Keys);
    assert m6.Keys == b.edges.Keys;
    forall e | e in b.edges ensures m6[e] == b.edges[e] {
      assert m6[e] == m5[e];
    }
  }

  /** After the removed nodes, the snapshot is `b`'s. */
  lemma Rebuilt<ND, ED>(a: GraphState<ND, ED>, b: GraphState<ND, ED>)
    ensures Mid(a, b, 7) == SnapOf(b)
  {
    NodesMerged(a, b);
    DataSettled(a, b, 6);
    EdgesRebuilt(a, b);
    assert KindAt(6) == NodesExiting;
    var d2 := Mid(a, b, 2).data;
    var d7 := Mid(a, b, 7).data;
    assert d7 == d2 - (a.nodes.Keys - b.nodes.Keys);
    assert d7.Keys == DataOf(b).Keys;
    forall n | n in d7 ensures d7[n] == DataOf(b)[n] {
      assert d7[n] == d2[n];
    }
  }

  /** Each group of the difference finds the snapshot ready for it. */
  lemma MidReady<ND, ED>(a: GraphState<ND, ED>, b: GraphState<ND, ED>, r: nat)
    requires a.Valid() && b.Valid() && r < 7
    ensures Ready(KindAt(r), Mid(a, b, r), Ids(a, b, KindAt(r)), SnapOf(b))
  {
    NodesMerged(a, b);
    if r == 0 {
    } else if r == 1 {
    } else if r == 2 {
    } else if r == 3 {
      DataSettled(a, b, 3);
    } else if r == 4 {
      DataSettled(a, b, 4);
    } else if r == 5 {
      EdgesMerged(a, b);
    } else {
      DataSettled(a, b, 6);
      EdgesRebuilt(a, b);
    }
  }

  /** The first `r` groups, replayed on `a`'s snapshot, end in `Mid(a, b, r)`. */
  lemma {:induction false} UptoRuns<ND, ED>(a: GraphState<ND, ED>, b: GraphState<ND, ED>, r: nat)
    requires a.Valid() && b.Valid() && r <= 7
    ensures Run(SnapOf(a), Upto(a, b, r)) == Some(Mid(a, b, r))
  {
    if r > 0 {
      UptoRuns(a, b, r - 1);
      MidReady(a, b, r - 1);
      StageRuns(KindAt(r - 1), Mid(a, b, r - 1), a, b);
      RunAppend(SnapOf(a), Upto(a, b, r - 1), Stage(a, b, KindAt(r - 1)));
    }
  }

  /**
   * `applyingDifference(b.difference(from: a))` on `a` never throws and
   * gives a store with `b`'s nodes, node data and edges, keeping `a`'s
   * sorted or ordered mode; two sorted stores agreeing on those are equal,
   * so from a sorted `a` to a sorted `b` the replay rebuilds `b` exactly.
   */
  lemma DifferenceRoundTrip<ND, ED>(a: GraphState<ND, ED>, b: GraphState<ND, ED>)
    requires a.Valid() && b.Valid()
    ensures var (r, g) := Replay(a, DifferenceOf(a, b));
      r == Pass && g.Valid() && g.isOrdered == a.isOrdered && g.edges == b.edges
      && g.nodes.Keys == b.nodes.Keys && forall n | n in g.nodes :: g.nodes[n].data == b.nodes[n].data
    ensures !a.isOrdered && !b.isOrdered ==> Replay(a, DifferenceOf(a, b)).1 == b
  {
    UptoAll(a, b);
    UptoRuns(a, b, 7);
    Rebuilt(a, b);
    ReplayRuns(a, DifferenceOf(a, b));
    var g := Replay(a, DifferenceOf(a, b)).1;
    assert SnapOf(g) == SnapOf(b);
    forall n | n in g.nodes ensures g.nodes[n].data == b.nodes[n].data {
      assert DataOf(g)[n] == DataOf(b)[n];
    }
    if !a.isOrdered && !b.isOrdered {
      g.SortedDeterminacy(b);
    }
  }
}
