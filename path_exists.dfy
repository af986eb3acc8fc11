/**
 * Path search and the acyclicity guards built on it. `pathExists` runs a
 * depth-first search from `from` with a visitor that answers `true` when
 * `to` is discovered and `false` when `from` finishes.
 */
module PathSearch {
  import opened GraphErrors
  import opened ElementIDs
  import opened EdgeSets
  import opened GraphModel
  import opened Paths
  import opened DepthFirst
  import opened SearchTraces

  function PathAnswer(from: NodeID, to: NodeID, ev: Event): Control<bool> {
    match ev
    case DiscoverNode(n) => if n == to then Stop(true) else Continue
    case FinishNode(n) => if n == from then Stop(false) else Continue
    case _ => Continue
  }

  /** The stateless visitor of `pathExists`; `finish` answers `false`. */
  function PathVisitor(from: NodeID, to: NodeID): Visitor<(), bool> {
    Visitor((s: (), ev: Event) => (s, PathAnswer(from, to, ev)), (s: ()) => false)
  }

  /**
   * What `pathExists` answers: whether `to` is reachable from `from` when the
   * excluded edge is left out of `from`'s own out-edges; a missing `from`
   * is `NotFound`, unless it is `to` itself.
   */
  ghost function PathSpec<ND, ED>(g: GraphState<ND, ED>, ex: Option<EdgeID>, from: NodeID, to: NodeID): Result<bool> {
    if from !in g.nodes && from != to then Err(NotFound)
    else Ok(Reach(g, RootBan(g, ex, from), from, to))
  }

  /** Only `from` is started before `from` finishes. */
  lemma OnlyFrom<ND, ED>(g: GraphState<ND, ED>, ex: Option<EdgeID>, S: Summary, from: NodeID)
    requires Starts(g, {from}, false, S) && from !in S.order
    ensures S.started <= {from}
  {
    assert from !in Elements(S.order);
  }

  /** When `from` finishes, the search answers `false`, and `to` is indeed out of reach. */
  lemma PathFinished<ND, ED>(g: GraphState<ND, ED>, ex: Option<EdgeID>, from: NodeID, to: NodeID,
                             trace: seq<Event>, r: Result<bool>, s: ())
    requires g.Valid()
    requires Reported(g, ex, {from}, false, PathVisitor(from, to), (), trace, r, s)
    requires from in Summarize(trace).order
    ensures r == Ok(false) && from in g.nodes && !Reach(g, RootBan(g, ex, from), from, to)
  {
    var v := PathVisitor(from, to);
    var ans := (ev: Event) => PathAnswer(from, to, ev);
    assert AnswersBy(v, ans);
    var S := Summarize(trace);
    SummaryEvents(trace);
    // `from` finished: that was the last callback, and the search answered `false`.
    Heard(v, ans, (), trace, FinishNode(from));
    var P := Summarize(trace[..|trace| - 1]);
    assert S == P.Add(FinishNode(from));
    assert LastOK(g, {from}, false, P, FinishNode(from));
    OnlyFrom(g, ex, P, from);
    assert Found(g, ex, S.started, from);
    assert S.started == {from};
    assert S.disc == Elements(S.order);
    if to in S.disc {
      Heard(v, ans, (), trace, DiscoverNode(to));
      assert false;
    }
    if Reach(g, RootBan(g, ex, from), from, to) {
      FinishedReach(g, ex, S, from, to);
      assert false;
    }
  }

  /** The outcome of the search with the path visitor is `PathSpec`. */
  lemma PathOutcome<ND, ED>(g: GraphState<ND, ED>, ex: Option<EdgeID>, from: NodeID, to: NodeID,
                            trace: seq<Event>, r: Result<bool>, s: ())
    requires g.Valid()
    requires Reported(g, ex, {from}, false, PathVisitor(from, to), (), trace, r, s)
    ensures r == PathSpec(g, ex, from, to)
  {
    var v := PathVisitor(from, to);
    var ans := (ev: Event) => PathAnswer(from, to, ev);
    assert AnswersBy(v, ans);
    var S := Summarize(trace);
    Answers(v, ans, (), trace);
    SummaryEvents(trace);
    if from in S.order {
      PathFinished(g, ex, from, to, trace, r, s);
    } else {
      OnlyFrom(g, ex, S, from);
      var c := RunVisitor(v, (), trace).1;
      if !c.Continue? {
        // The search stopped on discovering `to`.
        assert trace[|trace| - 1] == DiscoverNode(to);
        assert to in S.disc;
        assert Found(g, ex, S.started, to);
        if from !in g.nodes {
          ReachFromMissing(g, RootBan(g, ex, from), from, to);
        }
      } else if r == Ok(v.finish(s)) && Complete(g, {from}, false, S) {
        assert false;
      } else {
        // A missing root: it can only be `from`, and `from` is not `to`.
        assert MissingRoot(g, trace);
        var n := trace[|trace| - 1].node;
        assert n == from;
        assert DiscoverNode(from) in trace;
        assert from != to;
      }
    }
  }

  /** `pathExists(from:to:excludedEdge:)`: the depth-first search rooted at `from` with the path visitor. */
  method PathExists<ND, ED>(g: GraphState<ND, ED>, from: NodeID, to: NodeID, excluded: Option<EdgeID>) returns (r: Result<bool>)
    requires g.Valid()
    ensures r == PathSpec(g, excluded, from, to)
  {
    var s: ();
    ghost var trace: seq<Event>;
    r, s, trace := DepthFirstSearch(g, PathVisitor(from, to), (), {from}, false, excluded);
    PathOutcome(g, excluded, from, to, trace, r, s);
  }

  /** With no edge excluded, `pathExists` answers plain reachability. */
  lemma PathExistsReach<ND, ED>(g: GraphState<ND, ED>, from: NodeID, to: NodeID)
    requires g.Valid() && (from in g.nodes || from == to)
    ensures PathSpec(g, None, from, to) == Ok(Reach(g, {}, from, to))
  {
  }

  /** `canAddDAGEdge(from:to:excludedEdge:)`: an edge from `from` to `to` is allowed unless `to` reaches `from`. */
  method CanAddDAGEdge<ND, ED>(g: GraphState<ND, ED>, from: NodeID, to: NodeID, excluded: Option<EdgeID>) returns (r: Result<bool>)
    requires g.Valid()
    ensures to !in g.nodes && to != from ==> r == Err(NotFound)
    ensures to in g.nodes || to == from ==> r == Ok(!Reach(g, RootBan(g, excluded, to), to, from))
  {
    var p := PathExists(g, to, from, excluded);
    r := if p.Err? then Err(p.error) else Ok(!p.value);
  }

  /**
   * With no edge excluded the guard is exact: an edge that passes it keeps
   * an acyclic graph acyclic, and one that fails it (a self-loop included)
   * would close a cycle.
   */
  lemma CanAddDAGEdgeExact<ND, ED>(g: GraphState<ND, ED>, e: EdgeID, from: NodeID, to: NodeID, d: ED)
    requires g.Valid() && !HasCycle(g) && g.NewEdge(e, from, to, d).Ok?
    ensures !HasCycle(g.NewEdge(e, from, to, d).value) <==> !Reach(g, RootBan(g, None, to), to, from)
  {
    NewEdgeCycle(g, e, from, to, d);
  }

  /** Self-loops are refused and parallel edges allowed. */
  lemma CanAddDAGEdgeLoops<ND, ED>(g: GraphState<ND, ED>, a: NodeID, e: EdgeID)
    requires g.Valid() && a in g.nodes
    ensures Reach(g, RootBan(g, None, a), a, a)
    ensures e in g.edges && !HasCycle(g) ==> !Reach(g, RootBan(g, None, g.edges[e].head), g.edges[e].head, g.edges[e].tail)
  {
    ReachRefl(g, {}, a);
    if e in g.edges && !HasCycle(g) && Reach(g, {}, g.edges[e].head, g.edges[e].tail) {
      BackEdgeCycle(g, e);
      assert false;
    }
  }

  /**
   * `canMoveDAGEdge` as the library writes it: `canAddDAGEdge(newTail, newHead)`
   * with the moved edge excluded, which the search drops only from the
   * out-edges of its root `newHead`.
   */
  method CanMoveDAGEdge<ND, ED>(g: GraphState<ND, ED>, e: EdgeID, t: NodeID, h: NodeID) returns (r: Result<bool>)
    requires g.Valid()
    ensures h !in g.nodes && h != t ==> r == Err(NotFound)
    ensures h in g.nodes || h == t ==> r == Ok(!Reach(g, RootBan(g, Some(e), h), h, t))
  {
    r := CanAddDAGEdge(g, t, h, Some(e));
  }

  /** The library's guard never lets a cycle through: it refuses at least every move the exact guard refuses. */
  lemma CanMoveDAGEdgeSafe<ND, ED>(g: GraphState<ND, ED>, e: EdgeID, t: NodeID, h: NodeID)
    requires g.Valid() && !HasCycle(g) && g.MoveEdge(e, t, h).Ok?
    requires !Reach(g, RootBan(g, Some(e), h), h, t)
    ensures !HasCycle(g.MoveEdge(e, t, h).value)
  {
    MoveEdgeCycle(g, e, t, h);
    if Reach(g, {e}, h, t) {
      ReachWiden(g, {e}, RootBan(g, Some(e), h), h, t);
      assert false;
    }
  }

  /** The graph of the counterexample: edges `10: 1 -> 2`, `20: 2 -> 3`, `30: 3 -> 4`, a chain from node 1 to node 4. */
  function Chain4(): GraphState<int, int> {
    GraphState(false,
      map[1 := Node(0, [], [10]), 2 := Node(0, [10], [20]), 3 := Node(0, [20], [30]), 4 := Node(0, [30], [])],
      map[10 := Edge(1, 2, 0), 20 := Edge(2, 3, 0), 30 := Edge(3, 4, 0)])
  }

  lemma Chain4Valid()
    ensures Chain4().Valid() && !HasCycle(Chain4())
  {
    Chain4Store();
    Chain4Acyclic();
  }

  lemma Chain4Store()
    ensures Chain4().Valid()
  {
    var g := Chain4();
    assert g.EdgesFrom(1) == {10} && g.EdgesInto(2) == {10};
    assert g.EdgesFrom(2) == {20} && g.EdgesInto(3) == {20};
    assert g.EdgesFrom(3) == {30} && g.EdgesInto(4) == {30};
    assert g.EdgesFrom(4) == {} && g.EdgesInto(1) == {};
    assert g.NodeValid(1) && g.NodeValid(2) && g.NodeValid(3) && g.NodeValid(4);
  }

  lemma Chain4Acyclic()
    requires Chain4().Valid()
    ensures !HasCycle(Chain4())
  {
    var g := Chain4();
    // The chain lists heads first as 4, 3, 2, 1, so it has no cycle.
    var order := [4, 3, 2, 1];
    forall i, e | 0 <= i < |order| && e in g.edges && g.edges[e].tail == order[i]
      ensures g.edges[e].head in order[..i]
    {
      assert e == 10 || e == 20 || e == 30;
      assert order[..1] == [4] && order[..2] == [4, 3] && order[..3] == [4, 3, 2];
    }
    assert HeadsFirst(g, order);
    HeadsFirstAcyclic(g, [4, 3, 2, 1]);
  }

  /**
   * Moving the middle edge `e` (id 20, `2 -> 3`) to `4 -> 1` keeps the graph
   * acyclic, yet the library's guard refuses it: the search from 1 does not
   * drop `e`, because `e` does not leave 1, and finds the path through `e`.
   */
  lemma CanMoveDAGEdgeTooStrict()
    ensures Chain4().Valid() && Chain4().MoveEdge(20, 4, 1).Ok?
    ensures !HasCycle(Chain4().MoveEdge(20, 4, 1).value)
    ensures Reach(Chain4(), RootBan(Chain4(), Some(20), 1), 1, 4)
  {
    var g := Chain4();
    Chain4Valid();
    assert RootBan(g, Some(20), 1) == {};
    assert IsPath(g, {}, [10, 20, 30], 1, 4) by {
      assert IsPath(g, {}, [], 4, 4);
      assert IsPath(g, {}, [30], 3, 4);
      assert IsPath(g, {}, [20, 30], 2, 4);
    }
    // Without `e`, the nodes {1, 2} are closed under the usable edges, and 4 is outside them.
    if Reach(g, {20}, 1, 4) {
      ClosedReach(g, {20}, {1, 2}, 1, 4);
      assert false;
    }
    MoveEdgeCycle(g, 20, 4, 1);
  }

  /** The guard `canMoveDAGEdge` evidently intends: the moved edge left out of the whole search. */
  ghost function MoveAllowed<ND, ED>(g: GraphState<ND, ED>, e: EdgeID, t: NodeID, h: NodeID): Result<bool> {
    if h !in g.nodes && h != t then Err(NotFound)
    else Ok(!Reach(g, {e}, h, t))
  }

  /** Reachability without `e` is reachability in the graph with `e` removed. */
  lemma RemovedReach<ND, ED>(g: GraphState<ND, ED>, e: EdgeID, a: NodeID, b: NodeID)
    requires g.Valid() && e in g.edges
    ensures Reach(g.RemoveEdge(e).value, {}, a, b) <==> Reach(g, {e}, a, b)
  {
    var g2 := g.RemoveEdge(e).value;
    assert AgreeOff(g, g2, e) && AgreeOff(g2, g, e);
    assert {} + {e} == {e};
    if Reach(g2, {}, a, b) {
      var p :| IsPath(g2, {}, p, a, b);
      PathBanAbsent(g2, {}, p, a, b, e);
      PathTransfer(g2, g, e, {e}, p, a, b);
    }
    if Reach(g, {e}, a, b) {
      var p :| IsPath(g, {e}, p, a, b);
      PathTransfer(g, g2, e, {e}, p, a, b);
      PathWiden(g2, {e}, {}, p, a, b);
    }
  }

  /** The corrected guard: search for a path from `h` to `t` in the graph without `e`. */
  method CanMoveDAGEdgeExact<ND, ED>(g: GraphState<ND, ED>, e: EdgeID, t: NodeID, h: NodeID) returns (r: Result<bool>)
    requires g.Valid()
    ensures e in g.edges ==> r == MoveAllowed(g, e, t, h)
    ensures e !in g.edges ==> r == Err(NotFound)
  {
    var without := g.RemoveEdge(e);
    if without.Err? {
      return Err(NotFound);
    }
    var p := PathExists(without.value, h, t, None);
    RemovedReach(g, e, h, t);
    r := if p.Err? then Err(p.error) else Ok(!p.value);
  }

  /** The corrected guard is exact: a move keeps an acyclic graph acyclic exactly when it passes. */
  lemma MoveAllowedExact<ND, ED>(g: GraphState<ND, ED>, e: EdgeID, t: NodeID, h: NodeID)
    requires g.Valid() && !HasCycle(g) && g.MoveEdge(e, t, h).Ok?
    ensures MoveAllowed(g, e, t, h) == Ok(!HasCycle(g.MoveEdge(e, t, h).value))
  {
    MoveEdgeCycle(g, e, t, h);
  }
}
