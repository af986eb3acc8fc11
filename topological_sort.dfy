/**
 * Topological sort: a depth-first search whose visitor records each node as
 * it finishes and throws `NotADAG` on a back edge. The result lists heads
 * before tails (every edge's head precedes its tail), the reverse of a
 * topological order.
 */
module TopoSort {
  import opened GraphErrors
  import opened ElementIDs
  import opened EdgeSets
  import opened GraphModel
  import opened Paths
  import opened DepthFirst
  import opened SearchTraces

  function TopoStep(s: seq<NodeID>, ev: Event): (seq<NodeID>, Control<()>) {
    match ev
    case FinishNode(n) => (s + [n], Continue)
    case BackEdge(_) => (s, Throw(NotADAG))
    case _ => (s, Continue)
  }

  function TopoAnswer(ev: Event): Control<()> {
    if ev.BackEdge? then Throw(NotADAG) else Continue
  }

  /** The visitor of `topologicalSort`: its state is the list of finished nodes. */
  function TopoVisitor(): Visitor<seq<NodeID>, ()> {
    Visitor((s: seq<NodeID>, ev: Event) => TopoStep(s, ev), (s: seq<NodeID>) => ())
  }

  /** The nodes reachable from some node of `roots`. */
  ghost function ReachableFrom<ND, ED>(g: GraphState<ND, ED>, roots: set<NodeID>): set<NodeID> {
    set n | n in g.nodes && exists r :: r in roots && Reach(g, {}, r, n)
  }

  /** While the search runs, the visitor's list is the finish order. */
  lemma {:induction false} TopoState(tr: seq<Event>)
    requires RunVisitor(TopoVisitor(), [], tr).1.Continue?
    ensures RunVisitor(TopoVisitor(), [], tr).0 == Summarize(tr).order
    decreases |tr|
  {
    if tr != [] {
      var pre := tr[..|tr| - 1];
      assert RunVisitor(TopoVisitor(), [], pre).1.Continue?;
      TopoState(pre);
    }
  }

  /** A completed sort lists every searched node once, heads first. */
  lemma TopoListed<ND, ED>(g: GraphState<ND, ED>, roots: set<NodeID>, rootsOnly: bool, S: Summary)
    requires g.Valid() && StateOK(g, None, roots, rootsOnly, S) && Complete(g, roots, rootsOnly, S) && S.backs == {}
    ensures Distinct(S.order) && HeadsFirst(g, S.order) && roots <= g.nodes.Keys
    ensures Elements(S.order) == if rootsOnly then ReachableFrom(g, roots) else g.nodes.Keys
  {
    forall i, e | 0 <= i < |S.order| && e in g.edges && g.edges[e].tail == S.order[i]
      ensures g.edges[e].head in S.order[..i]
    {
      assert Loaded(g, None, S.started, S.order[i], e);
    }
    if rootsOnly {
      forall n | n in S.disc ensures n in ReachableFrom(g, roots) {
        assert Found(g, None, S.started, n);
      }
      FinishedClosed(g, None, S);
      forall n | n in ReachableFrom(g, roots) ensures n in S.disc {
        var r :| r in roots && Reach(g, {}, r, n);
        ClosedReach(g, {}, S.disc, r, n);
      }
    }
  }

  /** What the search with the sorting visitor reports, in terms of the graph. */
  lemma TopoOutcome<ND, ED>(g: GraphState<ND, ED>, roots: set<NodeID>, rootsOnly: bool,
                            trace: seq<Event>, r: Result<()>, s: seq<NodeID>)
    requires g.Valid()
    requires Reported(g, None, roots, rootsOnly, TopoVisitor(), [], trace, r, s)
    ensures r.Ok? ==> s == Summarize(trace).order && Distinct(s) && HeadsFirst(g, s) && roots <= g.nodes.Keys
    ensures r.Ok? ==> Elements(s) == if rootsOnly then ReachableFrom(g, roots) else g.nodes.Keys
    ensures r.Err? ==> (r.error == NotADAG && HasCycle(g)) || (r.error == NotFound && !(roots <= g.nodes.Keys))
  {
    var v := TopoVisitor();
    var ans := (ev: Event) => TopoAnswer(ev);
    assert AnswersBy(v, ans);
    Answers(v, ans, [], trace);
    var S := Summarize(trace);
    if !RunVisitor(v, [], trace).1.Continue? {
      var e := trace[|trace| - 1].edge;
      BackEdgeCycle(g, e);
    } else {
      SummaryEvents(trace);
      TopoState(trace);
      forall e ensures e !in S.backs {
        if e in S.backs {
          assert false;
        }
      }
      if r == Ok(v.finish(s)) && Complete(g, roots, rootsOnly, S) {
        TopoListed(g, roots, rootsOnly, S);
      } else {
        assert MissingRoot(g, trace);
        assert trace[|trace| - 1].node in roots;
      }
    }
  }

  /**
   * `topologicalSort(roots:rootsOnly:)`: the finish order of the search, or
   * `NotADAG` from the first back edge. Every edge's head is listed before
   * its tail; the list holds each node reachable from the roots (every node,
   * unless `rootsOnly`) exactly once.
   */
  method TopologicalSort<ND, ED>(g: GraphState<ND, ED>, roots: set<NodeID>, rootsOnly: bool)
    returns (r: Result<seq<NodeID>>, ghost trace: seq<Event>)
    requires g.Valid()
    ensures r.Ok? ==> r.value == Summarize(trace).order
    ensures r.Ok? ==> Distinct(r.value) && HeadsFirst(g, r.value) && roots <= g.nodes.Keys
    ensures r.Ok? ==> Elements(r.value) == if rootsOnly then ReachableFrom(g, roots) else g.nodes.Keys
    ensures r.Err? ==> (r.error == NotADAG && HasCycle(g)) || (r.error == NotFound && !(roots <= g.nodes.Keys))
  {
    var res: Result<()>;
    var s: seq<NodeID>;
    res, s, trace := DepthFirstSearch(g, TopoVisitor(), [], roots, rootsOnly, None);
    TopoOutcome(g, roots, rootsOnly, trace, res, s);
    r := if res.Ok? then Ok(s) else Err(res.error);
  }

  /** On an acyclic graph whose roots exist the sort succeeds; over all nodes it fails exactly on a cycle. */
  lemma TopoSortTotal<ND, ED>(g: GraphState<ND, ED>, roots: set<NodeID>, r: Result<seq<NodeID>>)
    requires g.Valid() && roots <= g.nodes.Keys
    requires r.Ok? ==> Distinct(r.value) && HeadsFirst(g, r.value) && Elements(r.value) == g.nodes.Keys
    requires r.Err? ==> (r.error == NotADAG && HasCycle(g)) || (r.error == NotFound && !(roots <= g.nodes.Keys))
    ensures r.Ok? <==> !HasCycle(g)
  {
    if r.Ok? {
      forall n | n in g.nodes ensures n in r.value {
        assert n in Elements(r.value);
      }
      HeadsFirstAcyclic(g, r.value);
    }
  }

  /** `isDAG()`: sorts the whole graph; `NotADAG` means `false`, any other error is passed on. */
  method IsDAG<ND, ED>(g: GraphState<ND, ED>) returns (r: Result<bool>)
    requires g.Valid()
    ensures r == Ok(!HasCycle(g))
  {
    var t;
    ghost var trace;
    t, trace := TopologicalSort(g, {}, false);
    TopoSortTotal(g, {}, t);
    match t
    case Ok(_) => r := Ok(true);
    case Err(NotADAG) => r := Ok(false);
    case Err(err) => r := Err(err);
  }
}
