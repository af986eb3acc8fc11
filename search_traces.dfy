/**
 * Facts about the callbacks of a finished depth-first search, shared by the
 * algorithms built on it: which answers a visitor gave, which callbacks a
 * summary entry comes from, and what a finished part of the search covers.
 */
module SearchTraces {
  import opened GraphErrors
  import opened ElementIDs
  import opened EdgeSets
  import opened GraphModel
  import opened Paths
  import opened DepthFirst

  /** A visitor whose answer to a callback depends on the callback alone. */
  ghost predicate AnswersBy<S(!new), R>(v: Visitor<S, R>, ans: Event -> Control<R>) {
    forall s, ev :: v.on(s, ev).1 == ans(ev)
  }

  /** While the visitor keeps answering `Continue`, every callback so far was answered `Continue`. */
  lemma {:induction false} ReplayAll<S, R>(v: Visitor<S, R>, s0: S, tr: seq<Event>)
    requires RunVisitor(v, s0, tr).1.Continue?
    ensures forall i | 0 <= i < |tr| :: v.on(RunVisitor(v, s0, tr[..i]).0, tr[i]).1.Continue?
    decreases |tr|
  {
    if tr != [] {
      var pre := tr[..|tr| - 1];
      assert RunVisitor(v, s0, pre).1.Continue?;
      ReplayAll(v, s0, pre);
      forall i | 0 <= i < |tr| ensures v.on(RunVisitor(v, s0, tr[..i]).0, tr[i]).1.Continue? {
        if i < |tr| - 1 {
          assert pre[..i] == tr[..i] && pre[i] == tr[i];
        } else {
          assert tr[..i] == pre;
        }
      }
    }
  }

  /**
   * For a visitor that answers by callback alone: every callback before the
   * last was answered `Continue`, the last one's answer is the search's
   * answer, and a search still running answered `Continue` to every callback.
   */
  lemma Answers<S(!new), R>(v: Visitor<S, R>, ans: Event -> Control<R>, s0: S, tr: seq<Event>)
    requires AnswersBy(v, ans)
    requires tr != [] ==> RunVisitor(v, s0, tr[..|tr| - 1]).1.Continue?
    ensures forall i | 0 <= i < |tr| - 1 :: ans(tr[i]).Continue?
    ensures tr != [] ==> RunVisitor(v, s0, tr).1 == ans(tr[|tr| - 1])
    ensures RunVisitor(v, s0, tr).1.Continue? ==> forall i | 0 <= i < |tr| :: ans(tr[i]).Continue?
  {
    if tr != [] {
      var pre := tr[..|tr| - 1];
      ReplayAll(v, s0, pre);
      forall i | 0 <= i < |tr| - 1 ensures ans(tr[i]).Continue? {
        assert pre[i] == tr[i];
        assert v.on(RunVisitor(v, s0, pre[..i]).0, pre[i]).1.Continue?;
      }
      if RunVisitor(v, s0, tr).1.Continue? {
        ReplayAll(v, s0, tr);
        assert v.on(RunVisitor(v, s0, tr[..|tr| - 1]).0, tr[|tr| - 1]).1.Continue?;
      }
    }
  }

  /** Every entry of a summary comes from a callback of the trace. */
  lemma {:induction false} SummaryEvents(tr: seq<Event>)
    ensures forall n | n in Summarize(tr).started :: StartNode(n) in tr
    ensures forall n | n in Summarize(tr).disc :: DiscoverNode(n) in tr
    ensures forall n | n in Summarize(tr).order :: FinishNode(n) in tr
    ensures forall e | e in Summarize(tr).backs :: BackEdge(e) in tr
    ensures forall e | e in Summarize(tr).fwds :: ForwardOrCrossEdge(e) in tr
    decreases |tr|
  {
    if tr != [] {
      var pre := tr[..|tr| - 1];
      SummaryEvents(pre);
      assert tr == pre + [tr[|tr| - 1]];
      assert forall ev | ev in pre :: ev in tr;
    }
  }

  /** A callback the trace holds was answered `Continue` unless it was the last. */
  lemma Heard<S(!new), R>(v: Visitor<S, R>, ans: Event -> Control<R>, s0: S, tr: seq<Event>, ev: Event)
    requires AnswersBy(v, ans)
    requires tr != [] ==> RunVisitor(v, s0, tr[..|tr| - 1]).1.Continue?
    requires ev in tr && !ans(ev).Continue?
    ensures tr[|tr| - 1] == ev && RunVisitor(v, s0, tr).1 == ans(ev)
  {
    Answers(v, ans, s0, tr);
    var i :| 0 <= i < |tr| && tr[i] == ev;
  }

  /**
   * Once everything discovered has finished, the discovered nodes are closed
   * under the out-edges the search loads: an edge leaving one of them leads
   * to another, unless it is the excluded edge leaving a root.
   */
  lemma FinishedClosed<ND, ED>(g: GraphState<ND, ED>, ex: Option<EdgeID>, S: Summary)
    requires FinishOrder(g, ex, S) && S.disc == Elements(S.order)
    ensures forall e | e in g.edges && g.edges[e].tail in S.disc && !(g.edges[e].tail in S.started && ex == Some(e)) ::
      g.edges[e].head in S.disc
  {
    forall e | e in g.edges && g.edges[e].tail in S.disc && !(g.edges[e].tail in S.started && ex == Some(e))
      ensures g.edges[e].head in S.disc
    {
      var t := g.edges[e].tail;
      var i :| 0 <= i < |S.order| && S.order[i] == t;
      assert Loaded(g, ex, S.started, S.order[i], e);
      if e !in S.backs {
        assert g.edges[e].head in S.order[..i];
      }
    }
  }

  /** Nodes reachable from a started root, less that root's excluded edge, are discovered once everything discovered has finished. */
  lemma FinishedReach<ND, ED>(g: GraphState<ND, ED>, ex: Option<EdgeID>, S: Summary, root: NodeID, n: NodeID)
    requires FinishOrder(g, ex, S) && S.disc == Elements(S.order)
    requires S.started == {root} && root in S.disc && Reach(g, RootBan(g, ex, root), root, n)
    ensures n in S.disc
  {
    FinishedClosed(g, ex, S);
    ClosedReach(g, RootBan(g, ex, root), S.disc, root, n);
  }
}
