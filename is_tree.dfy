/**
 * The tree test: a depth-first search from the nominated root whose visitor
 * answers `false` on starting any other node, on a back edge and on a
 * forward or cross edge, and `true` when the search completes.
 */
module TreeTest {
  import opened GraphErrors
  import opened ElementIDs
  import opened EdgeSets
  import opened GraphModel
  import opened Paths
  import opened DepthFirst
  import opened SearchTraces

  function TreeAnswer(root: NodeID, ev: Event): Control<bool> {
    match ev
    case StartNode(n) => if n == root then Continue else Stop(false)
    case BackEdge(_) => Stop(false)
    case ForwardOrCrossEdge(_) => Stop(false)
    case _ => Continue
  }

  /** The stateless visitor of `isTree`; `finish` answers `true`. */
  function TreeVisitor(root: NodeID): Visitor<(), bool> {
    Visitor((s: (), ev: Event) => (s, TreeAnswer(root, ev)), (s: ()) => true)
  }

  /** Only the nominated root was started while the visitor kept answering `Continue`. */
  lemma StartedRoot(root: NodeID, tr: seq<Event>)
    requires forall i | 0 <= i < |tr| :: TreeAnswer(root, tr[i]).Continue?
    ensures Summarize(tr).started <= {root}
    ensures Summarize(tr).backs == {} && Summarize(tr).fwds == {}
  {
    SummaryEvents(tr);
    forall n | n in Summarize(tr).started ensures n == root {
      var i :| 0 <= i < |tr| && tr[i] == StartNode(n);
    }
    forall e ensures e !in Summarize(tr).backs && e !in Summarize(tr).fwds {
      if e in Summarize(tr).backs || e in Summarize(tr).fwds {
        assert false;
      }
    }
  }

  /** A non-tree edge into a discovered node gives it a second parent, or enters the root. */
  lemma SecondParent<ND, ED>(g: GraphState<ND, ED>, S: Summary, root: NodeID, e: EdgeID)
    requires g.Valid() && Discovery(g, None, S) && S.started == {root}
    requires e in g.edges && e !in S.trees && g.edges[e].head in S.disc
    ensures !TreeShaped(g, root)
  {
    var h := g.edges[e].head;
    if h != root {
      assert Entered(g, S.trees, h);
      var f :| f in S.trees && f in g.edges && g.edges[f].head == h;
      assert e != f;
    }
  }

  /** A discovered node comes from a started root; with no root started nothing is discovered. */
  lemma RootFound<ND, ED>(g: GraphState<ND, ED>, S: Summary, root: NodeID, n: NodeID)
    requires g.Valid() && Discovery(g, None, S) && S.started <= {root} && n in S.disc
    ensures S.started == {root} && Reach(g, {}, root, n)
    ensures n in g.nodes ==> root in g.nodes
  {
    assert Found(g, None, S.started, n);
    if n in g.nodes && root !in g.nodes {
      ReachFromMissing(g, {}, root, n);
    }
  }

  /** A search the visitor stopped answers `false`, and the graph is indeed not a tree under `root`. */
  lemma TreeStopped<ND, ED>(g: GraphState<ND, ED>, root: NodeID, trace: seq<Event>, r: Result<bool>, s: ())
    requires g.Valid()
    requires Reported(g, None, {root}, false, TreeVisitor(root), (), trace, r, s)
    requires !RunVisitor(TreeVisitor(root), (), trace).1.Continue?
    ensures r == Ok(false) && root in g.nodes && !TreeShaped(g, root)
  {
    var v := TreeVisitor(root);
    var ans := (ev: Event) => TreeAnswer(root, ev);
    assert AnswersBy(v, ans);
    Answers(v, ans, (), trace);
    var pre := trace[..|trace| - 1];
    assert forall i | 0 <= i < |pre| :: pre[i] == trace[i];
    StartedRoot(root, pre);
    var P := Summarize(pre);
    var S := Summarize(trace);
    var ev := trace[|trace| - 1];
    assert S == P.Add(ev);
    match ev
    case StartNode(n) =>
      assert n != root && n !in P.disc && n in g.nodes && root in P.disc;
      assert root in Elements(S.order);
      FinishedClosed(g, None, S);
      if Reach(g, {}, root, n) {
        ClosedReach(g, {}, S.disc, root, n);
        assert false;
      }
    case BackEdge(e) =>
      RootFound(g, S, root, g.edges[e].head);
      SecondParent(g, S, root, e);
    case ForwardOrCrossEdge(e) =>
      RootFound(g, S, root, g.edges[e].head);
      SecondParent(g, S, root, e);
  }

  /** A search that ran to the end found every node below `root` through exactly one tree edge. */
  lemma TreeCompleted<ND, ED>(g: GraphState<ND, ED>, root: NodeID, trace: seq<Event>)
    requires g.Valid()
    requires StateOK(g, None, {root}, false, Summarize(trace)) && Complete(g, {root}, false, Summarize(trace))
    requires forall i | 0 <= i < |trace| :: TreeAnswer(root, trace[i]).Continue?
    ensures TreeShaped(g, root)
  {
    var S := Summarize(trace);
    StartedRoot(root, trace);
    RootFound(g, S, root, root);
    forall n | n in g.nodes ensures Reach(g, {}, root, n) {
      RootFound(g, S, root, n);
    }
    AllTrees(g, S);
  }

  /** With every node finished and no back, forward or cross edge, every edge is a tree edge. */
  lemma AllTrees<ND, ED>(g: GraphState<ND, ED>, S: Summary)
    requires g.Valid() && FinishOrder(g, None, S) && S.disc == Elements(S.order) && g.nodes.Keys <= S.disc
    requires S.examined == S.trees + S.backs + S.fwds && S.backs == {} && S.fwds == {}
    ensures forall e | e in g.edges :: e in S.trees
  {
    forall e | e in g.edges ensures e in S.trees {
      g.TailHasEdge(e);
      var i :| 0 <= i < |S.order| && S.order[i] == g.edges[e].tail;
      assert Loaded(g, None, S.started, S.order[i], e);
    }
  }

  /**
   * What `isTree(root:)` answers: `NotFound` for a missing root, otherwise
   * whether every node is reachable from the root, no edge enters the root,
   * and no node has two parents.
   */
  lemma TreeOutcome<ND, ED>(g: GraphState<ND, ED>, root: NodeID, trace: seq<Event>, r: Result<bool>, s: ())
    requires g.Valid()
    requires Reported(g, None, {root}, false, TreeVisitor(root), (), trace, r, s)
    ensures r == if root in g.nodes then Ok(TreeShaped(g, root)) else Err(NotFound)
  {
    var v := TreeVisitor(root);
    if !RunVisitor(v, (), trace).1.Continue? {
      TreeStopped(g, root, trace, r, s);
    } else {
      var ans := (ev: Event) => TreeAnswer(root, ev);
      assert AnswersBy(v, ans);
      Answers(v, ans, (), trace);
      StartedRoot(root, trace);
      if r == Ok(v.finish(s)) && Complete(g, {root}, false, Summarize(trace)) {
        TreeCompleted(g, root, trace);
      } else {
        assert MissingRoot(g, trace);
      }
    }
  }

  /** `isTree(root:)`: the depth-first search rooted at `root` with the tree visitor. */
  method IsTree<ND, ED>(g: GraphState<ND, ED>, root: NodeID) returns (r: Result<bool>)
    requires g.Valid()
    ensures root !in g.nodes ==> r == Err(NotFound)
    ensures root in g.nodes ==> r == Ok(TreeShaped(g, root))
  {
    var s: ();
    ghost var trace: seq<Event>;
    r, s, trace := DepthFirstSearch(g, TreeVisitor(root), (), {root}, false, None);
    TreeOutcome(g, root, trace, r, s);
  }

  /** Which node is nominated matters: a graph is a tree under at most one root. */
  lemma TreeRootUnique<ND, ED>(g: GraphState<ND, ED>, a: NodeID, b: NodeID)
    requires TreeShaped(g, a) && TreeShaped(g, b)
    ensures a == b
  {
    if a != b {
      assert b in g.nodes && Reach(g, {}, a, b);
      var p :| IsPath(g, {}, p, a, b);
      NoEntryPath(g, {}, p, a, b);
    }
  }

  /** A lone node, with no edges, is a tree. */
  lemma LoneRootTree<ND, ED>(g: GraphState<ND, ED>, root: NodeID)
    requires g.nodes.Keys == {root} && g.edges == map[]
    ensures TreeShaped(g, root)
  {
    ReachRefl(g, {}, root);
  }
}
