/**
 * Depth-first search over a graph store, driven by a visitor that may stop
 * the search with a result or an error at any callback.
 *
 * The search keeps a colour per node (discovered, then finished) and an
 * explicit stack of frames `(tail, edge that led on, remaining out-edges)`.
 * Every callback is recorded in a ghost trace of events; the search is
 * proved to keep invariants over a summary of that trace (what was started,
 * discovered, examined and finished, and how each edge was classified), and
 * those invariants are what the path search, tree test and topological sort
 * build their proofs on.
 */
module DepthFirst {
  import opened GraphErrors
  import opened ElementIDs
  import opened EdgeSets
  import opened SetOrder
  import opened GraphModel
  import opened Paths

  /** One visitor callback. */
  datatype Event =
    | InitNode(node: NodeID)
    | StartNode(node: NodeID)
    | DiscoverNode(node: NodeID)
    | ExamineEdge(edge: EdgeID)
    | TreeEdge(edge: EdgeID)
    | BackEdge(edge: EdgeID)
    | ForwardOrCrossEdge(edge: EdgeID)
    | FinishEdge(edge: EdgeID)
    | FinishNode(node: NodeID)

  /** What a callback answers: go on, stop with a result, or throw. */
  datatype Control<R> = Continue | Stop(result: R) | Throw(error: GraphError)

  /** A visitor: its callbacks (all of them, by event) and its final answer. */
  datatype Visitor<!S, R> = Visitor(on: (S, Event) -> (S, Control<R>), finish: S -> R)

  datatype Color = Discovered | Finished

  /** A suspended node: the node, the tree edge it is waiting on, the out-edges still to examine. */
  datatype Frame = Frame(tail: NodeID, edge: Option<EdgeID>, remaining: seq<EdgeID>)

  function ResultOf<R>(c: Control<R>): Result<R>
    requires !c.Continue?
  {
    if c.Stop? then Ok(c.result) else Err(c.error)
  }

  /** The visitor's state and answer after the callbacks of `tr`; the first answer other than `Continue` sticks. */
  ghost function RunVisitor<S, R>(v: Visitor<S, R>, s0: S, tr: seq<Event>): (S, Control<R>)
    decreases |tr|
  {
    if tr == [] then (s0, Continue)
    else
      var prev := RunVisitor(v, s0, tr[..|tr| - 1]);
      if prev.1.Continue? then v.on(prev.0, tr[|tr| - 1]) else prev
  }

  ghost predicate Running<S, R>(v: Visitor<S, R>, s0: S, tr: seq<Event>, s: S) {
    RunVisitor(v, s0, tr) == (s, Continue)
  }

  // ------------------------------------------------------------------
  // Summary of a trace
  // ------------------------------------------------------------------

  /**
   * Nodes started as search roots, discovered, and finished (in finish
   * order); edges examined and classified as tree, back, or forward/cross.
   */
  datatype Summary = Summary(started: set<NodeID>, disc: set<NodeID>, order: seq<NodeID>,
                             examined: set<EdgeID>, trees: set<EdgeID>, backs: set<EdgeID>, fwds: set<EdgeID>)
  {
    function Add(ev: Event): Summary {
      match ev
      case StartNode(n) => this.(started := started + {n})
      case DiscoverNode(n) => this.(disc := disc + {n})
      case ExamineEdge(e) => this.(examined := examined + {e})
      case TreeEdge(e) => this.(trees := trees + {e})
      case BackEdge(e) => this.(backs := backs + {e})
      case ForwardOrCrossEdge(e) => this.(fwds := fwds + {e})
      case FinishNode(n) => this.(order := order + [n])
      case InitNode(_) => this
      case FinishEdge(_) => this
    }
  }

  const Empty := Summary({}, {}, [], {}, {}, {}, {})

  ghost function Summarize(tr: seq<Event>): Summary
    decreases |tr|
  {
    if tr == [] then Empty else Summarize(tr[..|tr| - 1]).Add(tr[|tr| - 1])
  }

  /** Whether the search rooted at `w`'s search loads edge `e` out of `w`: the excluded edge is dropped only at a root. */
  ghost predicate Loaded<ND, ED>(g: GraphState<ND, ED>, ex: Option<EdgeID>, started: set<NodeID>, w: NodeID, e: EdgeID) {
    e in g.edges && g.edges[e].tail == w && !(w in started && ex == Some(e))
  }

  /** An examined edge that is done with: a back edge, or one whose head has finished. */
  ghost predicate Handled<ND, ED>(g: GraphState<ND, ED>, S: Summary, e: EdgeID) {
    e in g.edges && e in S.examined && (e in S.backs || g.edges[e].head in S.order)
  }

  // ------------------------------------------------------------------
  // Invariants over the summary
  // ------------------------------------------------------------------

  ghost predicate Classified<ND, ED>(g: GraphState<ND, ED>, S: Summary) {
    && S.examined <= g.edges.Keys
    && S.trees <= S.examined && S.backs <= S.examined && S.fwds <= S.examined
    && S.trees !! S.backs && S.trees !! S.fwds && S.backs !! S.fwds
  }

  /**
   * Finish order: nodes finish once, and every loaded out-edge of a finished
   * node was examined and is a back edge or leads to a node finished earlier.
   */
  ghost predicate FinishOrder<ND, ED>(g: GraphState<ND, ED>, ex: Option<EdgeID>, S: Summary) {
    && Distinct(S.order)
    && (forall n | n in S.order :: n in S.disc && n in g.nodes)
    && (forall i, e | 0 <= i < |S.order| && Loaded(g, ex, S.started, S.order[i], e) ::
          e in S.examined && (e in S.backs || g.edges[e].head in S.order[..i]))
    && (forall e | e in S.backs && e in g.edges :: g.edges[e].head in S.disc)
  }

  /** `n` is reachable from one of the `started` roots, each with its excluded edge left out. */
  ghost predicate Found<ND, ED>(g: GraphState<ND, ED>, ex: Option<EdgeID>, started: set<NodeID>, n: NodeID) {
    exists r :: r in started && Reach(g, RootBan(g, ex, r), r, n)
  }

  /** Some tree edge enters `n`. */
  ghost predicate Entered<ND, ED>(g: GraphState<ND, ED>, trees: set<EdgeID>, n: NodeID) {
    exists e :: e in trees && e in g.edges && g.edges[e].head == n
  }

  /**
   * Discovery: every discovered node is reachable from a started root (with
   * that root's excluded edge left out); every other discovered node was
   * reached by a tree edge; tree edges enter distinct non-root nodes.
   */
  ghost predicate Discovery<ND, ED>(g: GraphState<ND, ED>, ex: Option<EdgeID>, S: Summary) {
    && (forall n {:trigger Found(g, ex, S.started, n)} | n in S.disc :: Found(g, ex, S.started, n))
    && (forall n {:trigger Entered(g, S.trees, n)} | n in S.disc && n !in S.started :: Entered(g, S.trees, n))
    && (forall e | e in S.trees && e in g.edges :: g.edges[e].head !in S.started)
    && (forall e, f | e in S.trees && f in S.trees && e in g.edges && f in g.edges && g.edges[e].head == g.edges[f].head :: e == f)
  }

  /** Searches start at roots first, then (unless `rootsOnly`) at the remaining nodes. */
  ghost predicate Starts<ND, ED>(g: GraphState<ND, ED>, roots: set<NodeID>, rootsOnly: bool, S: Summary) {
    && (forall n | n in S.started :: n in roots || (!rootsOnly && n in g.nodes))
    && (S.started <= roots || roots <= Elements(S.order))
  }

  ghost predicate StateOK<ND, ED>(g: GraphState<ND, ED>, ex: Option<EdgeID>, roots: set<NodeID>, rootsOnly: bool, S: Summary) {
    Classified(g, S) && FinishOrder(g, ex, S) && Discovery(g, ex, S) && Starts(g, roots, rootsOnly, S)
  }

  /** What holds of the last callback, given the summary `P` of the callbacks before it. */
  ghost predicate LastOK<ND, ED>(g: GraphState<ND, ED>, roots: set<NodeID>, rootsOnly: bool, P: Summary, ev: Event) {
    match ev
    case InitNode(n) => n in g.nodes && P == Empty
    case StartNode(n) =>
      n !in P.disc && P.disc == Elements(P.order)
      && (n in roots || (!rootsOnly && n in g.nodes && roots <= P.disc))
    case DiscoverNode(n) => n !in P.disc
    case ExamineEdge(e) =>
      e in g.edges && e !in P.examined && g.edges[e].tail in P.disc && g.edges[e].tail !in P.order
    case TreeEdge(e) => e in g.edges && e !in P.trees && g.edges[e].head !in P.disc
    case BackEdge(e) =>
      e in g.edges && e !in P.trees && g.edges[e].head in P.disc && g.edges[e].head !in P.order
      && Reach(g, {}, g.edges[e].head, g.edges[e].tail)
    case ForwardOrCrossEdge(e) => e in g.edges && e !in P.trees && g.edges[e].head in P.order
    case FinishEdge(e) => e in P.examined
    case FinishNode(n) =>
      n in P.disc && n !in P.order && (n in P.started ==> P.disc == Elements(P.order) + {n})
      && Starts(g, roots, rootsOnly, P)
  }

  /** Only a just-started root may be undiscovered, and only a just-discovered root may be missing. */
  ghost predicate RootPending<ND, ED>(g: GraphState<ND, ED>, tr: seq<Event>) {
    var S := Summarize(tr);
    && (forall n | n in S.started && n !in S.disc :: tr != [] && tr[|tr| - 1] == StartNode(n))
    && (forall n | n in S.disc && n !in g.nodes :: tr != [] && tr[|tr| - 1] == DiscoverNode(n))
  }

  /** The whole search ran: everything discovered finished, every examined edge was classified. */
  ghost predicate Complete<ND, ED>(g: GraphState<ND, ED>, roots: set<NodeID>, rootsOnly: bool, S: Summary) {
    && S.disc == Elements(S.order)
    && roots <= S.disc
    && S.disc <= g.nodes.Keys
    && (!rootsOnly ==> g.nodes.Keys <= S.disc)
    && S.examined == S.trees + S.backs + S.fwds
  }

  /** The search stopped right after discovering a root that is not in the graph. */
  ghost predicate MissingRoot<ND, ED>(g: GraphState<ND, ED>, tr: seq<Event>) {
    tr != [] && tr[|tr| - 1].DiscoverNode?
    && tr[|tr| - 1].node in Summarize(tr).started && tr[|tr| - 1].node !in g.nodes
  }

  /**
   * The outcome of a search whose callbacks were `trace`: the visitor's
   * first non-`Continue` answer is the result; otherwise the search either
   * ran to completion and the result is the visitor's `finish`, or a root
   * was missing and it threw `NotFound`.
   */
  ghost predicate Reported<ND, ED, S, R>(g: GraphState<ND, ED>, ex: Option<EdgeID>, roots: set<NodeID>, rootsOnly: bool,
                                         v: Visitor<S, R>, s0: S, trace: seq<Event>, r: Result<R>, s: S) {
    var S := Summarize(trace);
    var c := RunVisitor(v, s0, trace).1;
    && StateOK(g, ex, roots, rootsOnly, S)
    && RootPending(g, trace)
    && s == RunVisitor(v, s0, trace).0
    && (trace != [] ==> RunVisitor(v, s0, trace[..|trace| - 1]).1.Continue?)
    && (!c.Continue? ==>
          trace != [] && r == ResultOf(c)
          && LastOK(g, roots, rootsOnly, Summarize(trace[..|trace| - 1]), trace[|trace| - 1]))
    && (c.Continue? ==>
          (r == Ok(v.finish(s)) && Complete(g, roots, rootsOnly, S))
          || (r == Err(NotFound) && MissingRoot(g, trace)))
  }

  // ------------------------------------------------------------------
  // Invariants of the search loop
  // ------------------------------------------------------------------

  /** Bookkeeping that holds between callbacks (except right after a root starts or a missing root is discovered). */
  ghost predicate Tidy<ND, ED>(g: GraphState<ND, ED>, S: Summary) {
    && S.started <= S.disc
    && S.disc <= g.nodes.Keys
    && S.examined == S.trees + S.backs + S.fwds
    && (forall e | e in S.examined :: e in g.edges && g.edges[e].tail in S.disc)
    && (forall e | e in S.trees :: e in g.edges && g.edges[e].head in S.disc)
  }

  ghost predicate Colored(states: map<NodeID, Color>, S: Summary) {
    states.Keys == S.disc && forall n | n in states :: (states[n] == Finished <==> n in S.order)
  }

  /** A node's remaining out-edges, and all its other loaded out-edges handled (but the pending one). */
  ghost predicate FrameOK<ND, ED>(g: GraphState<ND, ED>, ex: Option<EdgeID>, S: Summary, w: NodeID,
                                  rem: seq<EdgeID>, pending: Option<EdgeID>) {
    && Increasing(rem)
    && (forall x | x in rem :: Loaded(g, ex, S.started, w, x) && x !in S.examined)
    && (forall x | Loaded(g, ex, S.started, w, x) && x !in rem && pending != Some(x) :: Handled(g, S, x))
  }

  ghost predicate TreeLink<ND, ED>(g: GraphState<ND, ED>, S: Summary, edge: Option<EdgeID>, t: NodeID, h: NodeID) {
    edge.Some? && edge.value in S.trees && edge.value in g.edges
    && g.edges[edge.value].tail == t && g.edges[edge.value].head == h
  }

  /** Each node of `path` reaches every later one. */
  ghost predicate Chain<ND, ED>(g: GraphState<ND, ED>, path: seq<NodeID>) {
    forall j, k | 0 <= j <= k < |path| :: Reach(g, {}, path[j], path[k])
  }

  /** A summary that only grew: nothing forgotten, no new root. */
  ghost predicate Grows(S: Summary, S': Summary) {
    && S'.started == S.started && S.disc <= S'.disc && S.order <= S'.order
    && S.examined <= S'.examined && S.trees <= S'.trees && S.backs <= S'.backs && S.fwds <= S'.fwds
  }

  /** `path` lists, from the root, exactly the discovered but unfinished nodes. */
  ghost predicate OnPath<ND, ED>(g: GraphState<ND, ED>, root: NodeID, S: Summary, path: seq<NodeID>) {
    && path != [] && path[0] == root && Distinct(path)
    && (forall n | n in path :: n in S.disc && n !in S.order && n in g.nodes)
    && (forall n | n in S.disc && n !in S.order :: n in path)
    && root in S.started
    && (forall k | 0 < k < |path| :: path[k] !in S.started)
  }

  /** Every node of `path` is reachable from the root, with the root's excluded edge left out. */
  ghost predicate RootReach<ND, ED>(g: GraphState<ND, ED>, ex: Option<EdgeID>, root: NodeID, path: seq<NodeID>) {
    forall k | 0 <= k < |path| :: Reach(g, RootBan(g, ex, root), root, path[k])
  }

  /** Each suspended frame belongs to its node of `path` and waits on the tree edge to the next one. */
  ghost predicate Links<ND, ED>(g: GraphState<ND, ED>, S: Summary, path: seq<NodeID>, frames: seq<Frame>) {
    |path| == |frames| + 1
    && forall k | 0 <= k < |frames| :: frames[k].tail == path[k] && TreeLink(g, S, frames[k].edge, path[k], path[k + 1])
  }

  ghost predicate FramesOK<ND, ED>(g: GraphState<ND, ED>, ex: Option<EdgeID>, S: Summary, path: seq<NodeID>, frames: seq<Frame>) {
    |path| == |frames| + 1
    && forall k | 0 <= k < |frames| :: FrameOK(g, ex, S, path[k], frames[k].remaining, frames[k].edge)
  }

  /**
   * The search from `root` in progress: `path` is the chain of discovered
   * but unfinished nodes, the suspended ones in `frames` and the current one
   * last (with out-edges `rem` still to examine), each reached from the one
   * before by a tree edge.
   */
  ghost predicate SearchInv<ND, ED>(g: GraphState<ND, ED>, ex: Option<EdgeID>, root: NodeID, S: Summary,
                                    path: seq<NodeID>, frames: seq<Frame>, rem: seq<EdgeID>) {
    && OnPath(g, root, S, path) && Chain(g, path) && RootReach(g, ex, root, path)
    && Links(g, S, path, frames) && FramesOK(g, ex, S, path, frames)
    && FrameOK(g, ex, S, path[|path| - 1], rem, None)
  }

  /** The stack between pops: the top frame becomes the current node. */
  ghost predicate StackInv<ND, ED>(g: GraphState<ND, ED>, ex: Option<EdgeID>, root: NodeID, S: Summary,
                                   path: seq<NodeID>, stack: seq<Frame>) {
    && |stack| == |path| > 0
    && stack[|stack| - 1].tail == path[|path| - 1]
    && (stack[|stack| - 1].edge.Some? ==> stack[|stack| - 1].edge.value in S.examined)
    && SearchInv(g, ex, root, S, path, stack[..|stack| - 1], stack[|stack| - 1].remaining)
  }

  // ------------------------------------------------------------------
  // Traces grow one callback at a time
  // ------------------------------------------------------------------

  lemma SummarizeSnoc(tr: seq<Event>, ev: Event)
    ensures Summarize(tr + [ev]) == Summarize(tr).Add(ev)
  {
    assert (tr + [ev])[..|tr|] == tr;
  }

  /** Between callbacks no root is pending: only a just-started or just-discovered root can break this. */
  ghost predicate Quiet<ND, ED>(g: GraphState<ND, ED>, S: Summary) {
    S.started <= S.disc && S.disc <= g.nodes.Keys
  }

  lemma QuietPending<ND, ED>(g: GraphState<ND, ED>, tr: seq<Event>)
    requires Quiet(g, Summarize(tr))
    ensures RootPending(g, tr)
  {
  }

  /** Hands one callback to the visitor and records it. */
  method Emit<S, R>(v: Visitor<S, R>, ghost s0: S, s: S, ghost trace: seq<Event>, ev: Event)
    returns (s': S, c: Control<R>, ghost trace': seq<Event>)
    requires Running(v, s0, trace, s)
    ensures trace' == trace + [ev] && Summarize(trace') == Summarize(trace).Add(ev)
    ensures trace'[..|trace'| - 1] == trace && trace'[|trace'| - 1] == ev
    ensures RunVisitor(v, s0, trace') == (s', c)
    ensures RunVisitor(v, s0, trace'[..|trace'| - 1]).1.Continue?
  {
    var answer := v.on(s, ev);
    s', c := answer.0, answer.1;
    trace' := trace + [ev];
    SummarizeSnoc(trace, ev);
    assert trace'[..|trace|] == trace;
  }

  /**
   * Hands a callback to the visitor once the step it reports is known to
   * keep the invariants; an answer other than `Continue` is reported as the
   * outcome of the search.
   */
  method Notify<ND, ED, S, R>(g: GraphState<ND, ED>, ghost ex: Option<EdgeID>, ghost roots: set<NodeID>, ghost rootsOnly: bool,
                              v: Visitor<S, R>, ghost s0: S, s: S, ghost trace: seq<Event>, ev: Event)
    returns (s': S, c: Control<R>, ghost trace': seq<Event>)
    requires Running(v, s0, trace, s)
    requires StateOK(g, ex, roots, rootsOnly, Summarize(trace).Add(ev)) && Quiet(g, Summarize(trace).Add(ev))
    requires LastOK(g, roots, rootsOnly, Summarize(trace), ev)
    ensures Summarize(trace') == Summarize(trace).Add(ev)
    ensures c.Continue? ==> Running(v, s0, trace', s')
    ensures !c.Continue? ==> Reported(g, ex, roots, rootsOnly, v, s0, trace', ResultOf(c), s')
  {
    s', c, trace' := Emit(v, s0, s, trace, ev);
    if !c.Continue? {
      QuietPending(g, trace');
      Stopped(g, ex, roots, rootsOnly, v, s0, trace', s');
    }
  }

  /** A callback that answered something other than `Continue` ends the search with that answer. */
  lemma Stopped<ND, ED, S, R>(g: GraphState<ND, ED>, ex: Option<EdgeID>, roots: set<NodeID>, rootsOnly: bool,
                              v: Visitor<S, R>, s0: S, trace: seq<Event>, s: S)
    requires trace != [] && RunVisitor(v, s0, trace[..|trace| - 1]).1.Continue?
    requires s == RunVisitor(v, s0, trace).0 && !RunVisitor(v, s0, trace).1.Continue?
    requires StateOK(g, ex, roots, rootsOnly, Summarize(trace)) && RootPending(g, trace)
    requires LastOK(g, roots, rootsOnly, Summarize(trace[..|trace| - 1]), trace[|trace| - 1])
    ensures Reported(g, ex, roots, rootsOnly, v, s0, trace, ResultOf(RunVisitor(v, s0, trace).1), s)
  {
  }

  lemma PendingStart<ND, ED>(g: GraphState<ND, ED>, tr: seq<Event>, n: NodeID)
    requires Quiet(g, Summarize(tr)) && n !in Summarize(tr).disc
    ensures RootPending(g, tr + [StartNode(n)])
  {
    SummarizeSnoc(tr, StartNode(n));
  }

  /** Right after a root is discovered, only that root may be missing from the graph. */
  lemma PendingRoot<ND, ED>(g: GraphState<ND, ED>, tr: seq<Event>, n: NodeID)
    requires tr != [] && tr[|tr| - 1] == DiscoverNode(n)
    requires Summarize(tr).started <= Summarize(tr).disc && Summarize(tr).disc - {n} <= g.nodes.Keys
    ensures RootPending(g, tr)
  {
  }

  /** A root that is not in the graph ends the search with `NotFound` once discovered. */
  lemma MissingReported<ND, ED, S, R>(g: GraphState<ND, ED>, ex: Option<EdgeID>, roots: set<NodeID>, rootsOnly: bool,
                                      v: Visitor<S, R>, s0: S, trace: seq<Event>, s: S, n: NodeID)
    requires trace != [] && trace[|trace| - 1] == DiscoverNode(n)
    requires n in Summarize(trace).started && n !in g.nodes
    requires Running(v, s0, trace, s)
    requires StateOK(g, ex, roots, rootsOnly, Summarize(trace)) && RootPending(g, trace)
    ensures Reported(g, ex, roots, rootsOnly, v, s0, trace, Err(NotFound), s)
  {
  }

  /** A search that visited every root (and, unless `rootsOnly`, every node) ends with the visitor's `finish`. */
  lemma CompleteReported<ND, ED, S, R>(g: GraphState<ND, ED>, ex: Option<EdgeID>, roots: set<NodeID>, rootsOnly: bool,
                                       v: Visitor<S, R>, s0: S, trace: seq<Event>, s: S)
    requires Running(v, s0, trace, s)
    requires StateOK(g, ex, roots, rootsOnly, Summarize(trace)) && Tidy(g, Summarize(trace))
    requires Summarize(trace).disc == Elements(Summarize(trace).order)
    requires roots <= Summarize(trace).disc && (!rootsOnly ==> g.nodes.Keys <= Summarize(trace).disc)
    ensures Reported(g, ex, roots, rootsOnly, v, s0, trace, Ok(v.finish(s)), s)
  {
    QuietPending(g, trace);
  }

  // ------------------------------------------------------------------
  // One lemma per step of the search
  // ------------------------------------------------------------------

  /** The finish-order facts survive more discoveries, examinations and back edges. */
  lemma FinishOrderMono<ND, ED>(g: GraphState<ND, ED>, ex: Option<EdgeID>, S: Summary, S': Summary)
    requires FinishOrder(g, ex, S)
    requires S'.order == S.order && S'.started == S.started
    requires S.disc <= S'.disc && S.examined <= S'.examined && S.backs <= S'.backs
    requires forall e | e in S'.backs && e in g.edges :: g.edges[e].head in S'.disc
    ensures FinishOrder(g, ex, S')
  {
  }

  /** Discovering a started root keeps every discovered node accounted for. */
  lemma DiscoverRoot<ND, ED>(g: GraphState<ND, ED>, ex: Option<EdgeID>, S: Summary, n: NodeID)
    requires Discovery(g, ex, S) && n in S.started
    ensures Discovery(g, ex, S.(disc := S.disc + {n}))
  {
    var S' := S.(disc := S.disc + {n});
    forall m | m in S'.disc
      ensures Found(g, ex, S'.started, m)
    {
      if m == n {
        ReachRefl(g, RootBan(g, ex, n), n);
      } else {
        assert Found(g, ex, S.started, m);
      }
    }
    forall m | m in S'.disc && m !in S'.started
      ensures Entered(g, S'.trees, m)
    {
      assert Entered(g, S.trees, m);
    }
  }

  lemma EmptyOK<ND, ED>(g: GraphState<ND, ED>, ex: Option<EdgeID>, roots: set<NodeID>, rootsOnly: bool)
    ensures StateOK(g, ex, roots, rootsOnly, Empty) && Tidy(g, Empty) && Empty.disc == Elements(Empty.order)
  {
  }

  lemma StepStart<ND, ED>(g: GraphState<ND, ED>, ex: Option<EdgeID>, roots: set<NodeID>, rootsOnly: bool, S: Summary, n: NodeID)
    requires StateOK(g, ex, roots, rootsOnly, S) && Tidy(g, S) && S.disc == Elements(S.order)
    requires n !in S.disc
    requires n in roots || (!rootsOnly && n in g.nodes && roots <= S.disc)
    ensures StateOK(g, ex, roots, rootsOnly, S.Add(StartNode(n)))
    ensures LastOK(g, roots, rootsOnly, S, StartNode(n))
  {
    var S1 := S.Add(StartNode(n));
    assert S1 == S.(started := S.started + {n});
    assert Classified(g, S1);
    assert FinishOrder(g, ex, S1) by {
      forall i, e | 0 <= i < |S1.order| && Loaded(g, ex, S1.started, S1.order[i], e)
        ensures e in S1.examined && (e in S1.backs || g.edges[e].head in S1.order[..i])
      {
        assert S.order[i] in S.disc;
        assert Loaded(g, ex, S.started, S.order[i], e);
      }
    }
    assert Discovery(g, ex, S1) by {
      forall m | m in S1.disc
        ensures Found(g, ex, S1.started, m)
      {
        assert Found(g, ex, S.started, m);
        var r :| r in S.started && Reach(g, RootBan(g, ex, r), r, m);
        assert r in S1.started;
      }
      forall m | m in S1.disc && m !in S1.started
        ensures Entered(g, S1.trees, m)
      {
        assert Entered(g, S.trees, m);
      }
    }
    assert Starts(g, roots, rootsOnly, S1);
  }

  /** A root that starts and is discovered; a missing root leaves only `RootPending` to hold. */
  lemma StepDiscoverRoot<ND, ED>(g: GraphState<ND, ED>, ex: Option<EdgeID>, roots: set<NodeID>, rootsOnly: bool, S: Summary, n: NodeID)
    requires StateOK(g, ex, roots, rootsOnly, S.Add(StartNode(n))) && Tidy(g, S) && S.disc == Elements(S.order)
    requires n !in S.disc
    ensures StateOK(g, ex, roots, rootsOnly, S.Add(StartNode(n)).Add(DiscoverNode(n)))
    ensures LastOK(g, roots, rootsOnly, S.Add(StartNode(n)), DiscoverNode(n))
    ensures var S2 := S.Add(StartNode(n)).Add(DiscoverNode(n));
      S2.started <= S2.disc && S2.disc - {n} <= g.nodes.Keys && n in S2.started
  {
    var S1 := S.Add(StartNode(n));
    var S2 := S1.Add(DiscoverNode(n));
    assert S2 == S1.(disc := S1.disc + {n});
    FinishOrderMono(g, ex, S1, S2);
    DiscoverRoot(g, ex, S1, n);
  }

  lemma DiscoverRootTidy<ND, ED>(g: GraphState<ND, ED>, S: Summary, n: NodeID)
    requires Tidy(g, S) && n in g.nodes
    ensures Tidy(g, S.Add(StartNode(n)).Add(DiscoverNode(n)))
  {
  }

  /** The search from a freshly discovered root `n`, before its first edge. */
  lemma InitSearch<ND, ED>(g: GraphState<ND, ED>, ex: Option<EdgeID>, S: Summary, n: NodeID, loaded: seq<EdgeID>)
    requires Tidy(g, S) && S.disc == Elements(S.order) && n !in S.disc && n in g.nodes
    requires Increasing(loaded)
    requires forall x :: x in loaded <==> Loaded(g, ex, S.started + {n}, n, x)
    ensures SearchInv(g, ex, n, S.Add(StartNode(n)).Add(DiscoverNode(n)), [n], [], loaded)
  {
    var S2 := S.Add(StartNode(n)).Add(DiscoverNode(n));
    ReachRefl(g, {}, n);
    ReachRefl(g, RootBan(g, ex, n), n);
  }

  // ------------------------------------------------------------------
  // Frames and paths as the summary grows
  // ------------------------------------------------------------------

  lemma PrefixMember(s: seq<NodeID>, t: seq<NodeID>, n: NodeID)
    requires s <= t && n in s
    ensures n in t
  {
    var i :| 0 <= i < |s| && s[i] == n;
    assert t[i] == n;
  }

  lemma HandledMono<ND, ED>(g: GraphState<ND, ED>, S: Summary, S': Summary, x: EdgeID)
    requires Grows(S, S') && Handled(g, S, x)
    ensures Handled(g, S', x)
  {
    if x !in S.backs {
      PrefixMember(S.order, S'.order, g.edges[x].head);
    }
  }

  /** A frame stays well formed when the summary grows and the edges it gives up are handled. */
  lemma FrameStep<ND, ED>(g: GraphState<ND, ED>, ex: Option<EdgeID>, S: Summary, S': Summary, w: NodeID,
                          rem: seq<EdgeID>, pend: Option<EdgeID>, rem': seq<EdgeID>, pend': Option<EdgeID>)
    requires FrameOK(g, ex, S, w, rem, pend) && Grows(S, S')
    requires Increasing(rem') && forall x | x in rem' :: x in rem && x !in S'.examined
    requires forall x | Loaded(g, ex, S.started, w, x) && x !in rem' && pend' != Some(x) && (x in rem || pend == Some(x)) ::
               Handled(g, S', x)
    ensures FrameOK(g, ex, S', w, rem', pend')
  {
    forall x | Loaded(g, ex, S'.started, w, x) && x !in rem' && pend' != Some(x)
      ensures Handled(g, S', x)
    {
      if !(x in rem || pend == Some(x)) {
        HandledMono(g, S, S', x);
      }
    }
  }

  /** Examining and classifying an edge of the current node keeps the suspended frames and the path. */
  lemma SearchSame<ND, ED>(g: GraphState<ND, ED>, ex: Option<EdgeID>, root: NodeID, S: Summary, S': Summary,
                           path: seq<NodeID>, frames: seq<Frame>, rem: seq<EdgeID>, rem': seq<EdgeID>)
    requires SearchInv(g, ex, root, S, path, frames, rem) && Grows(S, S')
    requires S'.disc == S.disc && S'.order == S.order && S'.trees == S.trees
    requires forall x | x in S'.examined && x !in S.examined :: x in g.edges && g.edges[x].tail == path[|path| - 1]
    requires FrameOK(g, ex, S', path[|path| - 1], rem', None)
    ensures SearchInv(g, ex, root, S', path, frames, rem')
  {
    forall k | 0 <= k < |frames|
      ensures FrameOK(g, ex, S', path[k], frames[k].remaining, frames[k].edge)
    {
      var f := frames[k];
      assert FrameOK(g, ex, S, path[k], f.remaining, f.edge);
      forall x | x in f.remaining ensures x !in S'.examined {
        assert Loaded(g, ex, S.started, path[k], x);
        assert path[k] != path[|path| - 1];
      }
      FrameStep(g, ex, S, S', path[k], f.remaining, f.edge, f.remaining, f.edge);
    }
  }

  /** The first step of every edge: it is examined. */
  lemma StepExamine<ND, ED>(g: GraphState<ND, ED>, ex: Option<EdgeID>, roots: set<NodeID>, rootsOnly: bool, root: NodeID,
                            S: Summary, path: seq<NodeID>, frames: seq<Frame>, rem: seq<EdgeID>)
    requires StateOK(g, ex, roots, rootsOnly, S) && Tidy(g, S)
    requires SearchInv(g, ex, root, S, path, frames, rem) && rem != []
    ensures StateOK(g, ex, roots, rootsOnly, S.Add(ExamineEdge(rem[|rem| - 1])))
    ensures Quiet(g, S.Add(ExamineEdge(rem[|rem| - 1])))
    ensures LastOK(g, roots, rootsOnly, S, ExamineEdge(rem[|rem| - 1]))
  {
    var e := rem[|rem| - 1];
    var S1 := S.Add(ExamineEdge(e));
    assert S1 == S.(examined := S.examined + {e});
    assert Loaded(g, ex, S.started, path[|path| - 1], e);
    FinishOrderMono(g, ex, S, S1);
  }

  /** Classifying the current edge as a back or forward/cross edge: it leaves the frame handled. */
  lemma SearchClassified<ND, ED>(g: GraphState<ND, ED>, ex: Option<EdgeID>, root: NodeID, S: Summary, S': Summary,
                                 path: seq<NodeID>, frames: seq<Frame>, rem: seq<EdgeID>)
    requires SearchInv(g, ex, root, S, path, frames, rem) && rem != [] && Grows(S, S')
    requires S'.disc == S.disc && S'.order == S.order && S'.trees == S.trees
    requires S'.examined == S.examined + {rem[|rem| - 1]} && Handled(g, S', rem[|rem| - 1])
    ensures SearchInv(g, ex, root, S', path, frames, rem[..|rem| - 1])
  {
    var e := rem[|rem| - 1];
    var cur := path[|path| - 1];
    assert Loaded(g, ex, S.started, cur, e);
    var rem' := rem[..|rem| - 1];
    assert rem == rem' + [e];
    FrameStep(g, ex, S, S', cur, rem, None, rem', None);
    SearchSame(g, ex, root, S, S', path, frames, rem, rem');
  }

  /** An edge into a node still on the path: a back edge, which closes a cycle. */
  lemma StepBack<ND, ED>(g: GraphState<ND, ED>, ex: Option<EdgeID>, roots: set<NodeID>, rootsOnly: bool, root: NodeID,
                         S: Summary, path: seq<NodeID>, frames: seq<Frame>, rem: seq<EdgeID>)
    requires StateOK(g, ex, roots, rootsOnly, S) && Tidy(g, S)
    requires SearchInv(g, ex, root, S, path, frames, rem) && rem != []
    requires rem[|rem| - 1] in g.edges
    requires g.edges[rem[|rem| - 1]].head in S.disc && g.edges[rem[|rem| - 1]].head !in S.order
    ensures var e := rem[|rem| - 1];
      var S1 := S.Add(ExamineEdge(e));
      var S2 := S1.Add(BackEdge(e));
      && StateOK(g, ex, roots, rootsOnly, S2) && Tidy(g, S2)
      && LastOK(g, roots, rootsOnly, S1, BackEdge(e)) && LastOK(g, roots, rootsOnly, S2, FinishEdge(e))
      && SearchInv(g, ex, root, S2, path, frames, rem[..|rem| - 1])
  {
    var e := rem[|rem| - 1];
    var h := g.edges[e].head;
    var S2 := S.Add(ExamineEdge(e)).Add(BackEdge(e));
    assert S2 == S.(examined := S.examined + {e}, backs := S.backs + {e});
    assert Loaded(g, ex, S.started, path[|path| - 1], e);
    var j :| 0 <= j < |path| && path[j] == h;
    assert Reach(g, {}, path[j], path[|path| - 1]);
    FinishOrderMono(g, ex, S, S2);
    SearchClassified(g, ex, root, S, S2, path, frames, rem);
  }

  /** An edge into a finished node: a forward or cross edge. */
  lemma StepForward<ND, ED>(g: GraphState<ND, ED>, ex: Option<EdgeID>, roots: set<NodeID>, rootsOnly: bool, root: NodeID,
                            S: Summary, path: seq<NodeID>, frames: seq<Frame>, rem: seq<EdgeID>)
    requires StateOK(g, ex, roots, rootsOnly, S) && Tidy(g, S)
    requires SearchInv(g, ex, root, S, path, frames, rem) && rem != []
    requires rem[|rem| - 1] in g.edges && g.edges[rem[|rem| - 1]].head in S.order
    ensures var e := rem[|rem| - 1];
      var S1 := S.Add(ExamineEdge(e));
      var S2 := S1.Add(ForwardOrCrossEdge(e));
      && StateOK(g, ex, roots, rootsOnly, S2) && Tidy(g, S2)
      && LastOK(g, roots, rootsOnly, S1, ForwardOrCrossEdge(e)) && LastOK(g, roots, rootsOnly, S2, FinishEdge(e))
      && SearchInv(g, ex, root, S2, path, frames, rem[..|rem| - 1])
  {
    var e := rem[|rem| - 1];
    var S2 := S.Add(ExamineEdge(e)).Add(ForwardOrCrossEdge(e));
    assert S2 == S.(examined := S.examined + {e}, fwds := S.fwds + {e});
    assert Loaded(g, ex, S.started, path[|path| - 1], e);
    FinishOrderMono(g, ex, S, S2);
    SearchClassified(g, ex, root, S, S2, path, frames, rem);
  }

  /** A new tree edge into an undiscovered node keeps the discovery facts. */
  lemma DiscoveryTree<ND, ED>(g: GraphState<ND, ED>, ex: Option<EdgeID>, S: Summary, e: EdgeID)
    requires Discovery(g, ex, S) && S.started <= S.disc
    requires forall x | x in S.trees :: x in g.edges && g.edges[x].head in S.disc
    requires e in g.edges && g.edges[e].head !in S.disc
    ensures Discovery(g, ex, S.(trees := S.trees + {e}))
  {
    var S2 := S.(trees := S.trees + {e});
    forall m | m in S2.disc ensures Found(g, ex, S2.started, m) {
      assert Found(g, ex, S.started, m);
    }
    forall m | m in S2.disc && m !in S2.started ensures Entered(g, S2.trees, m) {
      assert Entered(g, S.trees, m);
      var f :| f in S.trees && f in g.edges && g.edges[f].head == m;
      assert f in S2.trees;
    }
  }

  /** An edge into an undiscovered node becomes a tree edge. */
  lemma StepTree<ND, ED>(g: GraphState<ND, ED>, ex: Option<EdgeID>, roots: set<NodeID>, rootsOnly: bool, S: Summary, e: EdgeID)
    requires StateOK(g, ex, roots, rootsOnly, S) && Tidy(g, S)
    requires e in g.edges && e !in S.examined && g.edges[e].tail in S.disc && g.edges[e].head !in S.disc
    ensures var S1 := S.Add(ExamineEdge(e));
      StateOK(g, ex, roots, rootsOnly, S1.Add(TreeEdge(e))) && Quiet(g, S1.Add(TreeEdge(e)))
      && LastOK(g, roots, rootsOnly, S1, TreeEdge(e))
  {
    var S2 := S.Add(ExamineEdge(e)).Add(TreeEdge(e));
    assert S2 == S.(examined := S.examined + {e}, trees := S.trees + {e});
    FinishOrderMono(g, ex, S, S2);
    DiscoveryTree(g, ex, S.(examined := S.examined + {e}), e);
  }

  /** Discovering the head of a new tree edge, reachable from the current root. */
  lemma DiscoveryChild<ND, ED>(g: GraphState<ND, ED>, ex: Option<EdgeID>, root: NodeID, S: Summary, e: EdgeID)
    requires Discovery(g, ex, S)
    requires e in S.trees && e in g.edges && root in S.started && e !in RootBan(g, ex, root)
    requires Reach(g, RootBan(g, ex, root), root, g.edges[e].tail)
    ensures Discovery(g, ex, S.(disc := S.disc + {g.edges[e].head}))
  {
    var h := g.edges[e].head;
    var S3 := S.(disc := S.disc + {h});
    forall m | m in S3.disc ensures Found(g, ex, S3.started, m) {
      if m == h {
        ReachStep(g, RootBan(g, ex, root), root, e);
      } else {
        assert Found(g, ex, S.started, m);
      }
    }
    forall m | m in S3.disc && m !in S3.started ensures Entered(g, S3.trees, m) {
      if m != h {
        assert Entered(g, S.trees, m);
      }
    }
  }

  /** The head of a new tree edge is discovered. */
  lemma StepChild<ND, ED>(g: GraphState<ND, ED>, ex: Option<EdgeID>, roots: set<NodeID>, rootsOnly: bool, root: NodeID,
                          S: Summary, e: EdgeID)
    requires StateOK(g, ex, roots, rootsOnly, S) && Tidy(g, S) && g.Valid()
    requires e in g.edges && e !in S.examined && g.edges[e].tail in S.disc && g.edges[e].head !in S.disc
    requires root in S.started && e !in RootBan(g, ex, root) && Reach(g, RootBan(g, ex, root), root, g.edges[e].tail)
    ensures var S2 := S.Add(ExamineEdge(e)).Add(TreeEdge(e));
      var S3 := S2.Add(DiscoverNode(g.edges[e].head));
      StateOK(g, ex, roots, rootsOnly, S3) && Tidy(g, S3) && LastOK(g, roots, rootsOnly, S2, DiscoverNode(g.edges[e].head))
  {
    var h := g.edges[e].head;
    var S2 := S.Add(ExamineEdge(e)).Add(TreeEdge(e));
    var S3 := S2.Add(DiscoverNode(h));
    assert S2 == S.(examined := S.examined + {e}, trees := S.trees + {e});
    assert S3 == S2.(disc := S2.disc + {h});
    g.HeadHasEdge(e);
    StepTree(g, ex, roots, rootsOnly, S, e);
    FinishOrderMono(g, ex, S2, S3);
    DiscoveryChild(g, ex, root, S2, e);
  }

  // ------------------------------------------------------------------
  // Following a tree edge: push
  // ------------------------------------------------------------------

  lemma PushOnPath<ND, ED>(g: GraphState<ND, ED>, root: NodeID, S: Summary, S': Summary, path: seq<NodeID>, h: NodeID)
    requires OnPath(g, root, S, path)
    requires S'.started == S.started && S'.order == S.order && S'.disc == S.disc + {h}
    requires h !in S.disc && h !in S.started && h !in S.order && h in g.nodes
    ensures OnPath(g, root, S', path + [h])
  {
    var p' := path + [h];
    forall i, j | 0 <= i < j < |p'| ensures p'[i] != p'[j] {
      if j < |path| {
        assert path[i] != path[j];
      } else {
        assert path[i] in path;
      }
    }
    forall n | n in S'.disc && n !in S'.order ensures n in p' {
      if n != h {
        assert n in path;
      }
    }
    forall k | 0 < k < |p'| ensures p'[k] !in S'.started {
      if k < |path| {
        assert path[k] !in S.started;
      }
    }
  }

  lemma RootReachExtend<ND, ED>(g: GraphState<ND, ED>, ex: Option<EdgeID>, root: NodeID, path: seq<NodeID>, e: EdgeID)
    requires RootReach(g, ex, root, path) && path != []
    requires e in g.edges && g.edges[e].tail == path[|path| - 1] && e !in RootBan(g, ex, root)
    ensures RootReach(g, ex, root, path + [g.edges[e].head])
  {
    var p' := path + [g.edges[e].head];
    assert Reach(g, RootBan(g, ex, root), root, path[|path| - 1]);
    ReachStep(g, RootBan(g, ex, root), root, e);
    forall k | 0 <= k < |p'| ensures Reach(g, RootBan(g, ex, root), root, p'[k]) {
      if k < |path| {
        assert Reach(g, RootBan(g, ex, root), root, path[k]);
      }
    }
  }

  /** Each node of the path reaches the head of an edge out of its last node. */
  lemma ChainExtend<ND, ED>(g: GraphState<ND, ED>, path: seq<NodeID>, e: EdgeID)
    requires Chain(g, path) && path != [] && e in g.edges && g.edges[e].tail == path[|path| - 1]
    ensures Chain(g, path + [g.edges[e].head])
  {
    var p' := path + [g.edges[e].head];
    forall j, k | 0 <= j <= k < |p'| ensures Reach(g, {}, p'[j], p'[k]) {
      if k == |path| {
        if j == |path| {
          ReachRefl(g, {}, p'[j]);
        } else {
          assert Reach(g, {}, path[j], path[|path| - 1]);
          ReachStep(g, {}, path[j], e);
        }
      } else {
        assert Reach(g, {}, path[j], path[k]);
      }
    }
  }

  lemma PushLinks<ND, ED>(g: GraphState<ND, ED>, S: Summary, S': Summary, path: seq<NodeID>, frames: seq<Frame>,
                          e: EdgeID, rem': seq<EdgeID>)
    requires Links(g, S, path, frames) && S.trees <= S'.trees
    requires e in S'.trees && e in g.edges && g.edges[e].tail == path[|path| - 1]
    ensures Links(g, S', path + [g.edges[e].head], frames + [Frame(path[|path| - 1], Some(e), rem')])
  {
    var p' := path + [g.edges[e].head];
    var f' := frames + [Frame(path[|path| - 1], Some(e), rem')];
    forall k | 0 <= k < |f'| ensures f'[k].tail == p'[k] && TreeLink(g, S', f'[k].edge, p'[k], p'[k + 1]) {
      if k < |frames| {
        assert TreeLink(g, S, frames[k].edge, path[k], path[k + 1]);
      }
    }
  }

  lemma PushFrames<ND, ED>(g: GraphState<ND, ED>, ex: Option<EdgeID>, root: NodeID, S: Summary, S': Summary,
                           path: seq<NodeID>, frames: seq<Frame>, rem: seq<EdgeID>, h: NodeID)
    requires OnPath(g, root, S, path) && FramesOK(g, ex, S, path, frames) && rem != []
    requires FrameOK(g, ex, S, path[|path| - 1], rem, None) && Grows(S, S')
    requires S'.examined == S.examined + {rem[|rem| - 1]}
    ensures FramesOK(g, ex, S', path + [h], frames + [Frame(path[|path| - 1], Some(rem[|rem| - 1]), rem[..|rem| - 1])])
  {
    var e := rem[|rem| - 1];
    var cur := path[|path| - 1];
    var rem' := rem[..|rem| - 1];
    assert rem == rem' + [e];
    assert Loaded(g, ex, S.started, cur, e);
    var p' := path + [h];
    var f' := frames + [Frame(cur, Some(e), rem')];
    forall k | 0 <= k < |f'| ensures FrameOK(g, ex, S', p'[k], f'[k].remaining, f'[k].edge) {
      if k < |frames| {
        var f := frames[k];
        assert FrameOK(g, ex, S, path[k], f.remaining, f.edge);
        assert path[k] != cur;
        FrameAside(g, ex, S, S', path[k], f.remaining, f.edge, cur, e);
      } else {
        FrameTop(g, ex, S, S', cur, rem);
      }
    }
  }

  /** A suspended frame of another node is untouched by examining an edge out of the current node. */
  lemma FrameAside<ND, ED>(g: GraphState<ND, ED>, ex: Option<EdgeID>, S: Summary, S': Summary, w: NodeID,
                           rem: seq<EdgeID>, pend: Option<EdgeID>, cur: NodeID, e: EdgeID)
    requires FrameOK(g, ex, S, w, rem, pend) && Grows(S, S') && S'.examined == S.examined + {e}
    requires w != cur && Loaded(g, ex, S.started, cur, e)
    ensures FrameOK(g, ex, S', w, rem, pend)
  {
    forall x | x in rem ensures x !in S'.examined {
      assert Loaded(g, ex, S.started, w, x);
    }
    FrameStep(g, ex, S, S', w, rem, pend, rem, pend);
  }

  /** The current node's frame, its last edge taken and pending. */
  lemma FrameTop<ND, ED>(g: GraphState<ND, ED>, ex: Option<EdgeID>, S: Summary, S': Summary, cur: NodeID, rem: seq<EdgeID>)
    requires rem != [] && FrameOK(g, ex, S, cur, rem, None) && Grows(S, S')
    requires S'.examined == S.examined + {rem[|rem| - 1]}
    ensures FrameOK(g, ex, S', cur, rem[..|rem| - 1], Some(rem[|rem| - 1]))
  {
    var e := rem[|rem| - 1];
    var rem' := rem[..|rem| - 1];
    assert rem == rem' + [e];
    forall x | x in rem' ensures x in rem && x !in S'.examined {
      var i :| 0 <= i < |rem'| && rem'[i] == x;
      assert rem[i] == x && rem[|rem| - 1] == e;
    }
    FrameStep(g, ex, S, S', cur, rem, None, rem', Some(e));
  }

  /** The out-edges of a newly discovered node are all loaded and none examined. */
  lemma NewCurrent<ND, ED>(g: GraphState<ND, ED>, ex: Option<EdgeID>, S: Summary, h: NodeID, remH: seq<EdgeID>)
    requires h !in S.started && Increasing(remH) && Elements(remH) == g.EdgesFrom(h)
    requires forall x | x in S.examined :: x in g.edges && g.edges[x].tail != h
    ensures FrameOK(g, ex, S, h, remH, None)
  {
    forall x | x in remH ensures Loaded(g, ex, S.started, h, x) && x !in S.examined {
      assert x in g.EdgesFrom(h);
    }
    forall x | Loaded(g, ex, S.started, h, x) ensures x in remH {
      assert x in g.EdgesFrom(h);
    }
  }

  /** Following a tree edge: the current node is suspended and its head becomes current. */
  lemma SearchPush<ND, ED>(g: GraphState<ND, ED>, ex: Option<EdgeID>, root: NodeID, S: Summary,
                           path: seq<NodeID>, frames: seq<Frame>, rem: seq<EdgeID>, remH: seq<EdgeID>)
    requires g.Valid() && SearchInv(g, ex, root, S, path, frames, rem) && rem != []
    requires forall x | x in S.examined :: x in g.edges && g.edges[x].tail in S.disc
    requires rem[|rem| - 1] in g.edges && g.edges[rem[|rem| - 1]].head !in S.disc
    requires g.edges[rem[|rem| - 1]].head !in S.started && g.edges[rem[|rem| - 1]].head !in S.order
    requires Increasing(remH) && Elements(remH) == g.EdgesFrom(g.edges[rem[|rem| - 1]].head)
    ensures var e := rem[|rem| - 1];
      var S3 := S.Add(ExamineEdge(e)).Add(TreeEdge(e)).Add(DiscoverNode(g.edges[e].head));
      && e !in RootBan(g, ex, root) && Reach(g, RootBan(g, ex, root), root, g.edges[e].tail)
      && SearchInv(g, ex, root, S3, path + [g.edges[e].head], frames + [Frame(path[|path| - 1], Some(e), rem[..|rem| - 1])], remH)
  {
    var e := rem[|rem| - 1];
    var h := g.edges[e].head;
    var cur := path[|path| - 1];
    var S3 := S.Add(ExamineEdge(e)).Add(TreeEdge(e)).Add(DiscoverNode(h));
    assert S3 == S.(examined := S.examined + {e}, trees := S.trees + {e}, disc := S.disc + {h});
    assert Loaded(g, ex, S.started, cur, e);
    assert Reach(g, RootBan(g, ex, root), root, path[|path| - 1]);
    g.HeadHasEdge(e);
    PushOnPath(g, root, S, S3, path, h);
    ChainExtend(g, path, e);
    RootReachExtend(g, ex, root, path, e);
    PushLinks(g, S, S3, path, frames, e, rem[..|rem| - 1]);
    PushFrames(g, ex, root, S, S3, path, frames, rem, h);
    NewCurrent(g, ex, S3, h, remH);
  }

  // ------------------------------------------------------------------
  // Finishing the current node: pop
  // ------------------------------------------------------------------

  /** A finished node's loaded out-edges are all handled: it joins the finish order. */
  lemma FinishOrderFinish<ND, ED>(g: GraphState<ND, ED>, ex: Option<EdgeID>, S: Summary, u: NodeID)
    requires FinishOrder(g, ex, S) && u in S.disc && u !in S.order && u in g.nodes
    requires forall e | Loaded(g, ex, S.started, u, e) :: Handled(g, S, e)
    ensures FinishOrder(g, ex, S.(order := S.order + [u]))
  {
    var S1 := S.(order := S.order + [u]);
    forall i, e | 0 <= i < |S1.order| && Loaded(g, ex, S1.started, S1.order[i], e)
      ensures e in S1.examined && (e in S1.backs || g.edges[e].head in S1.order[..i])
    {
      if i < |S.order| {
        assert S1.order[..i] == S.order[..i];
        assert S1.order[i] == S.order[i];
      } else {
        assert Handled(g, S, e);
        assert S1.order[..i] == S.order;
      }
    }
  }

  /** Finishing the current node once its out-edges are done. */
  lemma StepFinish<ND, ED>(g: GraphState<ND, ED>, ex: Option<EdgeID>, roots: set<NodeID>, rootsOnly: bool, root: NodeID,
                           S: Summary, path: seq<NodeID>, frames: seq<Frame>)
    requires StateOK(g, ex, roots, rootsOnly, S) && Tidy(g, S)
    requires SearchInv(g, ex, root, S, path, frames, [])
    ensures var S1 := S.Add(FinishNode(path[|path| - 1]));
      && StateOK(g, ex, roots, rootsOnly, S1) && Tidy(g, S1)
      && LastOK(g, roots, rootsOnly, S, FinishNode(path[|path| - 1]))
      && (frames == [] ==> S1.disc == Elements(S1.order))
  {
    var cur := path[|path| - 1];
    var S1 := S.Add(FinishNode(cur));
    assert S1 == S.(order := S.order + [cur]);
    assert cur in path;
    assert FrameOK(g, ex, S, cur, [], None);
    FinishOrderFinish(g, ex, S, cur);
    assert Elements(S1.order) == Elements(S.order) + {cur};
    if cur in S.started || frames == [] {
      assert |path| == 1;
      forall n | n in S.disc && n !in S.order ensures n == cur {
        assert n in path;
      }
    }
  }

  lemma PopOnPath<ND, ED>(g: GraphState<ND, ED>, root: NodeID, S: Summary, path: seq<NodeID>)
    requires OnPath(g, root, S, path) && |path| > 1
    ensures OnPath(g, root, S.(order := S.order + [path[|path| - 1]]), path[..|path| - 1])
  {
    var cur := path[|path| - 1];
    var S1 := S.(order := S.order + [cur]);
    var p' := path[..|path| - 1];
    assert path == p' + [cur];
    forall n | n in p' ensures n in S1.disc && n !in S1.order && n in g.nodes {
      assert n in path && n != cur;
    }
    forall n | n in S1.disc && n !in S1.order ensures n in p' {
      assert n in path;
    }
  }

  lemma PopChain<ND, ED>(g: GraphState<ND, ED>, ex: Option<EdgeID>, root: NodeID, path: seq<NodeID>)
    requires Chain(g, path) && RootReach(g, ex, root, path) && path != []
    ensures Chain(g, path[..|path| - 1]) && RootReach(g, ex, root, path[..|path| - 1])
  {
    var p' := path[..|path| - 1];
    forall j, k | 0 <= j <= k < |p'| ensures Reach(g, {}, p'[j], p'[k]) {
      assert Reach(g, {}, path[j], path[k]);
    }
    forall k | 0 <= k < |p'| ensures Reach(g, RootBan(g, ex, root), root, p'[k]) {
      assert Reach(g, RootBan(g, ex, root), root, path[k]);
    }
  }

  lemma PopLinks<ND, ED>(g: GraphState<ND, ED>, S: Summary, S': Summary, path: seq<NodeID>, frames: seq<Frame>)
    requires Links(g, S, path, frames) && frames != [] && S'.trees == S.trees
    ensures Links(g, S', path[..|path| - 1], frames[..|frames| - 1])
  {
    var p' := path[..|path| - 1];
    var f' := frames[..|frames| - 1];
    forall k | 0 <= k < |f'| ensures f'[k].tail == p'[k] && TreeLink(g, S', f'[k].edge, p'[k], p'[k + 1]) {
      assert TreeLink(g, S, frames[k].edge, path[k], path[k + 1]);
    }
  }

  lemma PopFrames<ND, ED>(g: GraphState<ND, ED>, ex: Option<EdgeID>, S: Summary, S': Summary, path: seq<NodeID>, frames: seq<Frame>)
    requires FramesOK(g, ex, S, path, frames) && Links(g, S, path, frames) && frames != [] && Grows(S, S')
    requires S.trees <= S.examined && S'.examined == S.examined && path[|path| - 1] in S'.order
    ensures FramesOK(g, ex, S', path[..|path| - 1], frames[..|frames| - 1])
    ensures FrameOK(g, ex, S', path[|path| - 2], frames[|frames| - 1].remaining, None)
  {
    var p' := path[..|path| - 1];
    var f' := frames[..|frames| - 1];
    forall k | 0 <= k < |f'| ensures FrameOK(g, ex, S', p'[k], f'[k].remaining, f'[k].edge) {
      var f := frames[k];
      assert FrameOK(g, ex, S, path[k], f.remaining, f.edge);
      FrameStep(g, ex, S, S', path[k], f.remaining, f.edge, f.remaining, f.edge);
    }
    var k := |frames| - 1;
    var top := frames[k];
    assert TreeLink(g, S, top.edge, path[k], path[k + 1]);
    assert FrameOK(g, ex, S, path[k], top.remaining, top.edge);
    FrameStep(g, ex, S, S', path[k], top.remaining, top.edge, top.remaining, None);
  }

  /** Back at the suspended frame on top of the stack, whose pending tree edge is now handled. */
  lemma SearchPop<ND, ED>(g: GraphState<ND, ED>, ex: Option<EdgeID>, root: NodeID, S: Summary,
                          path: seq<NodeID>, frames: seq<Frame>)
    requires SearchInv(g, ex, root, S, path, frames, []) && frames != [] && S.trees <= S.examined
    ensures StackInv(g, ex, root, S.Add(FinishNode(path[|path| - 1])), path[..|path| - 1], frames)
  {
    var cur := path[|path| - 1];
    var S1 := S.Add(FinishNode(cur));
    assert S1 == S.(order := S.order + [cur]);
    assert Grows(S, S1);
    PopOnPath(g, root, S, path);
    PopChain(g, ex, root, path);
    PopLinks(g, S, S1, path, frames);
    PopFrames(g, ex, S, S1, path, frames);
    assert TreeLink(g, S, frames[|frames| - 1].edge, path[|path| - 2], path[|path| - 1]);
  }

  // ------------------------------------------------------------------
  // The search
  // ------------------------------------------------------------------

  /** The summary invariants, the colours and the path of a search from `root` under way. */
  ghost predicate WalkState<ND, ED>(g: GraphState<ND, ED>, ex: Option<EdgeID>, roots: set<NodeID>, rootsOnly: bool,
                                    root: NodeID, S: Summary, states: map<NodeID, Color>,
                                    path: seq<NodeID>, stack: seq<Frame>, rem: seq<EdgeID>) {
    && StateOK(g, ex, roots, rootsOnly, S) && Tidy(g, S) && Colored(states, S)
    && SearchInv(g, ex, root, S, path, stack, rem)
  }

  /** What holds between callbacks while the search from `root` is under way. */
  ghost predicate Walking<ND, ED, S, R>(g: GraphState<ND, ED>, ex: Option<EdgeID>, roots: set<NodeID>, rootsOnly: bool,
                                        root: NodeID, v: Visitor<S, R>, s0: S, trace: seq<Event>, s: S,
                                        states: map<NodeID, Color>, path: seq<NodeID>, stack: seq<Frame>, rem: seq<EdgeID>) {
    Running(v, s0, trace, s) && WalkState(g, ex, roots, rootsOnly, root, Summarize(trace), states, path, stack, rem)
  }

  /** What holds between two pops of the stack of a search from `root`. */
  ghost predicate Stacked<ND, ED, S, R>(g: GraphState<ND, ED>, ex: Option<EdgeID>, roots: set<NodeID>, rootsOnly: bool,
                                        root: NodeID, v: Visitor<S, R>, s0: S, trace: seq<Event>, s: S,
                                        states: map<NodeID, Color>, path: seq<NodeID>, stack: seq<Frame>) {
    && Running(v, s0, trace, s)
    && StateOK(g, ex, roots, rootsOnly, Summarize(trace)) && Tidy(g, Summarize(trace))
    && Colored(states, Summarize(trace))
    && |path| == |stack|
    && (stack != [] ==> StackInv(g, ex, root, Summarize(trace), path, stack))
    && (stack == [] ==> Summarize(trace).disc == Elements(Summarize(trace).order))
  }

  /** One more edge examined, no node finished, none forgotten. */
  ghost predicate Advanced<ND, ED>(g: GraphState<ND, ED>, P: Summary, S': Summary) {
    && S'.order == P.order && P.disc <= S'.disc
    && g.edges.Keys - S'.examined < g.edges.Keys - P.examined
  }

  /** The summary after an edge is examined, reported as a back edge and finished. */
  lemma BackSummary(P: Summary, e: EdgeID)
    ensures P.Add(ExamineEdge(e)).Add(BackEdge(e)).Add(FinishEdge(e)) == P.Add(ExamineEdge(e)).Add(BackEdge(e))
    ensures P.Add(ExamineEdge(e)).Add(BackEdge(e)) == P.(examined := P.examined + {e}, backs := P.backs + {e})
  {
  }

  /** The summary after an edge is examined, reported as a forward or cross edge and finished. */
  lemma CrossSummary(P: Summary, e: EdgeID)
    ensures P.Add(ExamineEdge(e)).Add(ForwardOrCrossEdge(e)).Add(FinishEdge(e)) == P.Add(ExamineEdge(e)).Add(ForwardOrCrossEdge(e))
    ensures P.Add(ExamineEdge(e)).Add(ForwardOrCrossEdge(e)) == P.(examined := P.examined + {e}, fwds := P.fwds + {e})
  {
  }

  /** The summary after a tree edge is examined, reported and its head discovered. */
  lemma TreeSummary(P: Summary, e: EdgeID, h: NodeID)
    ensures P.Add(ExamineEdge(e)).Add(TreeEdge(e)).Add(DiscoverNode(h))
         == P.(examined := P.examined + {e}, trees := P.trees + {e}, disc := P.disc + {h})
  {
  }

  /** The summary after a node finishes. */
  lemma FinishSummary(P: Summary, n: NodeID)
    ensures P.Add(FinishNode(n)) == P.(order := P.order + [n])
  {
  }

  /** Finishing an edge leaves the summary as it was. */
  lemma FinishEdgeSummary(P: Summary, e: EdgeID)
    ensures P.Add(FinishEdge(e)) == P
  {
  }

  /** Examining one more edge of the graph leaves one fewer to examine. */
  lemma ExamineShrinks(edges: set<EdgeID>, examined: set<EdgeID>, e: EdgeID)
    requires e in edges && e !in examined
    ensures edges - (examined + {e}) < edges - examined
  {
    assert e in edges - examined;
  }

  /** A node joining the finish order leaves one node fewer unfinished. */
  lemma FinishShrinks(nodes: set<NodeID>, order: seq<NodeID>, n: NodeID)
    requires n in nodes && n !in order
    ensures nodes - Elements(order + [n]) < nodes - Elements(order)
  {
    assert n in nodes - Elements(order);
    assert n !in nodes - Elements(order + [n]);
  }

  /** An examined edge into a node on the path: reported as a back edge, then finished. */
  method Backtrack<ND, ED, S, R>(g: GraphState<ND, ED>, v: Visitor<S, R>, ghost s0: S,
                                 ghost roots: set<NodeID>, ghost rootsOnly: bool, ghost ex: Option<EdgeID>, ghost root: NodeID,
                                 states: map<NodeID, Color>, s: S, ghost trace: seq<Event>,
                                 ghost P: Summary, ghost path: seq<NodeID>, stack: seq<Frame>, rem: seq<EdgeID>,
                                 edge: EdgeID)
    returns (res: Option<Result<R>>, s': S, ghost trace': seq<Event>)
    requires Running(v, s0, trace, s) && Summarize(trace) == P.Add(ExamineEdge(edge))
    requires StateOK(g, ex, roots, rootsOnly, P) && Tidy(g, P) && Colored(states, P)
    requires SearchInv(g, ex, root, P, path, stack, rem) && rem != [] && edge == rem[|rem| - 1]
    requires edge in g.edges && g.edges[edge].head in P.disc && g.edges[edge].head !in P.order
    ensures res.Some? ==> Reported(g, ex, roots, rootsOnly, v, s0, trace', res.value, s')
    ensures res.None? ==>
      Walking(g, ex, roots, rootsOnly, root, v, s0, trace', s', states, path, stack, rem[..|rem| - 1])
      && Advanced(g, P, Summarize(trace'))
  {
    var c: Control<R>;
    StepBack(g, ex, roots, rootsOnly, root, P, path, stack, rem);
    BackSummary(P, edge);
    assert Loaded(g, ex, P.started, path[|path| - 1], edge);
    ExamineShrinks(g.edges.Keys, P.examined, edge);
    s', c, trace' := Notify(g, ex, roots, rootsOnly, v, s0, s, trace, BackEdge(edge));
    if !c.Continue? {
      return Some(ResultOf(c)), s', trace';
    }
    s', c, trace' := Notify(g, ex, roots, rootsOnly, v, s0, s', trace', FinishEdge(edge));
    if !c.Continue? {
      return Some(ResultOf(c)), s', trace';
    }
    res := None;
  }

  /** An examined edge into a finished node: reported as a forward or cross edge, then finished. */
  method CrossOver<ND, ED, S, R>(g: GraphState<ND, ED>, v: Visitor<S, R>, ghost s0: S,
                                 ghost roots: set<NodeID>, ghost rootsOnly: bool, ghost ex: Option<EdgeID>, ghost root: NodeID,
                                 states: map<NodeID, Color>, s: S, ghost trace: seq<Event>,
                                 ghost P: Summary, ghost path: seq<NodeID>, stack: seq<Frame>, rem: seq<EdgeID>,
                                 edge: EdgeID)
    returns (res: Option<Result<R>>, s': S, ghost trace': seq<Event>)
    requires Running(v, s0, trace, s) && Summarize(trace) == P.Add(ExamineEdge(edge))
    requires StateOK(g, ex, roots, rootsOnly, P) && Tidy(g, P) && Colored(states, P)
    requires SearchInv(g, ex, root, P, path, stack, rem) && rem != [] && edge == rem[|rem| - 1]
    requires edge in g.edges && g.edges[edge].head in P.order
    ensures res.Some? ==> Reported(g, ex, roots, rootsOnly, v, s0, trace', res.value, s')
    ensures res.None? ==>
      Walking(g, ex, roots, rootsOnly, root, v, s0, trace', s', states, path, stack, rem[..|rem| - 1])
      && Advanced(g, P, Summarize(trace'))
  {
    var c: Control<R>;
    StepForward(g, ex, roots, rootsOnly, root, P, path, stack, rem);
    CrossSummary(P, edge);
    assert Loaded(g, ex, P.started, path[|path| - 1], edge);
    ExamineShrinks(g.edges.Keys, P.examined, edge);
    s', c, trace' := Notify(g, ex, roots, rootsOnly, v, s0, s, trace, ForwardOrCrossEdge(edge));
    if !c.Continue? {
      return Some(ResultOf(c)), s', trace';
    }
    s', c, trace' := Notify(g, ex, roots, rootsOnly, v, s0, s', trace', FinishEdge(edge));
    if !c.Continue? {
      return Some(ResultOf(c)), s', trace';
    }
    res := None;
  }

  /** Following a tree edge keeps the summary invariants and colours, with its head discovered. */
  lemma EnterSummary<ND, ED>(g: GraphState<ND, ED>, ex: Option<EdgeID>, roots: set<NodeID>, rootsOnly: bool, root: NodeID,
                             P: Summary, states: map<NodeID, Color>, path: seq<NodeID>, stack: seq<Frame>, rem: seq<EdgeID>)
    requires g.Valid() && WalkState(g, ex, roots, rootsOnly, root, P, states, path, stack, rem) && rem != []
    requires rem[|rem| - 1] in g.edges && g.edges[rem[|rem| - 1]].head !in states
    ensures var e := rem[|rem| - 1];
      var h := g.edges[e].head;
      var S2 := P.Add(ExamineEdge(e)).Add(TreeEdge(e));
      var S3 := S2.Add(DiscoverNode(h));
      && StateOK(g, ex, roots, rootsOnly, S3) && Quiet(g, S3) && LastOK(g, roots, rootsOnly, S2, DiscoverNode(h))
      && Tidy(g, S3) && Colored(states[h := Discovered], S3) && Advanced(g, P, S3)
  {
    var e := rem[|rem| - 1];
    var h := g.edges[e].head;
    assert Loaded(g, ex, P.started, path[|path| - 1], e);
    assert Reach(g, RootBan(g, ex, root), root, path[|path| - 1]);
    TreeSummary(P, e, h);
    StepChild(g, ex, roots, rootsOnly, root, P, e);
    ExamineShrinks(g.edges.Keys, P.examined, e);
  }

  /** Following a tree edge pushes the current node's frame and makes the edge's head current. */
  lemma EnterSearch<ND, ED>(g: GraphState<ND, ED>, ex: Option<EdgeID>, roots: set<NodeID>, rootsOnly: bool, root: NodeID,
                            P: Summary, states: map<NodeID, Color>, path: seq<NodeID>, stack: seq<Frame>, rem: seq<EdgeID>,
                            remH: seq<EdgeID>)
    requires g.Valid() && WalkState(g, ex, roots, rootsOnly, root, P, states, path, stack, rem) && rem != []
    requires rem[|rem| - 1] in g.edges && g.edges[rem[|rem| - 1]].head !in states
    requires Increasing(remH) && Elements(remH) == g.EdgesFrom(g.edges[rem[|rem| - 1]].head)
    ensures var e := rem[|rem| - 1];
      var h := g.edges[e].head;
      var S3 := P.Add(ExamineEdge(e)).Add(TreeEdge(e)).Add(DiscoverNode(h));
      SearchInv(g, ex, root, S3, path + [h], stack + [Frame(path[|path| - 1], Some(e), rem[..|rem| - 1])], remH)
  {
    SearchPush(g, ex, root, P, path, stack, rem, remH);
  }

  /** Follows a new tree edge: the current node is suspended and the edge's head discovered. */
  method Enter<ND, ED, S, R>(g: GraphState<ND, ED>, v: Visitor<S, R>, ghost s0: S,
                             ghost roots: set<NodeID>, ghost rootsOnly: bool, ghost ex: Option<EdgeID>, ghost root: NodeID,
                             states: map<NodeID, Color>, s: S, ghost trace: seq<Event>,
                             ghost P: Summary, ghost path: seq<NodeID>, stack: seq<Frame>, rem: seq<EdgeID>,
                             tail: NodeID, edge: EdgeID, head: NodeID)
    returns (res: Option<Result<R>>, states': map<NodeID, Color>, s': S, ghost trace': seq<Event>,
             stack': seq<Frame>, ghost path': seq<NodeID>, rem': seq<EdgeID>)
    requires g.Valid() && Running(v, s0, trace, s) && Summarize(trace) == P.Add(ExamineEdge(edge)).Add(TreeEdge(edge))
    requires WalkState(g, ex, roots, rootsOnly, root, P, states, path, stack, rem) && rem != [] && edge == rem[|rem| - 1]
    requires tail == path[|path| - 1] && edge in g.edges && head == g.edges[edge].head && head !in states
    ensures res.Some? ==> Reported(g, ex, roots, rootsOnly, v, s0, trace', res.value, s')
    ensures res.None? ==> Walking(g, ex, roots, rootsOnly, root, v, s0, trace', s', states', path', stack', rem')
    ensures res.None? ==> head == path'[|path'| - 1]
    ensures res.None? ==> Advanced(g, P, Summarize(trace'))
  {
    states', stack', path', rem' := states, stack, path, rem;
    var c: Control<R>;
    var out := g.NodeOutEdges(head).value;
    ghost var S3 := P.Add(ExamineEdge(edge)).Add(TreeEdge(edge)).Add(DiscoverNode(head));
    EnterSummary(g, ex, roots, rootsOnly, root, P, states, path, stack, rem);
    EnterSearch(g, ex, roots, rootsOnly, root, P, states, path, stack, rem, Sort(out));
    assert StateOK(g, ex, roots, rootsOnly, S3) && Tidy(g, S3) && Colored(states[head := Discovered], S3);
    assert SearchInv(g, ex, root, S3, path + [head], stack + [Frame(tail, Some(edge), rem[..|rem| - 1])], Sort(out));
    s', c, trace' := Notify(g, ex, roots, rootsOnly, v, s0, s, trace, DiscoverNode(head));
    if !c.Continue? {
      return Some(ResultOf(c)), states', s', trace', stack', path', rem';
    }
    states' := states[head := Discovered];
    stack' := stack + [Frame(tail, Some(edge), rem[..|rem| - 1])];
    path' := path + [head];
    rem' := Sort(out);
    res := None;
  }

  /** An examined edge into an undiscovered node: reported as a tree edge, then followed. */
  method Descend<ND, ED, S, R>(g: GraphState<ND, ED>, v: Visitor<S, R>, ghost s0: S,
                               ghost roots: set<NodeID>, ghost rootsOnly: bool, ghost ex: Option<EdgeID>, ghost root: NodeID,
                               states: map<NodeID, Color>, s: S, ghost trace: seq<Event>,
                               ghost P: Summary, ghost path: seq<NodeID>, stack: seq<Frame>, rem: seq<EdgeID>,
                               tail: NodeID, edge: EdgeID, head: NodeID)
    returns (res: Option<Result<R>>, states': map<NodeID, Color>, s': S, ghost trace': seq<Event>,
             stack': seq<Frame>, ghost path': seq<NodeID>, rem': seq<EdgeID>)
    requires g.Valid() && Running(v, s0, trace, s) && Summarize(trace) == P.Add(ExamineEdge(edge))
    requires StateOK(g, ex, roots, rootsOnly, P) && Tidy(g, P) && Colored(states, P)
    requires SearchInv(g, ex, root, P, path, stack, rem) && rem != [] && edge == rem[|rem| - 1]
    requires tail == path[|path| - 1] && edge in g.edges && head == g.edges[edge].head && head !in states
    ensures res.Some? ==> Reported(g, ex, roots, rootsOnly, v, s0, trace', res.value, s')
    ensures res.None? ==>
      Walking(g, ex, roots, rootsOnly, root, v, s0, trace', s', states', path', stack', rem')
      && head == path'[|path'| - 1] && Advanced(g, P, Summarize(trace'))
  {
    states', stack', path', rem' := states, stack, path, rem;
    var c: Control<R>;
    assert Loaded(g, ex, P.started, tail, edge);
    StepTree(g, ex, roots, rootsOnly, P, edge);
    s', c, trace' := Notify(g, ex, roots, rootsOnly, v, s0, s, trace, TreeEdge(edge));
    if !c.Continue? {
      return Some(ResultOf(c)), states', s', trace', stack', path', rem';
    }
    res, states', s', trace', stack', path', rem' :=
      Enter(g, v, s0, roots, rootsOnly, ex, root, states, s', trace', P, path, stack, rem, tail, edge, head);
  }

  /** A node's color says whether it is undiscovered, discovered only, or finished. */
  lemma ColorCases(states: map<NodeID, Color>, S: Summary, n: NodeID)
    requires Colored(states, S)
    ensures n !in states <==> n !in S.disc
    ensures n in states && states[n] == Discovered ==> n in S.disc && n !in S.order
    ensures n in states && states[n] != Discovered ==> n in S.order
  {
  }

  /** An examined edge is classified by the state of its head: tree, back, or forward/cross. */
  method Classify<ND, ED, S, R>(g: GraphState<ND, ED>, v: Visitor<S, R>, ghost s0: S,
                                ghost roots: set<NodeID>, ghost rootsOnly: bool, ghost ex: Option<EdgeID>, ghost root: NodeID,
                                states: map<NodeID, Color>, s: S, ghost trace: seq<Event>,
                                ghost P: Summary, ghost path: seq<NodeID>, stack: seq<Frame>, tail: NodeID, rem: seq<EdgeID>,
                                edge: EdgeID, head: NodeID)
    returns (res: Option<Result<R>>, states': map<NodeID, Color>, s': S, ghost trace': seq<Event>,
             ghost path': seq<NodeID>, stack': seq<Frame>, tail': NodeID, rem': seq<EdgeID>)
    requires g.Valid() && Running(v, s0, trace, s) && Summarize(trace) == P.Add(ExamineEdge(edge))
    requires WalkState(g, ex, roots, rootsOnly, root, P, states, path, stack, rem) && rem != [] && edge == rem[|rem| - 1]
    requires tail == path[|path| - 1] && edge in g.edges && head == g.edges[edge].head
    ensures res.Some? ==> Reported(g, ex, roots, rootsOnly, v, s0, trace', res.value, s')
    ensures res.None? ==> Walking(g, ex, roots, rootsOnly, root, v, s0, trace', s', states', path', stack', rem')
    ensures res.None? ==> tail' == path'[|path'| - 1]
    ensures res.None? ==> Advanced(g, P, Summarize(trace'))
  {
    assert StateOK(g, ex, roots, rootsOnly, P) && Tidy(g, P) && Colored(states, P);
    assert SearchInv(g, ex, root, P, path, stack, rem);
    ColorCases(states, P, head);
    states', stack', path', tail', rem' := states, stack, path, tail, rem;
    if head !in states {
      res, states', s', trace', stack', path', rem' :=
        Descend(g, v, s0, roots, rootsOnly, ex, root, states, s, trace, P, path, stack, rem, tail, edge, head);
      tail' := head;
    } else if states[head] == Discovered {
      res, s', trace' := Backtrack(g, v, s0, roots, rootsOnly, ex, root, states, s, trace, P, path, stack, rem, edge);
      rem' := rem[..|rem| - 1];
    } else {
      res, s', trace' := CrossOver(g, v, s0, roots, rootsOnly, ex, root, states, s, trace, P, path, stack, rem, edge);
      rem' := rem[..|rem| - 1];
    }
  }

  /** Takes the last of the current node's remaining out-edges: examines it, then classifies it. */
  method VisitEdge<ND, ED, S, R>(g: GraphState<ND, ED>, v: Visitor<S, R>, ghost s0: S,
                                 ghost roots: set<NodeID>, ghost rootsOnly: bool, ghost ex: Option<EdgeID>, ghost root: NodeID,
                                 states: map<NodeID, Color>, s: S, ghost trace: seq<Event>,
                                 ghost path: seq<NodeID>, stack: seq<Frame>, tail: NodeID, rem: seq<EdgeID>)
    returns (res: Option<Result<R>>, states': map<NodeID, Color>, s': S, ghost trace': seq<Event>,
             ghost path': seq<NodeID>, stack': seq<Frame>, tail': NodeID, rem': seq<EdgeID>)
    requires g.Valid() && rem != []
    requires Walking(g, ex, roots, rootsOnly, root, v, s0, trace, s, states, path, stack, rem)
    requires tail == path[|path| - 1]
    ensures res.Some? ==> Reported(g, ex, roots, rootsOnly, v, s0, trace', res.value, s')
    ensures res.None? ==>
      Walking(g, ex, roots, rootsOnly, root, v, s0, trace', s', states', path', stack', rem')
      && tail' == path'[|path'| - 1] && Advanced(g, Summarize(trace), Summarize(trace'))
  {
    ghost var P := Summarize(trace);
    states', stack', path', tail', rem' := states, stack, path, tail, rem;
    var edge := rem[|rem| - 1];
    assert Loaded(g, ex, P.started, tail, edge);
    var head := g.EdgeHead(edge).value;
    StepExamine(g, ex, roots, rootsOnly, root, P, path, stack, rem);
    var c: Control<R>;
    s', c, trace' := Notify(g, ex, roots, rootsOnly, v, s0, s, trace, ExamineEdge(edge));
    if !c.Continue? {
      return Some(ResultOf(c)), states', s', trace', path', stack', tail', rem';
    }
    res, states', s', trace', path', stack', tail', rem' :=
      Classify(g, v, s0, roots, rootsOnly, ex, root, states, s', trace', P, path, stack, tail, rem, edge, head);
  }

  /** Examines the current node's remaining out-edges, last first, following tree edges as they come. */
  method Drain<ND, ED, S, R>(g: GraphState<ND, ED>, v: Visitor<S, R>, ghost s0: S,
                             ghost roots: set<NodeID>, ghost rootsOnly: bool, ghost ex: Option<EdgeID>, ghost root: NodeID,
                             states0: map<NodeID, Color>, s1: S, ghost trace0: seq<Event>,
                             ghost path0: seq<NodeID>, stack0: seq<Frame>, tail0: NodeID, rem0: seq<EdgeID>)
    returns (res: Option<Result<R>>, states: map<NodeID, Color>, s: S, ghost trace: seq<Event>,
             ghost path: seq<NodeID>, stack: seq<Frame>, tail: NodeID)
    requires g.Valid()
    requires Walking(g, ex, roots, rootsOnly, root, v, s0, trace0, s1, states0, path0, stack0, rem0)
    requires tail0 == path0[|path0| - 1]
    ensures res.Some? ==> Reported(g, ex, roots, rootsOnly, v, s0, trace, res.value, s)
    ensures res.None? ==>
      && Walking(g, ex, roots, rootsOnly, root, v, s0, trace, s, states, path, stack, [])
      && tail == path[|path| - 1]
      && Summarize(trace).order == Summarize(trace0).order && Summarize(trace0).disc <= Summarize(trace).disc
  {
    states, s, trace, path, stack, tail := states0, s1, trace0, path0, stack0, tail0;
    var rem := rem0;
    while rem != []
      invariant Walking(g, ex, roots, rootsOnly, root, v, s0, trace, s, states, path, stack, rem)
      invariant tail == path[|path| - 1]
      invariant Summarize(trace).order == Summarize(trace0).order && Summarize(trace0).disc <= Summarize(trace).disc
      decreases g.edges.Keys - Summarize(trace).examined
    {
      res, states, s, trace, path, stack, tail, rem :=
        VisitEdge(g, v, s0, roots, rootsOnly, ex, root, states, s, trace, path, stack, tail, rem);
      if res.Some? {
        return;
      }
    }
    res := None;
  }

  /** Finishing the current node keeps the invariants and resumes the frame below it, if any. */
  lemma FinishReady<ND, ED>(g: GraphState<ND, ED>, ex: Option<EdgeID>, roots: set<NodeID>, rootsOnly: bool, root: NodeID,
                            P: Summary, states: map<NodeID, Color>, path: seq<NodeID>, stack: seq<Frame>)
    requires WalkState(g, ex, roots, rootsOnly, root, P, states, path, stack, [])
    ensures var cur := path[|path| - 1];
      var S1 := P.Add(FinishNode(cur));
      && StateOK(g, ex, roots, rootsOnly, S1) && Quiet(g, S1) && LastOK(g, roots, rootsOnly, P, FinishNode(cur))
      && Tidy(g, S1) && (stack == [] ==> S1.disc == Elements(S1.order)) && S1.disc == P.disc
      && (stack != [] ==> StackInv(g, ex, root, S1, path[..|path| - 1], stack))
  {
    StepFinish(g, ex, roots, rootsOnly, root, P, path, stack);
    if stack != [] {
      TreesExamined(g, P);
      SearchPop(g, ex, root, P, path, stack);
    }
  }

  lemma TreesExamined<ND, ED>(g: GraphState<ND, ED>, P: Summary)
    requires Tidy(g, P)
    ensures P.trees <= P.examined
  {
  }

  /** The finished node turns `Finished` and leaves the unfinished nodes. */
  lemma FinishColored<ND, ED>(g: GraphState<ND, ED>, P: Summary, states: map<NodeID, Color>, cur: NodeID)
    requires Colored(states, P) && cur in states && cur in g.nodes && cur !in P.order
    ensures Colored(states[cur := Finished], P.Add(FinishNode(cur)))
    ensures g.nodes.Keys - Elements(P.Add(FinishNode(cur)).order) < g.nodes.Keys - Elements(P.order)
  {
    FinishSummary(P, cur);
    FinishShrinks(g.nodes.Keys, P.order, cur);
  }

  /** The current node has no out-edges left: it finishes and the frame below it (if any) resumes. */
  method FinishCurrent<ND, ED, S, R>(g: GraphState<ND, ED>, v: Visitor<S, R>, ghost s0: S,
                                     ghost roots: set<NodeID>, ghost rootsOnly: bool, ghost ex: Option<EdgeID>, ghost root: NodeID,
                                     states: map<NodeID, Color>, s: S, ghost trace: seq<Event>,
                                     ghost path: seq<NodeID>, stack: seq<Frame>, tail: NodeID)
    returns (res: Option<Result<R>>, states': map<NodeID, Color>, s': S, ghost trace': seq<Event>, ghost path': seq<NodeID>)
    requires Walking(g, ex, roots, rootsOnly, root, v, s0, trace, s, states, path, stack, [])
    requires tail == path[|path| - 1]
    ensures res.Some? ==> Reported(g, ex, roots, rootsOnly, v, s0, trace', res.value, s')
    ensures res.None? ==>
      && Stacked(g, ex, roots, rootsOnly, root, v, s0, trace', s', states', path', stack)
      && Summarize(trace').disc == Summarize(trace).disc
      && g.nodes.Keys - Elements(Summarize(trace').order) < g.nodes.Keys - Elements(Summarize(trace).order)
  {
    ghost var P := Summarize(trace);
    FinishReady(g, ex, roots, rootsOnly, root, P, states, path, stack);
    assert tail in path;
    FinishColored(g, P, states, tail);
    states' := states[tail := Finished];
    var c: Control<R>;
    s', c, trace' := Notify(g, ex, roots, rootsOnly, v, s0, s, trace, FinishNode(tail));
    if !c.Continue? {
      return Some(ResultOf(c)), states', s', trace', path;
    }
    path' := path[..|path| - 1];
    res := None;
  }

  /** Starts and discovers a search root that is not yet discovered. */
  method StartRoot<ND, ED, S, R>(g: GraphState<ND, ED>, v: Visitor<S, R>, ghost s0: S,
                                 ghost roots: set<NodeID>, ghost rootsOnly: bool, ghost ex: Option<EdgeID>, root: NodeID,
                                 s1: S, ghost trace0: seq<Event>)
    returns (res: Option<Result<R>>, s: S, ghost trace: seq<Event>)
    requires Running(v, s0, trace0, s1)
    requires StateOK(g, ex, roots, rootsOnly, Summarize(trace0)) && Tidy(g, Summarize(trace0))
    requires Summarize(trace0).disc == Elements(Summarize(trace0).order) && root !in Summarize(trace0).disc
    requires root in roots || (!rootsOnly && root in g.nodes && roots <= Summarize(trace0).disc)
    ensures res.Some? ==> Reported(g, ex, roots, rootsOnly, v, s0, trace, res.value, s)
    ensures res.None? ==> Running(v, s0, trace, s)
    ensures res.None? ==> Summarize(trace) == Summarize(trace0).Add(StartNode(root)).Add(DiscoverNode(root))
    ensures res.None? ==> StateOK(g, ex, roots, rootsOnly, Summarize(trace))
    ensures res.None? ==> RootPending(g, trace)
    ensures res.None? ==> trace != [] && trace[|trace| - 1] == DiscoverNode(root)
    ensures res.None? ==> root in Summarize(trace).started
  {
    ghost var S := Summarize(trace0);
    res, s, trace := AnnounceStart(g, v, s0, roots, rootsOnly, ex, root, s1, trace0);
    if res.None? {
      res, s, trace := AnnounceRoot(g, v, s0, roots, rootsOnly, ex, root, s, trace, S);
    }
  }

  /** First half of starting a root: the root is reported started. */
  method AnnounceStart<ND, ED, S, R>(g: GraphState<ND, ED>, v: Visitor<S, R>, ghost s0: S,
                                     ghost roots: set<NodeID>, ghost rootsOnly: bool, ghost ex: Option<EdgeID>, root: NodeID,
                                     s1: S, ghost trace0: seq<Event>)
    returns (res: Option<Result<R>>, s: S, ghost trace: seq<Event>)
    requires Running(v, s0, trace0, s1)
    requires StateOK(g, ex, roots, rootsOnly, Summarize(trace0)) && Tidy(g, Summarize(trace0))
    requires Summarize(trace0).disc == Elements(Summarize(trace0).order) && root !in Summarize(trace0).disc
    requires root in roots || (!rootsOnly && root in g.nodes && roots <= Summarize(trace0).disc)
    ensures res.Some? ==> Reported(g, ex, roots, rootsOnly, v, s0, trace, res.value, s)
    ensures res.None? ==> Running(v, s0, trace, s)
    ensures res.None? ==> Summarize(trace) == Summarize(trace0).Add(StartNode(root))
    ensures res.None? ==> StateOK(g, ex, roots, rootsOnly, Summarize(trace))
  {
    var c: Control<R>;
    StepStart(g, ex, roots, rootsOnly, Summarize(trace0), root);
    PendingStart(g, trace0, root);
    s, c, trace := Emit(v, s0, s1, trace0, StartNode(root));
    if !c.Continue? {
      Stopped(g, ex, roots, rootsOnly, v, s0, trace, s);
      return Some(ResultOf(c)), s, trace;
    }
    res := None;
  }

  /** Second half of starting a root: the root, just started, is reported discovered. */
  method AnnounceRoot<ND, ED, S, R>(g: GraphState<ND, ED>, v: Visitor<S, R>, ghost s0: S,
                                    ghost roots: set<NodeID>, ghost rootsOnly: bool, ghost ex: Option<EdgeID>, root: NodeID,
                                    s1: S, ghost trace1: seq<Event>, ghost P0: Summary)
    returns (res: Option<Result<R>>, s: S, ghost trace: seq<Event>)
    requires Running(v, s0, trace1, s1) && Summarize(trace1) == P0.Add(StartNode(root))
    requires StateOK(g, ex, roots, rootsOnly, P0.Add(StartNode(root))) && Tidy(g, P0)
    requires P0.disc == Elements(P0.order) && root !in P0.disc
    ensures res.Some? ==> Reported(g, ex, roots, rootsOnly, v, s0, trace, res.value, s)
    ensures res.None? ==> Running(v, s0, trace, s)
    ensures res.None? ==> Summarize(trace) == P0.Add(StartNode(root)).Add(DiscoverNode(root))
    ensures res.None? ==> StateOK(g, ex, roots, rootsOnly, Summarize(trace))
    ensures res.None? ==> RootPending(g, trace)
    ensures res.None? ==> trace != [] && trace[|trace| - 1] == DiscoverNode(root)
    ensures res.None? ==> root in Summarize(trace).started
  {
    var c: Control<R>;
    StepDiscoverRoot(g, ex, roots, rootsOnly, P0, root);
    s, c, trace := Emit(v, s0, s1, trace1, DiscoverNode(root));
    PendingRoot(g, trace, root);
    if !c.Continue? {
      Stopped(g, ex, roots, rootsOnly, v, s0, trace, s);
      return Some(ResultOf(c)), s, trace;
    }
    res := None;
  }

  /** The out-edges loaded for a root are its out-edges, less the excluded one. */
  lemma LoadedRoot<ND, ED>(g: GraphState<ND, ED>, ex: Option<EdgeID>, started: set<NodeID>, root: NodeID,
                           out: seq<EdgeID>, loaded: seq<EdgeID>)
    requires Elements(out) == g.EdgesFrom(root)
    requires Elements(loaded) == set x | x in out && Some(x) != ex
    ensures forall x :: x in loaded <==> Loaded(g, ex, started + {root}, root, x)
  {
    forall x ensures x in loaded <==> Loaded(g, ex, started + {root}, root, x) {
      assert x in loaded <==> x in Elements(loaded);
      assert x in out <==> x in Elements(out);
    }
  }

  /** A discovered root that is in the graph, with its loaded out-edges, starts a well-formed stack. */
  lemma RootReady<ND, ED, S, R>(g: GraphState<ND, ED>, ex: Option<EdgeID>, roots: set<NodeID>, rootsOnly: bool,
                                v: Visitor<S, R>, s0: S, trace: seq<Event>, s: S, P: Summary,
                                states: map<NodeID, Color>, root: NodeID, loaded: seq<EdgeID>)
    requires Running(v, s0, trace, s) && Summarize(trace) == P.Add(StartNode(root)).Add(DiscoverNode(root))
    requires StateOK(g, ex, roots, rootsOnly, Summarize(trace))
    requires Tidy(g, P) && P.disc == Elements(P.order) && Colored(states, P)
    requires root !in P.disc && root in g.nodes
    requires Increasing(loaded) && forall x :: x in loaded <==> Loaded(g, ex, P.started + {root}, root, x)
    ensures Stacked(g, ex, roots, rootsOnly, root, v, s0, trace, s, states[root := Discovered], [root], [Frame(root, None, loaded)])
    ensures root in Summarize(trace).disc && P.disc <= Summarize(trace).disc
  {
    DiscoverRootTidy(g, P, root);
    InitSearch(g, ex, P, root, loaded);
    assert [Frame(root, None, loaded)][..0] == [];
  }

  /** The start of a search from an undiscovered `root`: it is started and discovered, and its out-edges, less the excluded one, are loaded onto the stack. */
  method Launch<ND, ED, S, R>(g: GraphState<ND, ED>, v: Visitor<S, R>, ghost s0: S,
                              ghost roots: set<NodeID>, ghost rootsOnly: bool, ex: Option<EdgeID>, root: NodeID,
                              states0: map<NodeID, Color>, s1: S, ghost trace0: seq<Event>)
    returns (res: Option<Result<R>>, states: map<NodeID, Color>, s: S, ghost trace: seq<Event>,
             stack: seq<Frame>, ghost path: seq<NodeID>)
    requires g.Valid() && Running(v, s0, trace0, s1)
    requires StateOK(g, ex, roots, rootsOnly, Summarize(trace0)) && Tidy(g, Summarize(trace0))
    requires Summarize(trace0).disc == Elements(Summarize(trace0).order) && Colored(states0, Summarize(trace0))
    requires root !in states0
    requires root in roots || (!rootsOnly && root in g.nodes && roots <= Summarize(trace0).disc)
    ensures res.Some? ==> Reported(g, ex, roots, rootsOnly, v, s0, trace, res.value, s)
    ensures res.None? ==>
      && Stacked(g, ex, roots, rootsOnly, root, v, s0, trace, s, states, path, stack)
      && root in Summarize(trace).disc && Summarize(trace0).disc <= Summarize(trace).disc
  {
    states, stack, path := states0, [], [];
    res, s, trace := StartRoot(g, v, s0, roots, rootsOnly, ex, root, s1, trace0);
    if res.Some? {
      return;
    }
    var out := g.NodeOutEdges(root);
    if out.Err? {
      MissingReported(g, ex, roots, rootsOnly, v, s0, trace, s, root);
      return Some(Err(out.error)), states, s, trace, stack, path;
    }
    var loaded := Sort(Keep(out.value, x => Some(x) != ex));
    LoadedRoot(g, ex, Summarize(trace0).started, root, out.value, loaded);
    RootReady(g, ex, roots, rootsOnly, v, s0, trace, s, Summarize(trace0), states0, root, loaded);
    states := states0[root := Discovered];
    stack := [Frame(root, None, loaded)];
    path := [root];
  }

  /** Pops the top frame: finishes its pending tree edge, examines its remaining out-edges, and finishes its node. */
  method Resume<ND, ED, S, R>(g: GraphState<ND, ED>, v: Visitor<S, R>, ghost s0: S,
                              ghost roots: set<NodeID>, ghost rootsOnly: bool, ghost ex: Option<EdgeID>, ghost root: NodeID,
                              states0: map<NodeID, Color>, s1: S, ghost trace0: seq<Event>,
                              ghost path0: seq<NodeID>, stack0: seq<Frame>)
    returns (res: Option<Result<R>>, states: map<NodeID, Color>, s: S, ghost trace: seq<Event>,
             ghost path: seq<NodeID>, stack: seq<Frame>)
    requires g.Valid() && stack0 != []
    requires Stacked(g, ex, roots, rootsOnly, root, v, s0, trace0, s1, states0, path0, stack0)
    ensures res.Some? ==> Reported(g, ex, roots, rootsOnly, v, s0, trace, res.value, s)
    ensures res.None? ==>
      && Stacked(g, ex, roots, rootsOnly, root, v, s0, trace, s, states, path, stack)
      && Summarize(trace0).disc <= Summarize(trace).disc
      && g.nodes.Keys - Elements(Summarize(trace).order) < g.nodes.Keys - Elements(Summarize(trace0).order)
  {
    states, s, trace, path := states0, s1, trace0, path0;
    var top := stack0[|stack0| - 1];
    stack := stack0[..|stack0| - 1];
    var tail := top.tail;
    if top.edge.Some? {
      FinishEdgeSummary(Summarize(trace), top.edge.value);
      var c: Control<R>;
      s, c, trace := Notify(g, ex, roots, rootsOnly, v, s0, s, trace, FinishEdge(top.edge.value));
      if !c.Continue? {
        return Some(ResultOf(c)), states, s, trace, path, stack;
      }
    }
    res, states, s, trace, path, stack, tail :=
      Drain(g, v, s0, roots, rootsOnly, ex, root, states, s, trace, path, stack, tail, top.remaining);
    if res.Some? {
      return;
    }
    ghost var mid := Summarize(trace);
    res, states, s, trace, path := FinishCurrent(g, v, s0, roots, rootsOnly, ex, root, states, s, trace, path, stack, tail);
  }

  /**
   * One search from `root`, skipped when the root is already discovered.
   * `None` means the search ran out of edges and the visitor let it go on.
   */
  method SearchFromRoot<ND, ED, S, R>(g: GraphState<ND, ED>, v: Visitor<S, R>, ghost s0: S,
                                      ghost roots: set<NodeID>, ghost rootsOnly: bool, ex: Option<EdgeID>, root: NodeID,
                                      states0: map<NodeID, Color>, s1: S, ghost trace0: seq<Event>)
    returns (res: Option<Result<R>>, states: map<NodeID, Color>, s: S, ghost trace: seq<Event>)
    requires g.Valid() && Running(v, s0, trace0, s1)
    requires StateOK(g, ex, roots, rootsOnly, Summarize(trace0)) && Tidy(g, Summarize(trace0))
    requires Summarize(trace0).disc == Elements(Summarize(trace0).order) && Colored(states0, Summarize(trace0))
    requires root in roots || (!rootsOnly && root in g.nodes && roots <= Summarize(trace0).disc)
    ensures res.Some? ==> Reported(g, ex, roots, rootsOnly, v, s0, trace, res.value, s)
    ensures res.None? ==>
      && Stacked(g, ex, roots, rootsOnly, root, v, s0, trace, s, states, [], [])
      && root in Summarize(trace).disc && Summarize(trace0).disc <= Summarize(trace).disc
  {
    if root in states0 {
      return None, states0, s1, trace0;
    }
    var stack: seq<Frame>;
    ghost var path: seq<NodeID>;
    res, states, s, trace, stack, path := Launch(g, v, s0, roots, rootsOnly, ex, root, states0, s1, trace0);
    if res.Some? {
      return;
    }
    while stack != []
      invariant Stacked(g, ex, roots, rootsOnly, root, v, s0, trace, s, states, path, stack)
      invariant res.None? && root in Summarize(trace).disc && Summarize(trace0).disc <= Summarize(trace).disc
      decreases g.nodes.Keys - Elements(Summarize(trace).order)
    {
      res, states, s, trace, path, stack := Resume(g, v, s0, roots, rootsOnly, ex, root, states, s, trace, path, stack);
      if res.Some? {
        return;
      }
    }
  }

  /** Tells the visitor about every node of the graph, in increasing order, before any search starts. */
  method InitNodes<ND, ED, S, R>(g: GraphState<ND, ED>, v: Visitor<S, R>, s0: S,
                                 ghost roots: set<NodeID>, ghost rootsOnly: bool, ghost ex: Option<EdgeID>,
                                 all: seq<NodeID>)
    returns (res: Option<Result<R>>, s: S, ghost trace: seq<Event>)
    requires Elements(all) == g.nodes.Keys
    ensures res.Some? ==> Reported(g, ex, roots, rootsOnly, v, s0, trace, res.value, s)
    ensures res.None? ==> Running(v, s0, trace, s) && Summarize(trace) == Empty
  {
    s, trace := s0, [];
    EmptyOK(g, ex, roots, rootsOnly);
    for i := 0 to |all|
      invariant Running(v, s0, trace, s) && Summarize(trace) == Empty
    {
      var c: Control<R>;
      assert all[i] in Elements(all);
      s, c, trace := Emit(v, s0, s, trace, InitNode(all[i]));
      if !c.Continue? {
        QuietPending(g, trace);
        Stopped(g, ex, roots, rootsOnly, v, s0, trace, s);
        return Some(ResultOf(c)), s, trace;
      }
    }
    res := None;
  }

  /** Searches from each node of `starts` in turn, skipping those an earlier search discovered. */
  method SearchFromEach<ND, ED, S, R>(g: GraphState<ND, ED>, v: Visitor<S, R>, ghost s0: S,
                                      ghost roots: set<NodeID>, ghost rootsOnly: bool, ex: Option<EdgeID>,
                                      starts: seq<NodeID>, states0: map<NodeID, Color>, s1: S, ghost trace0: seq<Event>)
    returns (res: Option<Result<R>>, states: map<NodeID, Color>, s: S, ghost trace: seq<Event>)
    requires g.Valid() && Stacked(g, ex, roots, rootsOnly, 0, v, s0, trace0, s1, states0, [], [])
    requires forall n | n in starts :: n in roots || (!rootsOnly && n in g.nodes && roots <= Summarize(trace0).disc)
    ensures res.Some? ==> Reported(g, ex, roots, rootsOnly, v, s0, trace, res.value, s)
    ensures res.None? ==>
      && Stacked(g, ex, roots, rootsOnly, 0, v, s0, trace, s, states, [], [])
      && Elements(starts) <= Summarize(trace).disc && Summarize(trace0).disc <= Summarize(trace).disc
  {
    states, s, trace := states0, s1, trace0;
    for i := 0 to |starts|
      invariant Stacked(g, ex, roots, rootsOnly, 0, v, s0, trace, s, states, [], [])
      invariant Elements(starts[..i]) <= Summarize(trace).disc && Summarize(trace0).disc <= Summarize(trace).disc
    {
      assert starts[i] in starts;
      res, states, s, trace := SearchFromRoot(g, v, s0, roots, rootsOnly, ex, starts[i], states, s, trace);
      if res.Some? {
        return;
      }
      ElementsPrefix(starts, i);
    }
    assert starts[..|starts|] == starts;
    res := None;
  }

  /**
   * The search as the library runs it: every node is initialised, then a
   * search runs from each root in increasing order and, unless `rootsOnly`,
   * from every remaining node; the visitor's `finish` gives the result
   * unless a callback stopped the search first or a root is not in the graph.
   */
  method DepthFirstSearch<ND, ED, S, R>(g: GraphState<ND, ED>, v: Visitor<S, R>, s0: S,
                                        roots: set<NodeID>, rootsOnly: bool, excluded: Option<EdgeID>)
    returns (r: Result<R>, s: S, ghost trace: seq<Event>)
    requires g.Valid()
    ensures Reported(g, excluded, roots, rootsOnly, v, s0, trace, r, s)
  {
    var all := SortedList(g.nodes.Keys);
    var res: Option<Result<R>>;
    res, s, trace := InitNodes(g, v, s0, roots, rootsOnly, excluded, all);
    if res.Some? {
      return res.value, s, trace;
    }
    EmptyOK(g, excluded, roots, rootsOnly);
    var states: map<NodeID, Color> := map[];
    var rs := SortedList(roots);
    res, states, s, trace := SearchFromEach(g, v, s0, roots, rootsOnly, excluded, rs, states, s, trace);
    if res.Some? {
      return res.value, s, trace;
    }
    if !rootsOnly {
      res, states, s, trace := SearchFromEach(g, v, s0, roots, rootsOnly, excluded, all, states, s, trace);
      if res.Some? {
        return res.value, s, trace;
      }
    }
    CompleteReported(g, excluded, roots, rootsOnly, v, s0, trace, s);
    r := Ok(v.finish(s));
  }
}
