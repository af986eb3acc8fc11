/**
 * The mutable graph store. Its two maps are updated in place, step by step,
 * as the library's `Graph` does; every method is proved to leave the store in
 * exactly the state the matching function of `GraphModel` computes, or
 * untouched with that function's error.
 */
module Graphs {
  import opened GraphErrors
  import opened ElementIDs
  import opened EdgeSets
  import opened GraphModel

  /** The call outcome `r` and state `after` are what `res` prescribes for a call made in `before`. */
  ghost predicate Applies<ND, ED>(res: Result<GraphState<ND, ED>>, r: Outcome,
                                  after: GraphState<ND, ED>, before: GraphState<ND, ED>)
  {
    match res
    case Ok(g) => r == Pass && after == g
    case Err(e) => r == Fail(e) && after == before
  }

  class Graph<ND, ED> {
    const isOrdered: bool
    var nodes: map<NodeID, Node<ND>>
    var edges: map<EdgeID, Edge<ED>>

    /** The store as a value. */
    function View(): GraphState<ND, ED>
      reads this
    {
      GraphState(isOrdered, nodes, edges)
    }

    ghost predicate Valid()
      reads this
    {
      View().Valid()
    }

    /** An empty graph, sorted or ordered. */
    constructor (ordered: bool)
      ensures Valid() && View() == GraphState(ordered, map[], map[])
    {
      isOrdered := ordered;
      nodes := map[];
      edges := map[];
    }

    method NewNode(n: NodeID, d: ND) returns (r: Outcome)
      requires Valid()
      modifies this
      ensures Valid()
      ensures Applies(old(View()).NewNode(n, d), r, View(), old(View()))
    {
      if n in nodes {
        return Fail(Duplicate);
      }
      ghost var res := View().NewNode(n, d);
      nodes := nodes[n := Node(d, [], [])];
      assert View() == res.value;
      r := Pass;
    }

    method NewEdge(e: EdgeID, t: NodeID, h: NodeID, d: ED) returns (r: Outcome)
      requires Valid()
      modifies this
      ensures Valid()
      ensures Applies(old(View()).NewEdge(e, t, h, d), r, View(), old(View()))
    {
      if e in edges {
        return Fail(Duplicate);
      }
      if t !in nodes || h !in nodes {
        return Fail(NotFound);
      }
      ghost var before := View();
      ghost var res := before.NewEdge(e, t, h, d);
      assert res.value == before.Attach(e, t, h, d);
      assert before.NodeValid(t) && before.NodeValid(h);
      edges := edges[e := Edge(t, h, d)];
      nodes := nodes[t := nodes[t].(outEdges := InsertOut(isOrdered, nodes[t].outEdges, e))];
      nodes := nodes[h := nodes[h].(inEdges := SortedInsert(nodes[h].inEdges, e))];
      assert View() == before.Attach(e, t, h, d);
      r := Pass;
    }

    method RemoveEdge(e: EdgeID) returns (r: Outcome)
      requires Valid()
      modifies this
      ensures Valid()
      ensures Applies(old(View()).RemoveEdge(e), r, View(), old(View()))
    {
      if e !in edges {
        return Fail(NotFound);
      }
      ghost var before := View();
      before.TailHasEdge(e);
      before.HeadHasEdge(e);
      assert before.RemoveEdge(e).value == before.Detach(e);
      var x := edges[e];
      nodes := nodes[x.tail := nodes[x.tail].(outEdges := Without(nodes[x.tail].outEdges, e))];
      nodes := nodes[x.head := nodes[x.head].(inEdges := Without(nodes[x.head].inEdges, e))];
      edges := edges - {e};
      assert View() == before.Detach(e);
      r := Pass;
    }

    /** Removes the node's incident edges one at a time, as `removeEdge` would. */
    method RemoveNodeEdges(n: NodeID) returns (r: Outcome)
      requires Valid()
      modifies this
      ensures Valid()
      ensures Applies(old(View()).RemoveNodeEdges(n), r, View(), old(View()))
    {
      if n !in nodes {
        return Fail(NotFound);
      }
      var es := View().NodeEdges(n).value;
      for i := 0 to |es|
        invariant Valid()
        invariant View().DetachAll(es[i..]) == old(View()).DetachAll(es)
      {
        ghost var before := View();
        assert es[i..][0] == es[i] && es[i..][1..] == es[i + 1..];
        var _ := RemoveEdge(es[i]);
        assert View() == if es[i] in before.edges then before.Detach(es[i]) else before;
      }
      assert es[|es|..] == [];
      r := Pass;
    }

    method RemoveNode(n: NodeID) returns (r: Outcome)
      requires Valid()
      modifies this
      ensures Valid()
      ensures Applies(old(View()).RemoveNode(n), r, View(), old(View()))
    {
      ghost var res := View().RemoveNodeEdges(n);
      r := RemoveNodeEdges(n);
      if r.Fail? {
        return;
      }
      assert View() == res.value;
      assert old(View()).RemoveNode(n) == Ok(res.value.(nodes := res.value.nodes - {n}));
      nodes := nodes - {n};
    }

    /** Re-points an edge, moving its id between adjacency lists in the library's order of steps. */
    method MoveEdge(e: EdgeID, t: NodeID, h: NodeID) returns (r: Outcome)
      requires Valid()
      modifies this
      ensures Valid()
      ensures Applies(old(View()).MoveEdge(e, t, h), r, View(), old(View()))
    {
      if t !in nodes || h !in nodes || e !in edges {
        return Fail(NotFound);
      }
      var x := edges[e];
      if x.tail == t && x.head == h {
        return Pass;
      }
      ghost var before := View();
      before.MoveEdgeRepoints(e, t, h);
      var ns := nodes;
      if x.tail != t {
        ns := ns[t := ns[t].(outEdges := InsertOut(isOrdered, ns[t].outEdges, e))];
        ns := ns[x.tail := ns[x.tail].(outEdges := Without(ns[x.tail].outEdges, e))];
        ShiftOutSteps(nodes, isOrdered, e, x.tail, t);
      }
      ghost var shifted := ns;
      assert Increasing(shifted[h].inEdges);
      if x.head != h {
        ns := ns[h := ns[h].(inEdges := SortedInsert(ns[h].inEdges, e))];
        ns := ns[x.head := ns[x.head].(inEdges := Without(ns[x.head].inEdges, e))];
        ShiftInSteps(shifted, e, x.head, h);
      }
      assert ns == before.Repoint(e, t, h);
      nodes := ns;
      edges := edges[e := x.(tail := t, head := h)];
      assert before.MoveEdge(e, t, h) == Ok(View());
      r := Pass;
    }

    /** Takes on a state the value model computed for one of the ordered-graph operations. */
    method Adopt(res: Result<GraphState<ND, ED>>) returns (r: Outcome)
      requires res.Ok? ==> res.value.isOrdered == isOrdered && res.value.Valid()
      requires Valid()
      modifies this
      ensures Valid()
      ensures Applies(res, r, View(), old(View()))
    {
      match res
      case Err(err) =>
        r := Fail(err);
      case Ok(g) =>
        nodes := g.nodes;
        edges := g.edges;
        r := Pass;
    }

    method NewEdgeAt(e: EdgeID, t: NodeID, index: int, h: NodeID, d: ED) returns (r: Outcome)
      requires Valid()
      modifies this
      ensures Valid()
      ensures Applies(old(View()).NewEdgeAt(e, t, index, h, d), r, View(), old(View()))
    {
      r := Adopt(View().NewEdgeAt(e, t, index, h, d));
    }

    method MoveEdgeAt(e: EdgeID, t: NodeID, index: int, h: NodeID) returns (r: Outcome)
      requires Valid()
      modifies this
      ensures Valid()
      ensures Applies(old(View()).MoveEdgeAt(e, t, index, h), r, View(), old(View()))
    {
      r := Adopt(View().MoveEdgeAt(e, t, index, h));
    }

    method MoveEdgeTo(e: EdgeID, index: int) returns (r: Outcome)
      requires Valid()
      modifies this
      ensures Valid()
      ensures Applies(old(View()).MoveEdgeTo(e, index), r, View(), old(View()))
    {
      r := Adopt(View().MoveEdgeTo(e, index));
    }

    method MoveEdgeToFront(e: EdgeID) returns (r: Outcome)
      requires Valid()
      modifies this
      ensures Valid()
      ensures Applies(old(View()).MoveEdgeToFront(e), r, View(), old(View()))
    {
      r := Adopt(View().MoveEdgeToFront(e));
    }

    method MoveEdgeToBack(e: EdgeID) returns (r: Outcome)
      requires Valid()
      modifies this
      ensures Valid()
      ensures Applies(old(View()).MoveEdgeToBack(e), r, View(), old(View()))
    {
      r := Adopt(View().MoveEdgeToBack(e));
    }

    method WithNodeData(n: NodeID, f: ND -> ND) returns (r: Outcome)
      requires Valid()
      modifies this
      ensures Valid()
      ensures Applies(old(View()).WithNodeData(n, f), r, View(), old(View()))
    {
      if n !in nodes {
        return Fail(NotFound);
      }
      nodes := nodes[n := nodes[n].(data := f(nodes[n].data))];
      r := Pass;
    }

    method SetNodeData(n: NodeID, d: ND) returns (r: Outcome)
      requires Valid()
      modifies this
      ensures Valid()
      ensures Applies(old(View()).SetNodeData(n, d), r, View(), old(View()))
    {
      r := WithNodeData(n, _ => d);
    }

    method WithEdgeData(e: EdgeID, f: ED -> ED) returns (r: Outcome)
      requires Valid()
      modifies this
      ensures Valid()
      ensures Applies(old(View()).WithEdgeData(e, f), r, View(), old(View()))
    {
      if e !in edges {
        return Fail(NotFound);
      }
      edges := edges[e := edges[e].(data := f(edges[e].data))];
      r := Pass;
    }

    method SetEdgeData(e: EdgeID, d: ED) returns (r: Outcome)
      requires Valid()
      modifies this
      ensures Valid()
      ensures Applies(old(View()).SetEdgeData(e, d), r, View(), old(View()))
    {
      r := WithEdgeData(e, _ => d);
    }
  }
}
