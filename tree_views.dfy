/**
 * The read-only view of a tree (`ViewableTree`): a node's in-edge and parent,
 * its children and its place among its siblings, and the nodes other than
 * the root. The queries are stated on any graph; the lemmas at the end say
 * what they answer when the graph is a tree under its root.
 */
module TreeViews {
  import opened GraphErrors
  import opened ElementIDs
  import opened EdgeSets
  import opened GraphModel
  import opened Paths

  /** `inEdge`: the first of a node's in-edges, `None` when it has none, `NotFound` when it is missing. */
  function InEdge<ND, ED>(g: GraphState<ND, ED>, n: NodeID): (r: Result<Option<EdgeID>>)
    ensures r.Err? <==> n !in g.nodes
    ensures r.Err? ==> r.error == NotFound
    ensures r.Ok? && r.value.Some? ==> r.value.value in g.nodes[n].inEdges
  {
    match g.NodeInEdges(n)
    case Err(x) => Err(x)
    case Ok(ins) => if ins == [] then Ok(None) else Ok(Some(ins[0]))
  }

  /** In a valid graph the in-edge is the least-numbered edge entering the node, and `None` means no edge enters it. */
  lemma InEdgeLeast<ND, ED>(g: GraphState<ND, ED>, n: NodeID)
    requires g.Valid() && n in g.nodes
    ensures InEdge(g, n) == Ok(None) <==> g.EdgesInto(n) == {}
    ensures InEdge(g, n).value.Some? ==>
      var e := InEdge(g, n).value.value;
      e in g.EdgesInto(n) && forall x | x in g.EdgesInto(n) :: e <= x
  {
    var ins := g.nodes[n].inEdges;
    assert g.NodeValid(n);
    EmptyElements(ins);
    if ins != [] {
      IncreasingFirstIsLeast(ins);
    }
  }

  /** `parent`: the tail of the in-edge; the edge is known to exist, so that lookup cannot fail. */
  function Parent<ND, ED>(g: GraphState<ND, ED>, n: NodeID): (r: Result<Option<NodeID>>)
    requires g.Valid()
    ensures r.Err? <==> n !in g.nodes
    ensures r.Err? ==> r.error == NotFound
    ensures r == Ok(None) <==> n in g.nodes && g.EdgesInto(n) == {}
    ensures r.Ok? && r.value.Some? ==>
      r.value.value in g.nodes && exists e | e in g.EdgesInto(n) :: g.edges[e].tail == r.value.value
  {
    match InEdge(g, n)
    case Err(x) => Err(x)
    case Ok(None) => InEdgeLeast(g, n); Ok(None)
    case Ok(Some(e)) =>
      InEdgeLeast(g, n);
      assert e in g.EdgesInto(n);
      Ok(Some(g.edges[e].tail))
  }

  /** `nonRootNodes`: every node but the root, in the graph's node order. */
  ghost function NonRootNodes<ND, ED>(g: GraphState<ND, ED>, root: NodeID): (r: seq<NodeID>)
    ensures Increasing(r) && Elements(r) == g.nodes.Keys - {root}
  {
    Keep(g.Nodes(), x => x != root)
  }

  /** `children`: the heads of a node's out-edges, in out-edge order. */
  function Children<ND, ED>(g: GraphState<ND, ED>, n: NodeID): (r: Result<seq<NodeID>>)
    requires g.Valid()
    ensures r.Err? <==> n !in g.nodes
    ensures r.Err? ==> r.error == NotFound
    ensures r.Ok? ==> |r.value| == |g.nodes[n].outEdges|
    ensures r.Ok? ==> forall m :: m in r.value <==> exists e | e in g.EdgesFrom(n) :: g.edges[e].head == m
  {
    match g.NodeOutEdges(n)
    case Err(x) => Err(x)
    case Ok(out) =>
      assert forall i | 0 <= i < |out| :: out[i] in Elements(out);
      var hs := g.Heads(out);
      assert forall m :: m in hs <==> exists e | e in g.EdgesFrom(n) :: g.edges[e].head == m by {
        forall m | m in hs ensures exists e | e in g.EdgesFrom(n) :: g.edges[e].head == m {
          var i :| 0 <= i < |hs| && hs[i] == m;
          assert out[i] in Elements(out);
        }
        forall m | exists e | e in g.EdgesFrom(n) :: g.edges[e].head == m ensures m in hs {
          var e :| e in g.EdgesFrom(n) && g.edges[e].head == m;
          var i :| 0 <= i < |out| && out[i] == e;
          assert hs[i] == m;
        }
      }
      Ok(hs)
  }

  /** `index(of:)`: the position of a node's in-edge among its parent's out-edges; `None` for a node with no parent. */
  function IndexOf<ND, ED>(g: GraphState<ND, ED>, n: NodeID): (r: Result<Option<nat>>)
    requires g.Valid()
    ensures r.Err? <==> n !in g.nodes
    ensures r.Err? ==> r.error == NotFound
    ensures r.Ok? ==> (r.value.None? <==> g.EdgesInto(n) == {})
    ensures r.Ok? && r.value.Some? ==>
      var e := InEdge(g, n).value.value;
      e in g.edges && g.edges[e].tail in g.nodes &&
      var out := g.nodes[g.edges[e].tail].outEdges;
      r.value.value < |out| && out[r.value.value] == e
  {
    match InEdge(g, n)
    case Err(x) => Err(x)
    case Ok(None) => InEdgeLeast(g, n); Ok(None)
    case Ok(Some(e)) =>
      InEdgeLeast(g, n);
      g.TailHasEdge(e);
      match FirstIndex(g.nodes[g.edges[e].tail].outEdges, e)
      case Ok(i) => Ok(Some(i))
      case Err(_) => assert false; Ok(None)
  }

  /** In a tree the root alone has no parent, and every other node has exactly one edge entering it. */
  lemma TreeParent<ND, ED>(g: GraphState<ND, ED>, root: NodeID, n: NodeID)
    requires g.Valid() && TreeShaped(g, root) && n in g.nodes
    ensures Parent(g, n) == Ok(None) <==> n == root
    ensures n != root ==> InEdge(g, n).value.Some? && g.EdgesInto(n) == {InEdge(g, n).value.value}
  {
    InEdgeLeast(g, n);
    if n != root {
      assert Reach(g, {}, root, n);
      var p :| IsPath(g, {}, p, root, n);
      if p == [] {
        assert false;
      }
      PathLast(g, {}, p, root, n);
      assert p[|p| - 1] in g.EdgesInto(n);
      var e := InEdge(g, n).value.value;
      assert e in g.EdgesInto(n);
      forall x | x in g.EdgesInto(n) ensures x == e {
      }
    }
  }

  /** In a tree a node's children are exactly the nodes whose parent it is, each listed once. */
  lemma TreeChildren<ND, ED>(g: GraphState<ND, ED>, root: NodeID, n: NodeID, m: NodeID)
    requires g.Valid() && TreeShaped(g, root) && n in g.nodes && m in g.nodes
    ensures m in Children(g, n).value <==> Parent(g, m) == Ok(Some(n))
  {
    InEdgeLeast(g, m);
    if m in Children(g, n).value {
      var e :| e in g.EdgesFrom(n) && g.edges[e].head == m;
      TreeParent(g, root, m);
      assert e in g.EdgesInto(m);
    }
    if Parent(g, m) == Ok(Some(n)) {
      var e := InEdge(g, m).value.value;
      assert e in g.EdgesInto(m) && e in g.EdgesFrom(n);
    }
  }

  /** In a tree no node is listed twice among a parent's children. */
  lemma TreeChildrenDistinct<ND, ED>(g: GraphState<ND, ED>, root: NodeID, n: NodeID)
    requires g.Valid() && TreeShaped(g, root) && n in g.nodes
    ensures Distinct(Children(g, n).value)
  {
    var out := g.nodes[n].outEdges;
    var cs := Children(g, n).value;
    assert g.NodeValid(n);
    assert Distinct(out) by {
      if !g.isOrdered {
        IncreasingIsDistinct(out);
      }
    }
    assert forall i | 0 <= i < |out| :: out[i] in Elements(out);
    assert cs == g.Heads(out);
    forall i, j | 0 <= i < j < |cs| ensures cs[i] != cs[j] {
      assert out[i] in Elements(out) && out[j] in Elements(out);
      assert out[i] != out[j];
    }
  }
}
