/**
 * The graph store as a value: a directed multigraph held as two maps, node id
 * to (data, in-edges, out-edges) and edge id to (tail, head, data). Every
 * mutation of the store is a function from the old value to a `Result` holding
 * the new one; the class in `Graphs` applies them in place.
 *
 * In-edges are a sorted set. Out-edges are a sorted set in a sorted graph and
 * an insertion-ordered set in an ordered graph.
 */
module GraphModel {
  import opened GraphErrors
  import opened ElementIDs
  import opened EdgeSets
  import opened SetOrder

  datatype Node<ND> = Node(data: ND, inEdges: seq<EdgeID>, outEdges: seq<EdgeID>)

  datatype Edge<ED> = Edge(tail: NodeID, head: NodeID, data: ED)

  /** Inserts an edge id into an out-edge list: appended when ordered, in place when sorted. */
  function InsertOut(ordered: bool, s: seq<EdgeID>, e: EdgeID): (r: seq<EdgeID>)
    requires OutOrder(ordered, s)
    ensures OutOrder(ordered, r)
    ensures Elements(r) == Elements(s) + {e}
    ensures e !in s ==> Without(r, e) == s
    ensures ordered && e !in s ==> r == s + [e]
  {
    if ordered then OrderedAppend(s, e)
    else
      SortedInsertWithout(s, e);
      SortedInsert(s, e)
  }

  /** Removing a freshly inserted member from a sorted list gives the list back. */
  lemma {:induction false} SortedInsertWithout(s: seq<EdgeID>, e: EdgeID)
    requires Increasing(s)
    ensures e !in s ==> Without(SortedInsert(s, e), e) == s
  {
    if e in s || s == [] {
    } else if e < s[0] {
      assert ([e] + s)[1..] == s;
    } else {
      IncreasingHead(s);
      SortedInsertWithout(s[1..], e);
      assert s == [s[0]] + s[1..];
    }
  }

  /** Two duplicate-free lists with the same members have the same length. */
  lemma DistinctCount(s: seq<EdgeID>, t: seq<EdgeID>)
    requires Distinct(s) && Distinct(t) && Elements(s) == Elements(t)
    ensures |s| == |t|
  {
    DistinctCard(s);
    DistinctCard(t);
  }

  /** Overwriting a map entry and then writing back the old value restores the map. */
  lemma RewriteRestores<K, V>(m: map<K, V>, k: K, v: V)
    requires k in m
    ensures m[k := v][k := m[k]] == m
  {
  }

  /** Two maps with the same keys and the same value at each key are equal. */
  lemma SameMap<K, V>(a: map<K, V>, b: map<K, V>)
    requires a.Keys == b.Keys && forall k | k in a :: a[k] == b[k]
    ensures a == b
  {
  }

  /** Removing a map entry and then writing it back restores the map. */
  lemma RemovedRestores<K, V>(m: map<K, V>, k: K)
    requires k in m
    ensures (m - {k})[k := m[k]] == m
  {
    assert ((m - {k})[k := m[k]]).Keys == m.Keys;
  }

  /** Adding a fresh map entry and then removing it restores the map. */
  lemma FreshRestores<K, V>(m: map<K, V>, k: K, v: V)
    requires k !in m
    ensures m[k := v] - {k} == m
  {
    assert (m[k := v] - {k}).Keys == m.Keys;
  }

  /** Appending a new member and then removing it gives the same list as removing it. */
  lemma AppendedWithout(s: seq<EdgeID>, e: EdgeID, s2: seq<EdgeID>)
    ensures e !in s && s2 == s + [e] ==> Without(s2, e) == Without(s, e)
  {
    if e !in s && s2 == s + [e] {
      WithoutAppend(s, e);
      WithoutAbsent(s, e);
    }
  }

  /** Placing `e` at `index` in `s + [e]`, counted without `e`, is inserting it into `s` at `index`. */
  lemma InsertedAt(s: seq<EdgeID>, e: EdgeID, index: int, r: seq<EdgeID>)
    requires Distinct(s) && e !in s
    requires OrderedInsertAt(Without(s + [e], e), e, index) == Ok(r)
    ensures OrderedInsertAt(s, e, index) == Ok(r)
  {
    WithoutAppend(s, e);
  }

  /** The order an out-edge list is kept in: insertion order or increasing. */
  ghost predicate OutOrder(ordered: bool, s: seq<EdgeID>) {
    if ordered then Distinct(s) else Increasing(s)
  }

  /** Moves `e` from the out-list of `from` to that of `to` (nothing when they are the same node). */
  function ShiftOut<D>(ns: map<NodeID, Node<D>>, ordered: bool, e: EdgeID, from: NodeID, to: NodeID): (r: map<NodeID, Node<D>>)
    requires from in ns && to in ns && OutOrder(ordered, ns[to].outEdges)
    ensures r.Keys == ns.Keys
    ensures forall m | m in ns :: r[m] == ns[m].(outEdges :=
      if from == to || (m != from && m != to) then ns[m].outEdges
      else if m == to then InsertOut(ordered, ns[m].outEdges, e)
      else Without(ns[m].outEdges, e))
  {
    if from == to then ns
    else
      var n1 := ns[to := ns[to].(outEdges := InsertOut(ordered, ns[to].outEdges, e))];
      n1[from := n1[from].(outEdges := Without(n1[from].outEdges, e))]
  }

  /** Moves `e` from the in-list of `from` to that of `to` (nothing when they are the same node). */
  function ShiftIn<D>(ns: map<NodeID, Node<D>>, e: EdgeID, from: NodeID, to: NodeID): (r: map<NodeID, Node<D>>)
    requires from in ns && to in ns && Increasing(ns[to].inEdges)
    ensures r.Keys == ns.Keys
    ensures forall m | m in ns :: r[m] == ns[m].(inEdges :=
      if from == to || (m != from && m != to) then ns[m].inEdges
      else if m == to then SortedInsert(ns[m].inEdges, e)
      else Without(ns[m].inEdges, e))
  {
    if from == to then ns
    else
      var n1 := ns[to := ns[to].(inEdges := SortedInsert(ns[to].inEdges, e))];
      n1[from := n1[from].(inEdges := Without(n1[from].inEdges, e))]
  }

  /** `ShiftOut` between two different nodes is the two list updates, in the library's order. */
  lemma ShiftOutSteps<D>(ns: map<NodeID, Node<D>>, ordered: bool, e: EdgeID, from: NodeID, to: NodeID)
    requires from in ns && to in ns && OutOrder(ordered, ns[to].outEdges) && from != to
    ensures ShiftOut(ns, ordered, e, from, to) ==
      ns[to := ns[to].(outEdges := InsertOut(ordered, ns[to].outEdges, e))]
        [from := ns[to := ns[to].(outEdges := InsertOut(ordered, ns[to].outEdges, e))][from].(outEdges :=
          Without(ns[to := ns[to].(outEdges := InsertOut(ordered, ns[to].outEdges, e))][from].outEdges, e))]
  {
  }

  /** `ShiftIn` between two different nodes is the two list updates, in the library's order. */
  lemma ShiftInSteps<D>(ns: map<NodeID, Node<D>>, e: EdgeID, from: NodeID, to: NodeID)
    requires from in ns && to in ns && Increasing(ns[to].inEdges) && from != to
    ensures ShiftIn(ns, e, from, to) ==
      ns[to := ns[to].(inEdges := SortedInsert(ns[to].inEdges, e))]
        [from := ns[to := ns[to].(inEdges := SortedInsert(ns[to].inEdges, e))][from].(inEdges :=
          Without(ns[to := ns[to].(inEdges := SortedInsert(ns[to].inEdges, e))][from].inEdges, e))]
  {
  }

  datatype GraphState<ND, ED> = GraphState(
    isOrdered: bool,
    nodes: map<NodeID, Node<ND>>,
    edges: map<EdgeID, Edge<ED>>)
  {
    /** The edges leaving a node, read off the edge map. */
    ghost function EdgesFrom(n: NodeID): set<EdgeID> {
      set e | e in edges && edges[e].tail == n
    }

    /** The edges entering a node, read off the edge map. */
    ghost function EdgesInto(n: NodeID): set<EdgeID> {
      set e | e in edges && edges[e].head == n
    }

    /** A node's adjacency lists hold exactly the edges that name it, in their order. */
    ghost predicate NodeValid(n: NodeID)
      requires n in nodes
    {
      && OutOrder(isOrdered, nodes[n].outEdges)
      && Increasing(nodes[n].inEdges)
      && Elements(nodes[n].outEdges) == EdgesFrom(n)
      && Elements(nodes[n].inEdges) == EdgesInto(n)
    }

    /** The store's invariant: edges join existing nodes and adjacency mirrors the edge map. */
    ghost predicate Valid() {
      && (forall e | e in edges :: edges[e].tail in nodes && edges[e].head in nodes)
      && (forall n | n in nodes :: NodeValid(n))
    }

    /** The node ids in increasing order. */
    ghost function Nodes(): (r: seq<NodeID>)
      ensures Increasing(r) && Elements(r) == nodes.Keys
    {
      SortedElements(nodes.Keys)
    }

    /** The edge ids in increasing order. */
    ghost function Edges(): (r: seq<EdgeID>)
      ensures Increasing(r) && Elements(r) == edges.Keys
    {
      SortedElements(edges.Keys)
    }

    // ------------------------------------------------------------------
    // Queries
    // ------------------------------------------------------------------

    function NodeData(n: NodeID): (r: Result<ND>)
      ensures r.Err? <==> n !in nodes
      ensures r.Err? ==> r.error == NotFound
    {
      if n in nodes then Ok(nodes[n].data) else Err(NotFound)
    }

    function EdgeData(e: EdgeID): (r: Result<ED>)
      ensures r.Err? <==> e !in edges
      ensures r.Err? ==> r.error == NotFound
    {
      if e in edges then Ok(edges[e].data) else Err(NotFound)
    }

    function NodeOutEdges(n: NodeID): (r: Result<seq<EdgeID>>)
      ensures r.Err? <==> n !in nodes
      ensures r.Err? ==> r.error == NotFound
      ensures Valid() && r.Ok? ==> Elements(r.value) == EdgesFrom(n) && OutOrder(isOrdered, r.value)
    {
      if n in nodes then Ok(nodes[n].outEdges) else Err(NotFound)
    }

    function NodeInEdges(n: NodeID): (r: Result<seq<EdgeID>>)
      ensures r.Err? <==> n !in nodes
      ensures r.Err? ==> r.error == NotFound
      ensures Valid() && r.Ok? ==> Elements(r.value) == EdgesInto(n) && Increasing(r.value)
    {
      if n in nodes then Ok(nodes[n].inEdges) else Err(NotFound)
    }

    /** The union of a node's out- and in-edges, sorted. */
    function NodeEdges(n: NodeID): (r: Result<seq<EdgeID>>)
      ensures r.Err? <==> n !in nodes
      ensures r.Err? ==> r.error == NotFound
      ensures r.Ok? ==> Increasing(r.value)
      ensures Valid() && r.Ok? ==> Elements(r.value) == EdgesFrom(n) + EdgesInto(n)
    {
      if n in nodes then Ok(Sort(nodes[n].outEdges + nodes[n].inEdges)) else Err(NotFound)
    }

    /** The heads of some edges, in the order given. */
    function Heads(es: seq<EdgeID>): (r: seq<NodeID>)
      requires forall i | 0 <= i < |es| :: es[i] in edges
      ensures |r| == |es| && forall i | 0 <= i < |es| :: r[i] == edges[es[i]].head
    {
      if es == [] then [] else [edges[es[0]].head] + Heads(es[1..])
    }

    /** The tails of some edges, in the order given. */
    function Tails(es: seq<EdgeID>): (r: seq<NodeID>)
      requires forall i | 0 <= i < |es| :: es[i] in edges
      ensures |r| == |es| && forall i | 0 <= i < |es| :: r[i] == edges[es[i]].tail
    {
      if es == [] then [] else [edges[es[0]].tail] + Tails(es[1..])
    }

    /** The heads of a node's out-edges, as a sorted set. */
    function NodeSuccessors(n: NodeID): (r: Result<seq<NodeID>>)
      requires Valid()
      ensures r.Err? <==> n !in nodes
      ensures r.Err? ==> r.error == NotFound
      ensures r.Ok? ==> Increasing(r.value)
      ensures r.Ok? ==> forall m :: m in r.value <==> exists e | e in edges :: edges[e].tail == n && edges[e].head == m
    {
      if n !in nodes then Err(NotFound)
      else
        OutEdgesKnown(n);
        var hs := Heads(nodes[n].outEdges);
        HeadsAreSuccessors(n);
        var sorted := Sort(hs);
        SortKeepsMembers(hs);
        Ok(sorted)
    }

    /** Every id on a node's adjacency lists is a recorded edge. */
    lemma OutEdgesKnown(n: NodeID)
      requires Valid() && n in nodes
      ensures forall i | 0 <= i < |nodes[n].outEdges| :: nodes[n].outEdges[i] in edges
      ensures forall i | 0 <= i < |nodes[n].inEdges| :: nodes[n].inEdges[i] in edges
    {
      assert NodeValid(n);
      forall i | 0 <= i < |nodes[n].outEdges| ensures nodes[n].outEdges[i] in edges {
        assert nodes[n].outEdges[i] in Elements(nodes[n].outEdges);
      }
      forall i | 0 <= i < |nodes[n].inEdges| ensures nodes[n].inEdges[i] in edges {
        assert nodes[n].inEdges[i] in Elements(nodes[n].inEdges);
      }
    }

    lemma HeadsAreSuccessors(n: NodeID)
      requires Valid() && n in nodes
      ensures forall i | 0 <= i < |nodes[n].outEdges| :: nodes[n].outEdges[i] in edges
      ensures forall m :: m in Heads(nodes[n].outEdges) <==>
        exists e | e in edges :: edges[e].tail == n && edges[e].head == m
    {
      OutEdgesKnown(n);
      assert NodeValid(n);
      var hs := Heads(nodes[n].outEdges);
      forall m ensures m in hs <==> exists e | e in edges :: edges[e].tail == n && edges[e].head == m {
        if exists e | e in edges :: edges[e].tail == n && edges[e].head == m {
          var e :| e in edges && edges[e].tail == n && edges[e].head == m;
          assert e in EdgesFrom(n);
          assert e in Elements(nodes[n].outEdges);
          var i :| 0 <= i < |nodes[n].outEdges| && nodes[n].outEdges[i] == e;
          assert hs[i] == m;
        }
        if m in hs {
          var i :| 0 <= i < |hs| && hs[i] == m;
          assert nodes[n].outEdges[i] in Elements(nodes[n].outEdges);
        }
      }
    }

    lemma TailsArePredecessors(n: NodeID)
      requires Valid() && n in nodes
      ensures forall i | 0 <= i < |nodes[n].inEdges| :: nodes[n].inEdges[i] in edges
      ensures forall m :: m in Tails(nodes[n].inEdges) <==>
        exists e | e in edges :: edges[e].head == n && edges[e].tail == m
    {
      OutEdgesKnown(n);
      assert NodeValid(n);
      var ts := Tails(nodes[n].inEdges);
      forall m ensures m in ts <==> exists e | e in edges :: edges[e].head == n && edges[e].tail == m {
        if exists e | e in edges :: edges[e].head == n && edges[e].tail == m {
          var e :| e in edges && edges[e].head == n && edges[e].tail == m;
          assert e in EdgesInto(n);
          assert e in Elements(nodes[n].inEdges);
          var i :| 0 <= i < |nodes[n].inEdges| && nodes[n].inEdges[i] == e;
          assert ts[i] == m;
        }
        if m in ts {
          var i :| 0 <= i < |ts| && ts[i] == m;
          assert nodes[n].inEdges[i] in Elements(nodes[n].inEdges);
        }
      }
    }

    /** The tails of a node's in-edges, as a sorted set. */
    function NodePredecessors(n: NodeID): (r: Result<seq<NodeID>>)
      requires Valid()
      ensures r.Err? <==> n !in nodes
      ensures r.Err? ==> r.error == NotFound
      ensures r.Ok? ==> Increasing(r.value)
      ensures r.Ok? ==> forall m :: m in r.value <==> exists e | e in edges :: edges[e].head == n && edges[e].tail == m
    {
      if n !in nodes then Err(NotFound)
      else
        OutEdgesKnown(n);
        var ts := Tails(nodes[n].inEdges);
        TailsArePredecessors(n);
        var sorted := Sort(ts);
        SortKeepsMembers(ts);
        Ok(sorted)
    }

    /** Successors and predecessors together, as a sorted set. */
    function NodeNeighbors(n: NodeID): (r: Result<seq<NodeID>>)
      requires Valid()
      ensures r.Err? <==> n !in nodes
      ensures r.Err? ==> r.error == NotFound
      ensures r.Ok? ==> Increasing(r.value)
      ensures r.Ok? ==> forall m :: m in r.value <==>
        exists e | e in edges :: (edges[e].tail == n && edges[e].head == m) || (edges[e].head == n && edges[e].tail == m)
    {
      match NodeSuccessors(n)
      case Err(err) => Err(err)
      case Ok(succ) =>
        var pred := NodePredecessors(n).value;
        var r := Sort(succ + pred);
        assert forall m :: m in r <==> m in succ || m in pred by {
          forall m ensures m in r <==> m in succ || m in pred {
            assert m in r <==> m in Elements(succ + pred);
          }
        }
        Ok(r)
    }

    function EdgeHead(e: EdgeID): (r: Result<NodeID>)
      ensures r.Err? <==> e !in edges
      ensures r.Err? ==> r.error == NotFound
      ensures Valid() && r.Ok? ==> r.value in nodes && e in nodes[r.value].inEdges
    {
      if e in edges then
        HeadHasEdge(e);
        Ok(edges[e].head)
      else Err(NotFound)
    }

    function EdgeTail(e: EdgeID): (r: Result<NodeID>)
      ensures r.Err? <==> e !in edges
      ensures r.Err? ==> r.error == NotFound
      ensures Valid() && r.Ok? ==> r.value in nodes && e in nodes[r.value].outEdges
    {
      if e in edges then
        TailHasEdge(e);
        Ok(edges[e].tail)
      else Err(NotFound)
    }

    function EdgeEnds(e: EdgeID): (r: Result<(NodeID, NodeID)>)
      ensures r.Err? <==> e !in edges
      ensures r.Err? ==> r.error == NotFound
      ensures r.Ok? ==> EdgeTail(e) == Ok(r.value.0) && EdgeHead(e) == Ok(r.value.1)
    {
      if e in edges then Ok((edges[e].tail, edges[e].head)) else Err(NotFound)
    }

    lemma TailHasEdge(e: EdgeID)
      requires e in edges
      ensures Valid() ==> edges[e].tail in nodes && e in nodes[edges[e].tail].outEdges
    {
      if Valid() {
        var t := edges[e].tail;
        assert NodeValid(t);
        assert e in EdgesFrom(t);
      }
    }

    lemma HeadHasEdge(e: EdgeID)
      requires e in edges
      ensures Valid() ==> edges[e].head in nodes && e in nodes[edges[e].head].inEdges
    {
      if Valid() {
        var h := edges[e].head;
        assert NodeValid(h);
        assert e in EdgesInto(h);
      }
    }

    // ------------------------------------------------------------------
    // How the incidence sets move when the edge map changes
    // ------------------------------------------------------------------

    /** Writing an edge record moves its id to the sets of its (new) ends. */
    lemma EdgeWritten(g: GraphState<ND, ED>, e: EdgeID, x: Edge<ED>, m: NodeID)
      requires g.edges == edges[e := x]
      ensures g.EdgesFrom(m) == (EdgesFrom(m) - {e}) + (if x.tail == m then {e} else {})
      ensures g.EdgesInto(m) == (EdgesInto(m) - {e}) + (if x.head == m then {e} else {})
    {
    }

    /** Deleting an edge record takes its id out of every set. */
    lemma EdgeDeleted(g: GraphState<ND, ED>, e: EdgeID, m: NodeID)
      requires g.edges == edges - {e}
      ensures g.EdgesFrom(m) == EdgesFrom(m) - {e}
      ensures g.EdgesInto(m) == EdgesInto(m) - {e}
    {
    }

    // ------------------------------------------------------------------
    // Raw edits, before their checks
    // ------------------------------------------------------------------

    /** Records a new edge and adds it to its tail's out-list and its head's in-list. */
    function Attach(e: EdgeID, t: NodeID, h: NodeID, d: ED): GraphState<ND, ED>
      requires Valid() && t in nodes && h in nodes
    {
      assert NodeValid(t) && NodeValid(h);
      var n1 := nodes[t := nodes[t].(outEdges := InsertOut(isOrdered, nodes[t].outEdges, e))];
      var n2 := n1[h := n1[h].(inEdges := SortedInsert(n1[h].inEdges, e))];
      GraphState(isOrdered, n2, edges[e := Edge(t, h, d)])
    }

    /** Each node after `Attach`: the tail's out-list and the head's in-list gain the edge. */
    lemma AttachShape(e: EdgeID, t: NodeID, h: NodeID, d: ED)
      requires Valid() && t in nodes && h in nodes
      ensures OutOrder(isOrdered, nodes[t].outEdges) && Increasing(nodes[h].inEdges)
      ensures Attach(e, t, h, d).nodes.Keys == nodes.Keys
      ensures forall m | m in nodes :: Attach(e, t, h, d).nodes[m] == nodes[m].(
        outEdges := if m == t then InsertOut(isOrdered, nodes[m].outEdges, e) else nodes[m].outEdges,
        inEdges := if m == h then SortedInsert(nodes[m].inEdges, e) else nodes[m].inEdges)
    {
      assert NodeValid(t) && NodeValid(h);
    }

    lemma AttachValid(e: EdgeID, t: NodeID, h: NodeID, d: ED)
      requires Valid() && e !in edges && t in nodes && h in nodes
      ensures Attach(e, t, h, d).Valid()
    {
      var g := Attach(e, t, h, d);
      AttachShape(e, t, h, d);
      forall m | m in g.nodes ensures g.NodeValid(m) {
        AttachNodeValid(e, t, h, d, m);
      }
    }

    lemma AttachNodeValid(e: EdgeID, t: NodeID, h: NodeID, d: ED, m: NodeID)
      requires Valid() && e !in edges && t in nodes && h in nodes && m in nodes
      ensures m in Attach(e, t, h, d).nodes && Attach(e, t, h, d).NodeValid(m)
    {
      AttachShape(e, t, h, d);
      AttachOut(e, t, h, d, m);
      AttachIn(e, t, h, d, m);
    }

    lemma AttachOut(e: EdgeID, t: NodeID, h: NodeID, d: ED, m: NodeID)
      requires Valid() && e !in edges && t in nodes && h in nodes && m in nodes
      ensures m in Attach(e, t, h, d).nodes
      ensures var g := Attach(e, t, h, d);
        OutOrder(isOrdered, g.nodes[m].outEdges) && Elements(g.nodes[m].outEdges) == g.EdgesFrom(m)
    {
      var g := Attach(e, t, h, d);
      AttachShape(e, t, h, d);
      assert NodeValid(m);
      if m == t {
        OutAfterWrite(g, e, Edge(t, h, d), m, InsertOut(isOrdered, nodes[m].outEdges, e));
      } else {
        OutAfterWrite(g, e, Edge(t, h, d), m, nodes[m].outEdges);
      }
    }

    lemma AttachIn(e: EdgeID, t: NodeID, h: NodeID, d: ED, m: NodeID)
      requires Valid() && e !in edges && t in nodes && h in nodes && m in nodes
      ensures m in Attach(e, t, h, d).nodes
      ensures var g := Attach(e, t, h, d);
        Increasing(g.nodes[m].inEdges) && Elements(g.nodes[m].inEdges) == g.EdgesInto(m)
    {
      var g := Attach(e, t, h, d);
      AttachShape(e, t, h, d);
      assert NodeValid(m);
      if m == h {
        InAfterWrite(g, e, Edge(t, h, d), m, SortedInsert(nodes[m].inEdges, e));
      } else {
        InAfterWrite(g, e, Edge(t, h, d), m, nodes[m].inEdges);
      }
    }

    lemma OutAfterWrite(g: GraphState<ND, ED>, e: EdgeID, x: Edge<ED>, m: NodeID, out: seq<EdgeID>)
      requires m in nodes && NodeValid(m) && m in g.nodes && g.isOrdered == isOrdered
      requires g.edges == edges[e := x] && g.nodes[m].outEdges == out
      requires e !in edges
      requires OutOrder(isOrdered, out) && Elements(out) == EdgesFrom(m) + (if x.tail == m then {e} else {})
      ensures OutOrder(g.isOrdered, g.nodes[m].outEdges) && Elements(g.nodes[m].outEdges) == g.EdgesFrom(m)
    {
      EdgeWritten(g, e, x, m);
    }

    lemma InAfterWrite(g: GraphState<ND, ED>, e: EdgeID, x: Edge<ED>, m: NodeID, ins: seq<EdgeID>)
      requires m in nodes && NodeValid(m) && m in g.nodes
      requires g.edges == edges[e := x] && g.nodes[m].inEdges == ins
      requires e !in edges
      requires Increasing(ins) && Elements(ins) == EdgesInto(m) + (if x.head == m then {e} else {})
      ensures Increasing(g.nodes[m].inEdges) && Elements(g.nodes[m].inEdges) == g.EdgesInto(m)
    {
      EdgeWritten(g, e, x, m);
    }

    /** Drops an edge from its tail's out-list, its head's in-list and the edge map. */
    function Detach(e: EdgeID): GraphState<ND, ED>
      requires e in edges && edges[e].tail in nodes && edges[e].head in nodes
    {
      var t := edges[e].tail;
      var h := edges[e].head;
      var n1 := nodes[t := nodes[t].(outEdges := Without(nodes[t].outEdges, e))];
      var n2 := n1[h := n1[h].(inEdges := Without(n1[h].inEdges, e))];
      GraphState(isOrdered, n2, edges - {e})
    }

    /** Each node after `Detach`: the tail's out-list and the head's in-list lose the edge. */
    lemma DetachShape(e: EdgeID)
      requires Valid() && e in edges
      ensures Detach(e).nodes.Keys == nodes.Keys
      ensures forall m | m in nodes :: Detach(e).nodes[m] == nodes[m].(
        outEdges := if m == edges[e].tail then Without(nodes[m].outEdges, e) else nodes[m].outEdges,
        inEdges := if m == edges[e].head then Without(nodes[m].inEdges, e) else nodes[m].inEdges)
    {
    }

    lemma DetachValid(e: EdgeID)
      requires Valid() && e in edges
      ensures Detach(e).Valid()
      ensures Detach(e).isOrdered == isOrdered && Detach(e).nodes.Keys == nodes.Keys
      ensures forall m | m in nodes :: Detach(e).nodes[m].data == nodes[m].data
      ensures Detach(e).edges == edges - {e}
    {
      var g := Detach(e);
      DetachShape(e);
      forall m | m in g.nodes ensures g.NodeValid(m) {
        DetachOutValid(e, m);
        DetachInValid(e, m);
      }
    }

    lemma DetachOutValid(e: EdgeID, m: NodeID)
      requires Valid() && e in edges && m in nodes
      ensures m in Detach(e).nodes
      ensures var g := Detach(e);
        OutOrder(isOrdered, g.nodes[m].outEdges) && Elements(g.nodes[m].outEdges) == g.EdgesFrom(m)
    {
      var g := Detach(e);
      DetachShape(e);
      assert NodeValid(m);
      OutAfterDelete(g, e, m, if m == edges[e].tail then Without(nodes[m].outEdges, e) else nodes[m].outEdges);
    }

    lemma DetachInValid(e: EdgeID, m: NodeID)
      requires Valid() && e in edges && m in nodes
      ensures m in Detach(e).nodes
      ensures var g := Detach(e);
        Increasing(g.nodes[m].inEdges) && Elements(g.nodes[m].inEdges) == g.EdgesInto(m)
    {
      var g := Detach(e);
      DetachShape(e);
      assert NodeValid(m);
      InAfterDelete(g, e, m, if m == edges[e].head then Without(nodes[m].inEdges, e) else nodes[m].inEdges);
    }

    lemma OutAfterDelete(g: GraphState<ND, ED>, e: EdgeID, m: NodeID, out: seq<EdgeID>)
      requires m in nodes && NodeValid(m) && m in g.nodes && g.isOrdered == isOrdered
      requires g.edges == edges - {e} && g.nodes[m].outEdges == out
      requires OutOrder(isOrdered, out) && Elements(out) == EdgesFrom(m) - {e}
      ensures OutOrder(g.isOrdered, g.nodes[m].outEdges) && Elements(g.nodes[m].outEdges) == g.EdgesFrom(m)
    {
      EdgeDeleted(g, e, m);
    }

    lemma InAfterDelete(g: GraphState<ND, ED>, e: EdgeID, m: NodeID, ins: seq<EdgeID>)
      requires m in nodes && NodeValid(m) && m in g.nodes
      requires g.edges == edges - {e} && g.nodes[m].inEdges == ins
      requires Increasing(ins) && Elements(ins) == EdgesInto(m) - {e}
      ensures Increasing(g.nodes[m].inEdges) && Elements(g.nodes[m].inEdges) == g.EdgesInto(m)
    {
      EdgeDeleted(g, e, m);
    }

    /** Detaches each listed edge that is still present, front to back. */
    function DetachAll(es: seq<EdgeID>): (r: GraphState<ND, ED>)
      requires Valid()
      ensures r.Valid() && SameNodesAs(r)
      ensures r.edges.Keys == edges.Keys - Elements(es)
      ensures forall x | x in r.edges :: r.edges[x] == edges[x]
      decreases |es|
    {
      if es == [] then this
      else
        var g := DetachIfPresent(es[0]);
        assert es == [es[0]] + es[1..];
        ElementsCons(es[0], es[1..]);
        g.DetachAll(es[1..])
    }

    /** Detaches the edge when it is recorded; otherwise changes nothing. */
    function DetachIfPresent(e: EdgeID): (r: GraphState<ND, ED>)
      requires Valid()
      ensures r.Valid() && SameNodesAs(r) && r.edges == edges - {e}
    {
      if e in edges then DetachValid(e); Detach(e) else this
    }

    /** Detaching one edge filters it out of every out-list. */
    lemma DetachOut(e: EdgeID, m: NodeID)
      requires Valid() && m in nodes
      ensures DetachIfPresent(e).nodes[m].outEdges == Keep(nodes[m].outEdges, y => y != e)
    {
      var out := nodes[m].outEdges;
      assert NodeValid(m);
      if e in edges && edges[e].tail == m {
        WithoutIsKeep(out, e);
      } else {
        assert e !in Elements(out);
        KeepAll(out, y => y != e);
      }
    }

    /** Detaching some edges filters them out of every out-list, keeping the order of the rest. */
    lemma {:induction false} DetachAllOut(es: seq<EdgeID>, m: NodeID)
      requires Valid() && m in nodes
      ensures DetachAll(es).nodes[m].outEdges == Keep(nodes[m].outEdges, x => x !in Elements(es))
      decreases |es|
    {
      var out := nodes[m].outEdges;
      if es == [] {
        KeepAll(out, x => x !in Elements(es));
      } else {
        var e0 := es[0];
        assert Elements(es) == {e0} + Elements(es[1..]) by {
          assert es == [e0] + es[1..];
        }
        var g := DetachIfPresent(e0);
        assert DetachAll(es) == g.DetachAll(es[1..]);
        DetachOut(e0, m);
        g.DetachAllOut(es[1..], m);
        KeepKeep(out, y => y != e0, x => x !in Elements(es[1..]), x => x !in Elements(es));
      }
    }

    /** The out-list of node `m` once edge `e` has tail `t`: it joins the new tail and leaves the old. */
    function MovedOut(e: EdgeID, t: NodeID, m: NodeID): (r: seq<EdgeID>)
      requires Valid() && e in edges && t in nodes && m in nodes
      ensures OutOrder(isOrdered, r)
      ensures Elements(r) == (EdgesFrom(m) - {e}) + (if t == m then {e} else {})
    {
      var x := edges[e].tail;
      TailHasEdge(e);
      assert NodeValid(m);
      if x == t || (m != t && m != x) then nodes[m].outEdges
      else if m == t then InsertOut(isOrdered, nodes[m].outEdges, e)
      else Without(nodes[m].outEdges, e)
    }

    /** The in-list of node `m` once edge `e` has head `h`. */
    function MovedIn(e: EdgeID, h: NodeID, m: NodeID): (r: seq<EdgeID>)
      requires Valid() && e in edges && h in nodes && m in nodes
      ensures Increasing(r)
      ensures Elements(r) == (EdgesInto(m) - {e}) + (if h == m then {e} else {})
    {
      var x := edges[e].head;
      HeadHasEdge(e);
      assert NodeValid(m);
      if x == h || (m != h && m != x) then nodes[m].inEdges
      else if m == h then SortedInsert(nodes[m].inEdges, e)
      else Without(nodes[m].inEdges, e)
    }

    /** Re-points an edge at new ends, moving its id between adjacency lists. */
    function Reattach(e: EdgeID, t: NodeID, h: NodeID): GraphState<ND, ED>
      requires Valid() && e in edges && t in nodes && h in nodes
    {
      GraphState(isOrdered,
        map m | m in nodes :: nodes[m].(outEdges := MovedOut(e, t, m), inEdges := MovedIn(e, h, m)),
        edges[e := edges[e].(tail := t, head := h)])
    }

    /** The node map after re-pointing edge `e`, one adjacency list at a time, as `moveEdge` does it. */
    function Repoint(e: EdgeID, t: NodeID, h: NodeID): map<NodeID, Node<ND>>
      requires Valid() && e in edges && t in nodes && h in nodes
    {
      var x := edges[e];
      TailHasEdge(e);
      HeadHasEdge(e);
      assert NodeValid(t) && NodeValid(h);
      var ns := ShiftOut(nodes, isOrdered, e, x.tail, t);
      ShiftIn(ns, e, x.head, h)
    }

    lemma RepointAt(e: EdgeID, t: NodeID, h: NodeID, m: NodeID)
      requires Valid() && e in edges && t in nodes && h in nodes && m in nodes
      ensures m in Repoint(e, t, h)
      ensures Repoint(e, t, h)[m] == nodes[m].(outEdges := MovedOut(e, t, m), inEdges := MovedIn(e, h, m))
    {
      TailHasEdge(e);
      HeadHasEdge(e);
    }

    /** A move that changes an end is the stepwise re-pointing of `Repoint`. */
    lemma MoveEdgeRepoints(e: EdgeID, t: NodeID, h: NodeID)
      requires Valid() && e in edges && t in nodes && h in nodes
      requires edges[e].tail != t || edges[e].head != h
      ensures OutOrder(isOrdered, nodes[t].outEdges) && Increasing(nodes[h].inEdges)
      ensures edges[e].tail in nodes && edges[e].head in nodes
      ensures MoveEdge(e, t, h) == Ok(GraphState(isOrdered, Repoint(e, t, h), edges[e := edges[e].(tail := t, head := h)]))
    {
      assert NodeValid(t) && NodeValid(h);
      ReattachStepwise(e, t, h);
    }

    /** `Reattach` agrees with the stepwise re-pointing. */
    lemma ReattachStepwise(e: EdgeID, t: NodeID, h: NodeID)
      requires Valid() && e in edges && t in nodes && h in nodes
      ensures Repoint(e, t, h) == Reattach(e, t, h).nodes
    {
      var g := Reattach(e, t, h);
      var p := Repoint(e, t, h);
      TailHasEdge(e);
      HeadHasEdge(e);
      forall m | m in nodes ensures m in p && p[m] == g.nodes[m] {
        RepointAt(e, t, h, m);
      }
      assert p.Keys == g.nodes.Keys;
    }

    /** The adjacency lists after `Reattach`: only the old and new ends' lists change. */
    lemma ReattachLists(e: EdgeID, t: NodeID, h: NodeID)
      requires Valid() && e in edges && t in nodes && h in nodes
      ensures var g := Reattach(e, t, h); var x := edges[e];
        && x.tail in nodes
        && g.nodes.Keys == nodes.Keys
        && (forall m | m in nodes :: g.nodes[m].data == nodes[m].data)
        && (isOrdered && x.tail != t ==> g.nodes[t].outEdges == nodes[t].outEdges + [e])
        && (x.tail != t ==> g.nodes[x.tail].outEdges == Without(nodes[x.tail].outEdges, e))
        && (forall m | m in nodes && (x.tail == t || (m != t && m != x.tail)) ::
              g.nodes[m].outEdges == nodes[m].outEdges)
        && (forall m | m in nodes && (x.head == h || (m != h && m != x.head)) ::
              g.nodes[m].inEdges == nodes[m].inEdges)
    {
      TailHasEdge(e);
      assert NodeValid(t);
      assert edges[e].tail != t ==> e !in nodes[t].outEdges by {
        assert e !in EdgesFrom(t) || edges[e].tail == t;
      }
    }

    lemma ReattachValid(e: EdgeID, t: NodeID, h: NodeID)
      requires Valid() && e in edges && t in nodes && h in nodes
      ensures Reattach(e, t, h).Valid()
    {
      var g := Reattach(e, t, h);
      forall m | m in g.nodes ensures g.NodeValid(m) {
        EdgeWritten(g, e, edges[e].(tail := t, head := h), m);
      }
    }

    // ------------------------------------------------------------------
    // Mutations: each checks before it writes, so a failure changes nothing
    // ------------------------------------------------------------------

    /** The node and edge maps are unchanged except where the predicate says. */
    ghost predicate SameNodesAs(g: GraphState<ND, ED>) {
      g.isOrdered == isOrdered && g.nodes.Keys == nodes.Keys
      && forall m | m in nodes :: g.nodes[m].data == nodes[m].data
    }

    /** `newNode`: a fresh node with the given data and no edges. */
    function NewNode(n: NodeID, d: ND): (r: Result<GraphState<ND, ED>>)
      requires Valid()
      ensures r.Err? <==> n in nodes
      ensures r.Err? ==> r.error == Duplicate
      ensures r.Ok? ==> r.value.Valid() && r.value.isOrdered == isOrdered && r.value.edges == edges
      ensures r.Ok? ==> r.value.nodes == nodes[n := Node(d, [], [])]
    {
      if n in nodes then Err(Duplicate)
      else
        var g := this.(nodes := nodes[n := Node(d, [], [])]);
        assert forall m | m in g.nodes :: g.NodeValid(m) by {
          forall m | m in g.nodes ensures g.NodeValid(m) {
            if m == n {
              NoEdgesAt(n);
            } else {
              assert NodeValid(m);
            }
          }
        }
        Ok(g)
    }

    /**
     * `newEdge`: checks the id is fresh and both ends exist, then records the
     * edge and adds it to its tail's out-list and its head's in-list.
     */
    function NewEdge(e: EdgeID, t: NodeID, h: NodeID, d: ED): (r: Result<GraphState<ND, ED>>)
      requires Valid()
      ensures r.Err? <==> e in edges || t !in nodes || h !in nodes
      ensures r.Err? ==> r.error == if e in edges then Duplicate else NotFound
      ensures r.Ok? ==> r.value.Valid() && SameNodesAs(r.value)
      ensures r.Ok? ==> r.value.edges == edges[e := Edge(t, h, d)]
      ensures r.Ok? ==> e in r.value.nodes[t].outEdges && e in r.value.nodes[h].inEdges
      ensures r.Ok? && isOrdered ==> r.value.nodes[t].outEdges == nodes[t].outEdges + [e]
      ensures r.Ok? ==> forall m | m in nodes && m != t :: r.value.nodes[m].outEdges == nodes[m].outEdges
      ensures r.Ok? ==> forall m | m in nodes && m != h :: r.value.nodes[m].inEdges == nodes[m].inEdges
    {
      if e in edges then Err(Duplicate)
      else if t !in nodes || h !in nodes then Err(NotFound)
      else
        AttachValid(e, t, h, d);
        AttachShape(e, t, h, d);
        assert NodeValid(t);
        assert e !in nodes[t].outEdges by { assert e !in EdgesFrom(t); }
        Ok(Attach(e, t, h, d))
    }

    /** `removeEdge`: drops the edge from both adjacency lists and the edge map. */
    function RemoveEdge(e: EdgeID): (r: Result<GraphState<ND, ED>>)
      requires Valid()
      ensures r.Err? <==> e !in edges
      ensures r.Err? ==> r.error == NotFound
      ensures r.Ok? ==> r.value.Valid() && SameNodesAs(r.value) && r.value.edges == edges - {e}
      ensures r.Ok? ==> var t := edges[e].tail; var h := edges[e].head;
        r.value.nodes[t].outEdges == Without(nodes[t].outEdges, e)
        && r.value.nodes[h].inEdges == Without(nodes[h].inEdges, e)
        && (forall m | m in nodes && m != t :: r.value.nodes[m].outEdges == nodes[m].outEdges)
        && (forall m | m in nodes && m != h :: r.value.nodes[m].inEdges == nodes[m].inEdges)
    {
      if e !in edges then Err(NotFound)
      else
        DetachValid(e);
        DetachShape(e);
        Ok(Detach(e))
    }

    /** `removeNodeEdges`: removes every edge that leaves or enters the node. */
    function RemoveNodeEdges(n: NodeID): (r: Result<GraphState<ND, ED>>)
      requires Valid()
      ensures r.Err? <==> n !in nodes
      ensures r.Err? ==> r.error == NotFound
      ensures r.Ok? ==> r.value.Valid() && SameNodesAs(r.value)
      ensures r.Ok? ==> r.value.edges == map x | x in edges && edges[x].tail != n && edges[x].head != n :: edges[x]
      ensures r.Ok? ==> r.value.nodes[n].outEdges == [] && r.value.nodes[n].inEdges == []
      ensures r.Ok? ==> forall m | m in nodes && m != n ::
        r.value.nodes[m].outEdges == Keep(nodes[m].outEdges, x => x in r.value.edges)
    {
      if n !in nodes then Err(NotFound)
      else
        DetachIncident(n);
        DetachIncidentOut(n);
        Ok(DetachAll(NodeEdges(n).value))
    }

    lemma NoEdgesAt(n: NodeID)
      requires Valid() && n !in nodes
      ensures EdgesFrom(n) == {} && EdgesInto(n) == {}
    {
      forall x ensures x !in EdgesFrom(n) && x !in EdgesInto(n) {
      }
    }

    lemma DetachIncident(n: NodeID)
      requires Valid() && n in nodes
      ensures var g := DetachAll(NodeEdges(n).value);
        g.edges == (map x | x in edges && edges[x].tail != n && edges[x].head != n :: edges[x])
        && g.nodes[n].outEdges == [] && g.nodes[n].inEdges == []
    {
      var es := NodeEdges(n).value;
      var g := DetachAll(es);
      var kept := map x | x in edges && edges[x].tail != n && edges[x].head != n :: edges[x];
      assert Elements(es) == EdgesFrom(n) + EdgesInto(n);
      assert g.edges.Keys == kept.Keys;
      SameMap(g.edges, kept);
      DetachedNodeBare(g, n);
    }

    /** A node no edge names has empty adjacency lists. */
    lemma DetachedNodeBare(g: GraphState<ND, ED>, n: NodeID)
      requires g.Valid() && n in g.nodes
      requires forall x | x in g.edges :: g.edges[x].tail != n && g.edges[x].head != n
      ensures g.nodes[n].outEdges == [] && g.nodes[n].inEdges == []
    {
      assert g.NodeValid(n);
      forall x ensures x !in g.EdgesFrom(n) && x !in g.EdgesInto(n) {
      }
      EmptyElements(g.nodes[n].outEdges);
      EmptyElements(g.nodes[n].inEdges);
    }

    /** Removing a node's edges leaves every other node's out-list filtered to the surviving edges. */
    lemma DetachIncidentOut(n: NodeID)
      requires Valid() && n in nodes
      ensures var g := DetachAll(NodeEdges(n).value);
        forall m | m in nodes && m != n :: g.nodes[m].outEdges == Keep(nodes[m].outEdges, x => x in g.edges)
    {
      var es := NodeEdges(n).value;
      var g := DetachAll(es);
      DetachIncident(n);
      forall m | m in nodes && m != n ensures g.nodes[m].outEdges == Keep(nodes[m].outEdges, x => x in g.edges) {
        DetachAllOut(es, m);
        assert NodeValid(m);
        forall x | x in nodes[m].outEdges ensures (x !in Elements(es)) == (x in g.edges) {
          assert x in Elements(nodes[m].outEdges);
        }
        KeepAgree(nodes[m].outEdges, x => x !in Elements(es), x => x in g.edges);
      }
    }

    /** `removeNode`: removes the node's edges, then the node. */
    function RemoveNode(n: NodeID): (r: Result<GraphState<ND, ED>>)
      requires Valid()
      ensures r.Err? <==> n !in nodes
      ensures r.Err? ==> r.error == NotFound
      ensures r.Ok? ==> r.value.Valid() && r.value.isOrdered == isOrdered
      ensures r.Ok? ==> r.value.nodes.Keys == nodes.Keys - {n}
      ensures r.Ok? ==> forall m | m in r.value.nodes :: r.value.nodes[m].data == nodes[m].data
      ensures r.Ok? ==> r.value.edges == map x | x in edges && edges[x].tail != n && edges[x].head != n :: edges[x]
      ensures r.Ok? ==> forall x | x in r.value.edges :: r.value.edges[x].tail != n && r.value.edges[x].head != n
      ensures r.Ok? ==> forall m | m in r.value.nodes ::
        r.value.nodes[m].outEdges == Keep(nodes[m].outEdges, x => x in r.value.edges)
    {
      match RemoveNodeEdges(n)
      case Err(err) => Err(err)
      case Ok(g) =>
        DetachIncidentOut(n);
        var g2 := g.(nodes := g.nodes - {n});
        assert forall m | m in g2.nodes :: g2.NodeValid(m) by {
          forall m | m in g2.nodes ensures g2.NodeValid(m) {
            assert g.NodeValid(m);
          }
        }
        Ok(g2)
    }

    /**
     * `moveEdge`: checks both new ends and the edge exist; unchanged ends are a
     * no-op; otherwise the edge is re-pointed and its id moves from the old
     * tail's out-list to the new tail's, and from the old head's in-list to the
     * new head's. The edge's data is untouched.
     */
    function MoveEdge(e: EdgeID, t: NodeID, h: NodeID): (r: Result<GraphState<ND, ED>>)
      requires Valid()
      ensures r.Err? <==> t !in nodes || h !in nodes || e !in edges
      ensures r.Err? ==> r.error == NotFound
      ensures r.Ok? && edges[e].tail == t && edges[e].head == h ==> r.value == this
      ensures r.Ok? ==> r.value.Valid() && SameNodesAs(r.value)
      ensures r.Ok? ==> r.value.edges == edges[e := Edge(t, h, edges[e].data)]
      ensures r.Ok? && isOrdered && edges[e].tail != t ==> r.value.nodes[t].outEdges == nodes[t].outEdges + [e]
      ensures r.Ok? && edges[e].tail != t ==>
        r.value.nodes[edges[e].tail].outEdges == Without(nodes[edges[e].tail].outEdges, e)
      ensures r.Ok? ==> forall m | m in nodes && (edges[e].tail == t || (m != t && m != edges[e].tail)) ::
        r.value.nodes[m].outEdges == nodes[m].outEdges
      ensures r.Ok? ==> forall m | m in nodes && (edges[e].head == h || (m != h && m != edges[e].head)) ::
        r.value.nodes[m].inEdges == nodes[m].inEdges
    {
      if t !in nodes || h !in nodes || e !in edges then Err(NotFound)
      else if edges[e].tail == t && edges[e].head == h then
        assert edges[e := Edge(t, h, edges[e].data)] == edges;
        Ok(this)
      else
        ReattachValid(e, t, h);
        ReattachLists(e, t, h);
        Ok(Reattach(e, t, h))
    }

    /**
     * `moveEdge(_:to:)` of an ordered graph: the edge keeps its ends and takes
     * position `index` among its tail's out-edges, counted without itself.
     */
    function MoveEdgeTo(e: EdgeID, index: int): (r: Result<GraphState<ND, ED>>)
      requires Valid()
      ensures e !in edges ==> r == Err(NotFound)
      ensures e in edges && !isOrdered ==> r == Err(NotOrdered)
      ensures e in edges && isOrdered ==>
        (r.Err? <==> !(0 <= index < |nodes[edges[e].tail].outEdges|))
      ensures r.Err? && e in edges && isOrdered ==> r.error == InvalidIndex
      ensures r.Ok? ==> r.value.Valid() && SameNodesAs(r.value) && r.value.edges == edges
      ensures r.Ok? ==> var t := edges[e].tail;
        FirstIndex(r.value.nodes[t].outEdges, e) == Ok(index)
        && Without(r.value.nodes[t].outEdges, e) == Without(nodes[t].outEdges, e)
        && (forall m | m in nodes && m != t :: r.value.nodes[m].outEdges == nodes[m].outEdges)
        && (forall m | m in nodes :: r.value.nodes[m].inEdges == nodes[m].inEdges)
    {
      if e !in edges then Err(NotFound)
      else if !isOrdered then Err(NotOrdered)
      else
        var t := edges[e].tail;
        TailHasEdge(e);
        assert NodeValid(t);
        var rest := Without(nodes[t].outEdges, e);
        match OrderedInsertAt(rest, e, index)
        case Err(err) => Err(err)
        case Ok(s) =>
          var g := this.(nodes := nodes[t := nodes[t].(outEdges := s)]);
          assert g.NodeValid(t);
          assert forall m | m in g.nodes :: g.NodeValid(m) by {
            forall m | m in g.nodes ensures g.NodeValid(m) {
              assert NodeValid(m);
            }
          }
          Ok(g)
    }

    /** `moveEdgeToFront`: position 0 among the tail's out-edges. */
    function MoveEdgeToFront(e: EdgeID): (r: Result<GraphState<ND, ED>>)
      requires Valid()
      ensures r.Err? <==> e !in edges || !isOrdered
      ensures e !in edges ==> r == Err(NotFound)
      ensures e in edges && !isOrdered ==> r == Err(NotOrdered)
      ensures r.Ok? ==> r.value.Valid() && SameNodesAs(r.value) && r.value.edges == edges
      ensures r.Ok? ==> var t := edges[e].tail; var out := r.value.nodes[t].outEdges;
        |out| > 0 && out[0] == e
        && Without(out, e) == Without(nodes[t].outEdges, e)
        && (forall m | m in nodes && m != t :: r.value.nodes[m].outEdges == nodes[m].outEdges)
        && (forall m | m in nodes :: r.value.nodes[m].inEdges == nodes[m].inEdges)
    {
      if e in edges && isOrdered then
        TailHasEdge(e);
        MoveEdgeTo(e, 0)
      else MoveEdgeTo(e, 0)
    }

    /** `moveEdgeToBack`: the last position among the tail's out-edges. */
    function MoveEdgeToBack(e: EdgeID): (r: Result<GraphState<ND, ED>>)
      requires Valid()
      ensures r.Err? <==> e !in edges || !isOrdered
      ensures e !in edges ==> r == Err(NotFound)
      ensures e in edges && !isOrdered ==> r == Err(NotOrdered)
      ensures r.Ok? ==> r.value.Valid() && SameNodesAs(r.value) && r.value.edges == edges
      ensures r.Ok? ==> var t := edges[e].tail; var out := r.value.nodes[t].outEdges;
        |out| > 0 && out[|out| - 1] == e
        && Without(out, e) == Without(nodes[t].outEdges, e)
        && (forall m | m in nodes && m != t :: r.value.nodes[m].outEdges == nodes[m].outEdges)
        && (forall m | m in nodes :: r.value.nodes[m].inEdges == nodes[m].inEdges)
    {
      if e !in edges then Err(NotFound)
      else
        TailHasEdge(e);
        var r := MoveEdgeTo(e, |nodes[edges[e].tail].outEdges| - 1);
        if r.Ok? then
          var t := edges[e].tail;
          var out := r.value.nodes[t].outEdges;
          assert NodeValid(t) && r.value.NodeValid(t);
          DistinctCount(nodes[t].outEdges, out);
          r
        else r
    }

    /**
     * `newEdge(_:tail:at:head:)` of an ordered graph: `newEdge`, then the new
     * edge takes position `index` among its tail's out-edges.
     */
    function NewEdgeAt(e: EdgeID, t: NodeID, index: int, h: NodeID, d: ED): (r: Result<GraphState<ND, ED>>)
      requires Valid()
      ensures e in edges ==> r == Err(Duplicate)
      ensures e !in edges && (t !in nodes || h !in nodes) ==> r == Err(NotFound)
      ensures e !in edges && t in nodes && h in nodes && !isOrdered ==> r == Err(NotOrdered)
      ensures e !in edges && t in nodes && h in nodes && isOrdered ==>
        (r.Err? <==> !(0 <= index <= |nodes[t].outEdges|)) && (r.Err? ==> r.error == InvalidIndex)
      ensures r.Ok? ==> r.value.Valid() && SameNodesAs(r.value) && r.value.edges == edges[e := Edge(t, h, d)]
      ensures r.Ok? ==> OrderedInsertAt(nodes[t].outEdges, e, index) == Ok(r.value.nodes[t].outEdges)
    {
      match NewEdge(e, t, h, d)
      case Err(err) => Err(err)
      case Ok(g) =>
        var r := g.MoveEdgeTo(e, index);
        if r.Ok? then
          assert NodeValid(t);
          assert e !in nodes[t].outEdges by { assert e !in EdgesFrom(t); }
          var s := r.value.nodes[t].outEdges;
          assert Without(g.nodes[t].outEdges, e) == nodes[t].outEdges;
          InsertedAt(nodes[t].outEdges, e, index, s);
          r
        else r
    }

    /**
     * `moveEdge(_:newTail:at:newHead:)` of an ordered graph: `moveEdge`, then
     * the edge takes position `index` among its new tail's out-edges.
     */
    function MoveEdgeAt(e: EdgeID, t: NodeID, index: int, h: NodeID): (r: Result<GraphState<ND, ED>>)
      requires Valid()
      ensures (t !in nodes || h !in nodes || e !in edges) ==> r == Err(NotFound)
      ensures t in nodes && h in nodes && e in edges && !isOrdered ==> r == Err(NotOrdered)
      ensures r.Ok? ==> r.value.Valid() && SameNodesAs(r.value)
      ensures r.Ok? ==> r.value.edges == edges[e := Edge(t, h, edges[e].data)]
      ensures r.Ok? ==> FirstIndex(r.value.nodes[t].outEdges, e) == Ok(index)
      ensures r.Ok? ==> Without(r.value.nodes[t].outEdges, e) == Without(nodes[t].outEdges, e)
      ensures t in nodes && h in nodes && e in edges && isOrdered ==>
        (r.Ok? <==> 0 <= index < |nodes[t].outEdges| + (if edges[e].tail == t then 0 else 1))
      ensures r.Err? && t in nodes && h in nodes && e in edges && isOrdered ==> r.error == InvalidIndex
      ensures r.Ok? && edges[e].tail != t ==>
        r.value.nodes[edges[e].tail].outEdges == Without(nodes[edges[e].tail].outEdges, e)
      ensures r.Ok? ==> forall m | m in nodes && m != t && m != edges[e].tail ::
        r.value.nodes[m].outEdges == nodes[m].outEdges
    {
      match MoveEdge(e, t, h)
      case Err(err) => Err(err)
      case Ok(g) =>
        var r := g.MoveEdgeTo(e, index);
        if r.Ok? then
          assert NodeValid(t) && g.NodeValid(t);
          assert e in EdgesFrom(t) <==> edges[e].tail == t;
          AppendedWithout(nodes[t].outEdges, e, g.nodes[t].outEdges);
          r
        else r
    }

    /** `withNodeData`: applies a transform to one node's data. */
    function WithNodeData(n: NodeID, f: ND -> ND): (r: Result<GraphState<ND, ED>>)
      requires Valid()
      ensures r.Err? <==> n !in nodes
      ensures r.Err? ==> r.error == NotFound
      ensures r.Ok? ==> r.value.Valid() && r.value.isOrdered == isOrdered && r.value.edges == edges
      ensures r.Ok? ==> r.value.nodes.Keys == nodes.Keys && r.value.NodeData(n) == Ok(f(nodes[n].data))
      ensures r.Ok? ==> forall m | m in nodes ::
        && r.value.nodes[m].inEdges == nodes[m].inEdges
        && r.value.nodes[m].outEdges == nodes[m].outEdges
        && (m != n ==> r.value.nodes[m].data == nodes[m].data)
    {
      if n !in nodes then Err(NotFound)
      else
        var g := this.(nodes := nodes[n := nodes[n].(data := f(nodes[n].data))]);
        assert forall m | m in g.nodes :: g.NodeValid(m) by {
          forall m | m in g.nodes ensures g.NodeValid(m) {
            assert NodeValid(m);
          }
        }
        Ok(g)
    }

    /** `setNodeData`: `withNodeData` with a transform that overwrites. */
    function SetNodeData(n: NodeID, d: ND): (r: Result<GraphState<ND, ED>>)
      requires Valid()
      ensures r.Err? <==> n !in nodes
      ensures r.Err? ==> r.error == NotFound
      ensures r.Ok? ==> r.value.Valid() && r.value.NodeData(n) == Ok(d) && r.value.edges == edges
      ensures r.Ok? ==> r.value.isOrdered == isOrdered && r.value.nodes.Keys == nodes.Keys
      ensures r.Ok? ==> forall m | m in nodes && m != n :: r.value.NodeData(m) == NodeData(m)
      ensures r.Ok? ==> forall m | m in nodes ::
        r.value.nodes[m].inEdges == nodes[m].inEdges && r.value.nodes[m].outEdges == nodes[m].outEdges
    {
      WithNodeData(n, _ => d)
    }

    /** `withEdgeData`: applies a transform to one edge's data. */
    function WithEdgeData(e: EdgeID, f: ED -> ED): (r: Result<GraphState<ND, ED>>)
      requires Valid()
      ensures r.Err? <==> e !in edges
      ensures r.Err? ==> r.error == NotFound
      ensures r.Ok? ==> r.value.Valid() && r.value.isOrdered == isOrdered && r.value.nodes == nodes
      ensures r.Ok? ==> r.value.edges == edges[e := edges[e].(data := f(edges[e].data))]
    {
      if e !in edges then Err(NotFound)
      else
        var g := this.(edges := edges[e := edges[e].(data := f(edges[e].data))]);
        assert forall m | m in g.nodes :: g.NodeValid(m) by {
          forall m | m in g.nodes ensures g.NodeValid(m) {
            assert NodeValid(m);
            EdgeWritten(g, e, edges[e].(data := f(edges[e].data)), m);
          }
        }
        Ok(g)
    }

    /** `setEdgeData`: `withEdgeData` with a transform that overwrites. */
    function SetEdgeData(e: EdgeID, d: ED): (r: Result<GraphState<ND, ED>>)
      requires Valid()
      ensures r.Err? <==> e !in edges
      ensures r.Err? ==> r.error == NotFound
      ensures r.Ok? ==> r.value.Valid() && r.value.EdgeData(e) == Ok(d) && r.value.nodes == nodes
      ensures r.Ok? ==> r.value.isOrdered == isOrdered
      ensures r.Ok? ==> r.value.EdgeEnds(e) == EdgeEnds(e)
      ensures r.Ok? ==> r.value.edges.Keys == edges.Keys
      ensures r.Ok? ==> forall x | x in edges && x != e :: r.value.edges[x] == edges[x]
    {
      WithEdgeData(e, _ => d)
    }

    // ------------------------------------------------------------------
    // Properties of the store
    // ------------------------------------------------------------------

    /**
     * The invariant in the library's own terms: each edge's ends exist and the
     * edge is in its tail's out-set and its head's in-set; each id in an
     * adjacency set names an edge with that node as tail (or head).
     */
    lemma ValidIncidence()
      requires Valid()
      ensures forall e | e in edges ::
        && edges[e].tail in nodes && e in nodes[edges[e].tail].outEdges
        && edges[e].head in nodes && e in nodes[edges[e].head].inEdges
      ensures forall n, e | n in nodes && e in nodes[n].outEdges :: e in edges && edges[e].tail == n
      ensures forall n, e | n in nodes && e in nodes[n].inEdges :: e in edges && edges[e].head == n
    {
      forall e | e in edges
        ensures edges[e].tail in nodes && e in nodes[edges[e].tail].outEdges
        ensures edges[e].head in nodes && e in nodes[edges[e].head].inEdges
      {
        TailHasEdge(e);
        HeadHasEdge(e);
      }
      forall n, e | n in nodes && e in nodes[n].outEdges ensures e in edges && edges[e].tail == n {
        assert NodeValid(n);
        assert e in Elements(nodes[n].outEdges);
      }
      forall n, e | n in nodes && e in nodes[n].inEdges ensures e in edges && edges[e].head == n {
        assert NodeValid(n);
        assert e in Elements(nodes[n].inEdges);
      }
    }

    /**
     * A sorted graph is determined by its node ids, node data and edge map:
     * the adjacency lists are then the incident edges in increasing order.
     */
    lemma SortedDeterminacy(b: GraphState<ND, ED>)
      requires Valid() && b.Valid() && !isOrdered && !b.isOrdered
      requires edges == b.edges && nodes.Keys == b.nodes.Keys
      requires forall m | m in nodes :: nodes[m].data == b.nodes[m].data
      ensures this == b
    {
      forall m | m in nodes ensures nodes[m] == b.nodes[m] {
        assert NodeValid(m) && b.NodeValid(m);
        IncreasingUnique(nodes[m].outEdges, b.nodes[m].outEdges);
        IncreasingUnique(nodes[m].inEdges, b.nodes[m].inEdges);
      }
      assert nodes == b.nodes;
    }

    /** Removing a node just added restores the graph. */
    lemma NewNodeThenRemove(n: NodeID, d: ND)
      requires Valid() && n !in nodes
      ensures NewNode(n, d).Ok? && NewNode(n, d).value.RemoveNode(n) == Ok(this)
    {
      var g := NewNode(n, d).value;
      assert g.NodeEdges(n) == Ok([]);
      assert g.DetachAll([]) == g;
      assert g.RemoveNodeEdges(n) == Ok(g);
      assert g.nodes - {n} == nodes;
    }

    /** Removing an edge just added restores the graph, in either edge order. */
    lemma NewEdgeThenRemove(e: EdgeID, t: NodeID, h: NodeID, d: ED)
      requires Valid() && NewEdge(e, t, h, d).Ok?
      ensures NewEdge(e, t, h, d).value.RemoveEdge(e) == Ok(this)
    {
      AttachValid(e, t, h, d);
      AttachDetach(e, t, h, d);
    }

    /** Attaching a fresh edge and detaching it again restores the store. */
    lemma AttachDetach(e: EdgeID, t: NodeID, h: NodeID, d: ED)
      requires Valid() && e !in edges && t in nodes && h in nodes
      ensures Attach(e, t, h, d).edges[e].tail in nodes && Attach(e, t, h, d).edges[e].head in nodes
      ensures Attach(e, t, h, d).Detach(e) == this
    {
      var g := Attach(e, t, h, d);
      AttachShape(e, t, h, d);
      AttachValid(e, t, h, d);
      g.DetachShape(e);
      var g2 := g.Detach(e);
      forall m | m in nodes ensures g2.nodes[m] == nodes[m] {
        AttachDetachNode(e, t, h, d, m);
      }
      SameMap(g2.nodes, nodes);
      FreshRestores(edges, e, Edge(t, h, d));
    }

    lemma AttachDetachNode(e: EdgeID, t: NodeID, h: NodeID, d: ED, m: NodeID)
      requires Valid() && e !in edges && t in nodes && h in nodes && m in nodes
      ensures Attach(e, t, h, d).edges[e].tail in nodes && Attach(e, t, h, d).edges[e].head in nodes
      ensures m in Attach(e, t, h, d).Detach(e).nodes && Attach(e, t, h, d).Detach(e).nodes[m] == nodes[m]
    {
      var g := Attach(e, t, h, d);
      AttachShape(e, t, h, d);
      AttachValid(e, t, h, d);
      g.DetachShape(e);
      assert NodeValid(m);
      if m == t {
        assert e !in nodes[t].outEdges by { assert e !in EdgesFrom(t); }
      }
      if m == h {
        assert e !in nodes[h].inEdges by { assert e !in EdgesInto(h); }
        SortedInsertWithout(nodes[h].inEdges, e);
      }
    }

    lemma RemoveEdgeThenNew(e: EdgeID)
      requires Valid() && !isOrdered && e in edges
      ensures var x := edges[e]; RemoveEdge(e).value.NewEdge(e, x.tail, x.head, x.data) == Ok(this)
    {
      var x := edges[e];
      var g := Detach(e);
      DetachValid(e);
      assert RemoveEdge(e) == Ok(g);
      var a := g.Attach(e, x.tail, x.head, x.data);
      g.AttachValid(e, x.tail, x.head, x.data);
      g.AttachShape(e, x.tail, x.head, x.data);
      assert g.NewEdge(e, x.tail, x.head, x.data) == Ok(a);
      RemovedRestores(edges, e);
      a.SortedDeterminacy(this);
    }

    /** In a sorted graph, moving an edge back to its old ends restores the graph. */
    lemma MoveEdgeBack(e: EdgeID, t: NodeID, h: NodeID)
      requires Valid() && !isOrdered && MoveEdge(e, t, h).Ok?
      ensures MoveEdge(e, t, h).value.MoveEdge(e, edges[e].tail, edges[e].head) == Ok(this)
    {
      var x := edges[e];
      var g := MoveEdge(e, t, h).value;
      TailHasEdge(e);
      HeadHasEdge(e);
      assert g.edges == edges[e := Edge(t, h, x.data)];
      assert x.tail in g.nodes && x.head in g.nodes && e in g.edges;
      var r := g.MoveEdge(e, x.tail, x.head);
      assert r.Ok?;
      assert r.value.edges == g.edges[e := Edge(x.tail, x.head, x.data)];
      assert x == Edge(x.tail, x.head, x.data);
      RewriteRestores(edges, e, Edge(t, h, x.data));
      assert r.value.edges == edges;
      r.value.SortedDeterminacy(this);
    }
  }
}
