/**
 * The directed acyclic graph wrapper: a graph store whose edge insertions and
 * edge moves are refused with `NotADAG` when they would close a cycle, and
 * whose other edits are passed straight to the store. The class invariant is
 * that the wrapped store has no cycle.
 */
module DAGs {
  import opened GraphErrors
  import opened ElementIDs
  import opened GraphModel
  import opened Paths
  import opened PathSearch
  import opened TopoSort
  import opened Graphs

  /** The guard `canAddDAGEdge(from: t, to: h)`: no path leads back from `h` to `t`. */
  ghost function AddGuard<ND, ED>(g: GraphState<ND, ED>, t: NodeID, h: NodeID): Result<bool> {
    if h !in g.nodes && h != t then Err(NotFound) else Ok(!Reach(g, {}, h, t))
  }

  /**
   * The guard of the edge moves as the library writes it, `canMoveDAGEdge`:
   * no path from `h` back to `t` in a search that drops the moved edge only
   * from the out-edges of `h`. It runs before the store looks at `e`.
   */
  ghost function MoveGuard<ND, ED>(g: GraphState<ND, ED>, e: EdgeID, t: NodeID, h: NodeID): Result<bool> {
    if h !in g.nodes && h != t then Err(NotFound) else Ok(!Reach(g, RootBan(g, Some(e), h), h, t))
  }

  /** The guard of the edge moves in its corrected form: the moved edge is left out of the whole search. */
  ghost function ExactMoveGuard<ND, ED>(g: GraphState<ND, ED>, e: EdgeID, t: NodeID, h: NodeID): Result<bool> {
    if e !in g.edges then Err(NotFound) else MoveAllowed(g, e, t, h)
  }

  /** A guarded edit: the guard's own error, `NotADAG` when it refuses, otherwise the store's result. */
  ghost function Guarded<ND, ED>(guard: Result<bool>, res: Result<GraphState<ND, ED>>): Result<GraphState<ND, ED>> {
    match guard
    case Err(x) => Err(x)
    case Ok(allowed) => if allowed then res else Err(NotADAG)
  }

  /** Two stores with the same edges have the same cycles. */
  lemma SameEdgesCycle<ND, ED>(g1: GraphState<ND, ED>, g2: GraphState<ND, ED>)
    requires g1.edges == g2.edges
    ensures HasCycle(g1) <==> HasCycle(g2)
  {
    if !HasCycle(g1) {
      SubgraphAcyclic(g2, g1);
    }
    if !HasCycle(g2) {
      SubgraphAcyclic(g1, g2);
    }
  }

  /**
   * The insertion guard is exact: on an acyclic store, a guarded insertion
   * (appended or at an index) succeeds exactly when the store accepts the
   * edge and the result is still acyclic.
   */
  lemma AddGuardExact<ND, ED>(g: GraphState<ND, ED>, e: EdgeID, t: NodeID, h: NodeID, d: ED, res: Result<GraphState<ND, ED>>)
    requires g.Valid() && !HasCycle(g)
    requires res.Ok? ==> g.NewEdge(e, t, h, d).Ok? && res.value.edges == g.NewEdge(e, t, h, d).value.edges
    ensures Guarded(AddGuard(g, t, h), res).Ok? <==> res.Ok? && !HasCycle(res.value)
    ensures Guarded(AddGuard(g, t, h), res).Ok? ==> Guarded(AddGuard(g, t, h), res) == res
  {
    if res.Ok? {
      NewEdgeCycle(g, e, t, h, d);
      SameEdgesCycle(res.value, g.NewEdge(e, t, h, d).value);
    }
  }

  /**
   * The library's move guard is safe but not exact: a move it lets through
   * is the store's own move and leaves no cycle, and it lets through only
   * moves the corrected guard lets through, for moves with or without an
   * index.
   */
  lemma MoveGuardSafe<ND, ED>(g: GraphState<ND, ED>, e: EdgeID, t: NodeID, h: NodeID, res: Result<GraphState<ND, ED>>)
    requires g.Valid() && !HasCycle(g)
    requires res.Ok? ==> g.MoveEdge(e, t, h).Ok? && res.value.edges == g.MoveEdge(e, t, h).value.edges
    ensures Guarded(MoveGuard(g, e, t, h), res).Ok? ==> Guarded(MoveGuard(g, e, t, h), res) == res && !HasCycle(res.value)
    ensures Guarded(MoveGuard(g, e, t, h), res).Ok? ==> Guarded(ExactMoveGuard(g, e, t, h), res).Ok?
  {
    if Guarded(MoveGuard(g, e, t, h), res).Ok? {
      CanMoveDAGEdgeSafe(g, e, t, h);
      SameEdgesCycle(res.value, g.MoveEdge(e, t, h).value);
      MoveAllowedExact(g, e, t, h);
    }
  }

  /** The corrected move guard is exact in the same sense, for moves with or without an index. */
  lemma MoveGuardExact<ND, ED>(g: GraphState<ND, ED>, e: EdgeID, t: NodeID, h: NodeID, res: Result<GraphState<ND, ED>>)
    requires g.Valid() && !HasCycle(g)
    requires res.Ok? ==> g.MoveEdge(e, t, h).Ok? && res.value.edges == g.MoveEdge(e, t, h).value.edges
    ensures Guarded(ExactMoveGuard(g, e, t, h), res).Ok? <==> res.Ok? && !HasCycle(res.value)
    ensures Guarded(ExactMoveGuard(g, e, t, h), res).Ok? ==> Guarded(ExactMoveGuard(g, e, t, h), res) == res
  {
    if res.Ok? {
      MoveAllowedExact(g, e, t, h);
      SameEdgesCycle(res.value, g.MoveEdge(e, t, h).value);
    }
  }

  /** An edit that only drops edges or keeps their ends keeps an acyclic store acyclic. */
  lemma KeepsAcyclic<ND, ED>(g: GraphState<ND, ED>, res: Result<GraphState<ND, ED>>)
    requires !HasCycle(g) && (res.Ok? ==> EdgesWithin(res.value, g))
    ensures res.Ok? ==> !HasCycle(res.value)
  {
    if res.Ok? {
      SubgraphAcyclic(res.value, g);
    }
  }

  class DAG<ND, ED> {
    const graph: Graph<ND, ED>

    function View(): GraphState<ND, ED>
      reads this, graph
    {
      graph.View()
    }

    /** The wrapped store is well formed and has no cycle. */
    ghost predicate Valid()
      reads this, graph
    {
      graph.Valid() && !HasCycle(graph.View())
    }

    /** Wraps a private copy of an acyclic store. */
    constructor (g: GraphState<ND, ED>)
      requires g.Valid() && !HasCycle(g)
      ensures Valid() && View() == g && fresh(graph)
    {
      var store := new Graph(g.isOrdered);
      var copied := store.Adopt(Ok(g));
      graph := store;
    }

    /** `newEdge(_:tail:head:data:)`: refused with `NotADAG` when `h` reaches `t`. */
    method NewEdge(e: EdgeID, t: NodeID, h: NodeID, d: ED) returns (r: Outcome)
      requires Valid()
      modifies graph
      ensures Valid()
      ensures Applies(Guarded(AddGuard(old(View()), t, h), old(View()).NewEdge(e, t, h, d)), r, View(), old(View()))
      ensures r == Pass <==> old(View()).NewEdge(e, t, h, d).Ok? && !HasCycle(old(View()).NewEdge(e, t, h, d).value)
    {
      ghost var g := View();
      AddGuardExact(g, e, t, h, d, g.NewEdge(e, t, h, d));
      var allowed := CanAddDAGEdge(graph.View(), t, h, None);
      match allowed
      case Err(x) =>
        r := Fail(x);
      case Ok(ok) =>
        if ok {
          r := graph.NewEdge(e, t, h, d);
        } else {
          r := Fail(NotADAG);
        }
    }

    /** `newEdge(_:tail:at:head:data:)`: the same guard, then an insertion at `index` among the tail's out-edges. */
    method NewEdgeAt(e: EdgeID, t: NodeID, index: int, h: NodeID, d: ED) returns (r: Outcome)
      requires Valid()
      modifies graph
      ensures Valid()
      ensures Applies(Guarded(AddGuard(old(View()), t, h), old(View()).NewEdgeAt(e, t, index, h, d)), r, View(), old(View()))
      ensures r == Pass <==> old(View()).NewEdgeAt(e, t, index, h, d).Ok? && !HasCycle(old(View()).NewEdgeAt(e, t, index, h, d).value)
    {
      ghost var g := View();
      AddGuardExact(g, e, t, h, d, g.NewEdgeAt(e, t, index, h, d));
      var allowed := CanAddDAGEdge(graph.View(), t, h, None);
      match allowed
      case Err(x) =>
        r := Fail(x);
      case Ok(ok) =>
        if ok {
          r := graph.NewEdgeAt(e, t, index, h, d);
        } else {
          r := Fail(NotADAG);
        }
    }

    /** `moveEdge(_:newTail:newHead:)`: refused with `NotADAG` when the library's guard finds a way back from `h` to `t`. */
    method MoveEdge(e: EdgeID, t: NodeID, h: NodeID) returns (r: Outcome)
      requires Valid()
      modifies graph
      ensures Valid()
      ensures Applies(Guarded(MoveGuard(old(View()), e, t, h), old(View()).MoveEdge(e, t, h)), r, View(), old(View()))
      ensures r == Pass ==> old(View()).MoveEdge(e, t, h).Ok? && !HasCycle(old(View()).MoveEdge(e, t, h).value)
    {
      ghost var g := View();
      MoveGuardSafe(g, e, t, h, g.MoveEdge(e, t, h));
      var allowed := CanMoveDAGEdge(graph.View(), e, t, h);
      match allowed
      case Err(x) =>
        r := Fail(x);
      case Ok(ok) =>
        if ok {
          r := graph.MoveEdge(e, t, h);
        } else {
          r := Fail(NotADAG);
        }
    }

    /** `moveEdge(_:newTail:at:newHead:)`: the same guard, then a move to `index` among the new tail's out-edges. */
    method MoveEdgeAt(e: EdgeID, t: NodeID, index: int, h: NodeID) returns (r: Outcome)
      requires Valid()
      modifies graph
      ensures Valid()
      ensures Applies(Guarded(MoveGuard(old(View()), e, t, h), old(View()).MoveEdgeAt(e, t, index, h)), r, View(), old(View()))
      ensures r == Pass ==> old(View()).MoveEdgeAt(e, t, index, h).Ok? && !HasCycle(old(View()).MoveEdgeAt(e, t, index, h).value)
    {
      ghost var g := View();
      MoveGuardSafe(g, e, t, h, g.MoveEdgeAt(e, t, index, h));
      var allowed := CanMoveDAGEdge(graph.View(), e, t, h);
      match allowed
      case Err(x) =>
        r := Fail(x);
      case Ok(ok) =>
        if ok {
          r := graph.MoveEdgeAt(e, t, index, h);
        } else {
          r := Fail(NotADAG);
        }
    }

    /** `moveEdge(_:to:)`: reorders the tail's out-edges, unchecked; no edge changes its ends. */
    method MoveEdgeTo(e: EdgeID, index: int) returns (r: Outcome)
      requires Valid()
      modifies graph
      ensures Valid()
      ensures Applies(old(View()).MoveEdgeTo(e, index), r, View(), old(View()))
    {
      KeepsAcyclic(View(), View().MoveEdgeTo(e, index));
      r := graph.MoveEdgeTo(e, index);
    }

    /** `moveEdgeToFront(_:)`, unchecked. */
    method MoveEdgeToFront(e: EdgeID) returns (r: Outcome)
      requires Valid()
      modifies graph
      ensures Valid()
      ensures Applies(old(View()).MoveEdgeToFront(e), r, View(), old(View()))
    {
      KeepsAcyclic(View(), View().MoveEdgeToFront(e));
      r := graph.MoveEdgeToFront(e);
    }

    /** `moveEdgeToBack(_:)`, unchecked. */
    method MoveEdgeToBack(e: EdgeID) returns (r: Outcome)
      requires Valid()
      modifies graph
      ensures Valid()
      ensures Applies(old(View()).MoveEdgeToBack(e), r, View(), old(View()))
    {
      KeepsAcyclic(View(), View().MoveEdgeToBack(e));
      r := graph.MoveEdgeToBack(e);
    }

    /** `newNode(_:data:)`, passed to the store. */
    method NewNode(n: NodeID, d: ND) returns (r: Outcome)
      requires Valid()
      modifies graph
      ensures Valid()
      ensures Applies(old(View()).NewNode(n, d), r, View(), old(View()))
    {
      KeepsAcyclic(View(), View().NewNode(n, d));
      r := graph.NewNode(n, d);
    }

    /** `removeNode(_:)`, passed to the store. */
    method RemoveNode(n: NodeID) returns (r: Outcome)
      requires Valid()
      modifies graph
      ensures Valid()
      ensures Applies(old(View()).RemoveNode(n), r, View(), old(View()))
    {
      KeepsAcyclic(View(), View().RemoveNode(n));
      r := graph.RemoveNode(n);
    }

    /** `removeEdge(_:)`, passed to the store. */
    method RemoveEdge(e: EdgeID) returns (r: Outcome)
      requires Valid()
      modifies graph
      ensures Valid()
      ensures Applies(old(View()).RemoveEdge(e), r, View(), old(View()))
    {
      KeepsAcyclic(View(), View().RemoveEdge(e));
      r := graph.RemoveEdge(e);
    }

    /** `removeNodeEdges(_:)`, passed to the store. */
    method RemoveNodeEdges(n: NodeID) returns (r: Outcome)
      requires Valid()
      modifies graph
      ensures Valid()
      ensures Applies(old(View()).RemoveNodeEdges(n), r, View(), old(View()))
    {
      KeepsAcyclic(View(), View().RemoveNodeEdges(n));
      r := graph.RemoveNodeEdges(n);
    }

    /** `withNodeData(_:transform:)`, passed to the store. */
    method WithNodeData(n: NodeID, f: ND -> ND) returns (r: Outcome)
      requires Valid()
      modifies graph
      ensures Valid()
      ensures Applies(old(View()).WithNodeData(n, f), r, View(), old(View()))
    {
      KeepsAcyclic(View(), View().WithNodeData(n, f));
      r := graph.WithNodeData(n, f);
    }

    /** `withEdgeData(_:transform:)`, passed to the store. */
    method WithEdgeData(e: EdgeID, f: ED -> ED) returns (r: Outcome)
      requires Valid()
      modifies graph
      ensures Valid()
      ensures Applies(old(View()).WithEdgeData(e, f), r, View(), old(View()))
    {
      KeepsAcyclic(View(), View().WithEdgeData(e, f));
      r := graph.WithEdgeData(e, f);
    }
  }

  /** `init(graph:)`: wraps a copy of the store, or throws `NotADAG` when it has a cycle. */
  method MakeDAG<ND, ED>(g: GraphState<ND, ED>) returns (r: Result<DAG<ND, ED>>)
    requires g.Valid()
    ensures r.Err? <==> HasCycle(g)
    ensures r.Err? ==> r.error == NotADAG
    ensures r.Ok? ==> r.value.Valid() && r.value.View() == g && fresh(r.value.graph)
  {
    var acyclic := IsDAG(g);
    match acyclic
    case Err(x) =>
      r := Err(x);
    case Ok(ok) =>
      if ok {
        var dag := new DAG(g);
        r := Ok(dag);
      } else {
        r := Err(NotADAG);
      }
  }
}
