/**
 * The difference between two graph snapshots as a list of mutations, and
 * its replay onto a graph store. The list is built in seven groups, always
 * in the same order (new nodes, node data, new edges, edge data, edge moves,
 * removed edges, removed nodes), each group sorted by id; replaying it onto
 * the first snapshot gives the second.
 */
module GraphDiff {
  import opened GraphErrors
  import opened ElementIDs
  import opened EdgeSets
  import opened SetOrder
  import opened GraphModel
  import opened Graphs

  /** `GraphMutation`: one edit of a graph store. */
  datatype Mutation<ND, ED> =
    | NewNode(n: NodeID, nd: ND)
    | SetNodeData(n: NodeID, nd: ND)
    | NewEdge(e: EdgeID, tail: NodeID, head: NodeID, ed: ED)
    | SetEdgeData(e: EdgeID, ed: ED)
    | MoveEdge(e: EdgeID, tail: NodeID, head: NodeID)
    | RemoveEdge(e: EdgeID)
    | RemoveNode(n: NodeID)
  {
    /** The id the mutation is about. */
    function Key(): int {
      match this
      case NewNode(n, _) => n
      case SetNodeData(n, _) => n
      case NewEdge(e, _, _, _) => e
      case SetEdgeData(e, _) => e
      case MoveEdge(e, _, _) => e
      case RemoveEdge(e) => e
      case RemoveNode(n) => n
    }

    /** The position of the mutation's group in a difference. */
    function Rank(): nat {
      match this
      case NewNode(_, _) => 0
      case SetNodeData(_, _) => 1
      case NewEdge(_, _, _, _) => 2
      case SetEdgeData(_, _) => 3
      case MoveEdge(_, _, _) => 4
      case RemoveEdge(_) => 5
      case RemoveNode(_) => 6
    }
  }

  /** The seven groups of a difference, in the order they are listed. */
  datatype Kind = NodesEntering | NodesUpdating | EdgesEntering | EdgesUpdating | EdgesMoving | EdgesExiting | NodesExiting
  {
    function Rank(): nat {
      match this
      case NodesEntering => 0
      case NodesUpdating => 1
      case EdgesEntering => 2
      case EdgesUpdating => 3
      case EdgesMoving => 4
      case EdgesExiting => 5
      case NodesExiting => 6
    }
  }

  /** What building a mutation of group `k` for `id` reads from the target graph. */
  predicate Needs<ND, ED>(k: Kind, id: int, b: GraphState<ND, ED>) {
    match k
    case NodesEntering => id in b.nodes
    case NodesUpdating => id in b.nodes
    case EdgesEntering => id in b.edges
    case EdgesUpdating => id in b.edges
    case EdgesMoving => id in b.edges
    case EdgesExiting => true
    case NodesExiting => true
  }

  /** The mutation of group `k` for `id`, carrying the target's data and ends. */
  function Build<ND, ED>(k: Kind, id: int, b: GraphState<ND, ED>): (m: Mutation<ND, ED>)
    requires Needs(k, id, b)
    ensures m.Key() == id && m.Rank() == k.Rank()
  {
    match k
    case NodesEntering => NewNode(id, b.nodes[id].data)
    case NodesUpdating => SetNodeData(id, b.nodes[id].data)
    case EdgesEntering => NewEdge(id, b.edges[id].tail, b.edges[id].head, b.edges[id].data)
    case EdgesUpdating => SetEdgeData(id, b.edges[id].data)
    case EdgesMoving => MoveEdge(id, b.edges[id].tail, b.edges[id].head)
    case EdgesExiting => RemoveEdge(id)
    case NodesExiting => RemoveNode(id)
  }

  /** One group: a mutation of kind `k` per id, in the order of `ids`. */
  function Group<ND, ED>(k: Kind, ids: seq<int>, b: GraphState<ND, ED>): (r: seq<Mutation<ND, ED>>)
    requires forall i | 0 <= i < |ids| :: Needs(k, ids[i], b)
    ensures |r| == |ids| && forall i | 0 <= i < |ids| :: r[i] == Build(k, ids[i], b)
    decreases |ids|
  {
    if ids == [] then [] else Group(k, ids[..|ids| - 1], b) + [Build(k, ids[|ids| - 1], b)]
  }

  /** Shared nodes whose data differs. */
  function UpdatingNodes<ND(==), ED>(a: GraphState<ND, ED>, b: GraphState<ND, ED>): set<NodeID> {
    set n | n in a.nodes && n in b.nodes && a.nodes[n].data != b.nodes[n].data
  }

  /** Shared edges whose data differs. */
  function UpdatingEdges<ND, ED(==)>(a: GraphState<ND, ED>, b: GraphState<ND, ED>): set<EdgeID> {
    set e | e in a.edges && e in b.edges && a.edges[e].data != b.edges[e].data
  }

  /** Shared edges whose tail or head differs. */
  function MovingEdges<ND, ED>(a: GraphState<ND, ED>, b: GraphState<ND, ED>): set<EdgeID> {
    set e | e in a.edges && e in b.edges && (a.edges[e].tail != b.edges[e].tail || a.edges[e].head != b.edges[e].head)
  }

  /** The group a mutation belongs to. */
  function KindOf<ND, ED>(m: Mutation<ND, ED>): (k: Kind)
    ensures k.Rank() == m.Rank()
  {
    match m
    case NewNode(_, _) => NodesEntering
    case SetNodeData(_, _) => NodesUpdating
    case NewEdge(_, _, _, _) => EdgesEntering
    case SetEdgeData(_, _) => EdgesUpdating
    case MoveEdge(_, _, _) => EdgesMoving
    case RemoveEdge(_) => EdgesExiting
    case RemoveNode(_) => NodesExiting
  }

  /** The ids group `k` of `b.difference(from: a)` is about. */
  ghost function Ids<ND, ED>(a: GraphState<ND, ED>, b: GraphState<ND, ED>, k: Kind): (s: set<int>)
    ensures forall x | x in s :: Needs(k, x, b)
  {
    match k
    case NodesEntering => b.nodes.Keys - a.nodes.Keys
    case NodesUpdating => UpdatingNodes(a, b)
    case EdgesEntering => b.edges.Keys - a.edges.Keys
    case EdgesUpdating => UpdatingEdges(a, b)
    case EdgesMoving => MovingEdges(a, b)
    case EdgesExiting => a.edges.Keys - b.edges.Keys
    case NodesExiting => a.nodes.Keys - b.nodes.Keys
  }

  /** Group `k` of `b.difference(from: a)`: its ids in increasing order. */
  ghost function Stage<ND, ED>(a: GraphState<ND, ED>, b: GraphState<ND, ED>, k: Kind): (r: seq<Mutation<ND, ED>>)
    ensures forall i | 0 <= i < |SortedElements(Ids(a, b, k))| :: Needs(k, SortedElements(Ids(a, b, k))[i], b)
    ensures r == Group(k, SortedElements(Ids(a, b, k)), b)
  {
    var ids := SortedElements(Ids(a, b, k));
    assert forall i | 0 <= i < |ids| :: ids[i] in Elements(ids);
    Group(k, ids, b)
  }

  /** The mutations before the removed nodes: new and updated nodes, then every edge change. */
  ghost function Additions<ND, ED>(a: GraphState<ND, ED>, b: GraphState<ND, ED>): seq<Mutation<ND, ED>> {
    Stage(a, b, NodesEntering) + Stage(a, b, NodesUpdating) + Stage(a, b, EdgesEntering)
    + Stage(a, b, EdgesUpdating) + Stage(a, b, EdgesMoving) + Stage(a, b, EdgesExiting)
  }

  /** `b.difference(from: a)`: the seven groups, each sorted by id. */
  ghost function DifferenceOf<ND, ED>(a: GraphState<ND, ED>, b: GraphState<ND, ED>): seq<Mutation<ND, ED>> {
    Additions(a, b) + Stage(a, b, NodesExiting)
  }

  /** Appends one group's mutations, one id at a time, as each `for` loop of `difference` does. */
  method AppendGroup<ND, ED>(ms: seq<Mutation<ND, ED>>, k: Kind, ids: seq<int>, b: GraphState<ND, ED>) returns (r: seq<Mutation<ND, ED>>)
    requires forall i | 0 <= i < |ids| :: Needs(k, ids[i], b)
    ensures r == ms + Group(k, ids, b)
  {
    r := ms;
    for i := 0 to |ids|
      invariant r == ms + Group(k, ids[..i], b)
    {
      assert ids[..i + 1][..i] == ids[..i];
      r := r + [Build(k, ids[i], b)];
    }
    assert ids[..|ids|] == ids;
  }

  /** Appends group `k` of `b.difference(from: a)`, given its ids in increasing order. */
  method AppendStage<ND, ED>(ms: seq<Mutation<ND, ED>>, ghost a: GraphState<ND, ED>, b: GraphState<ND, ED>, k: Kind, ids: seq<int>)
    returns (r: seq<Mutation<ND, ED>>)
    requires ids == SortedElements(Ids(a, b, k))
    ensures r == ms + Stage(a, b, k)
  {
    r := AppendGroup(ms, k, ids, b);
  }

  /** The ids of group `k`, computed from the two graphs. */
  function IdsOf<ND(==), ED(==)>(a: GraphState<ND, ED>, b: GraphState<ND, ED>, k: Kind): (s: set<int>)
    ensures s == Ids(a, b, k)
  {
    match k
    case NodesEntering => b.nodes.Keys - a.nodes.Keys
    case NodesUpdating => UpdatingNodes(a, b)
    case EdgesEntering => b.edges.Keys - a.edges.Keys
    case EdgesUpdating => UpdatingEdges(a, b)
    case EdgesMoving => MovingEdges(a, b)
    case EdgesExiting => a.edges.Keys - b.edges.Keys
    case NodesExiting => a.nodes.Keys - b.nodes.Keys
  }

  /** `difference(from:)`: the mutations that turn `a` into `b`, one group after another. */
  method Difference<ND(==), ED(==)>(a: GraphState<ND, ED>, b: GraphState<ND, ED>) returns (ms: seq<Mutation<ND, ED>>)
    ensures ms == DifferenceOf(a, b)
  {
    ms := [];
    for r := 0 to 7
      invariant ms == Upto(a, b, r)
    {
      var ids := SortedList(IdsOf(a, b, KindAt(r)));
      ms := AppendStage(ms, a, b, KindAt(r), ids);
    }
    UptoAll(a, b);
  }

  // ------------------------------------------------------------------
  // What a difference lists
  // ------------------------------------------------------------------

  /** A mutation is in a group exactly when it is the group's mutation for its own id. */
  lemma InGroup<ND, ED>(k: Kind, ids: seq<int>, b: GraphState<ND, ED>, m: Mutation<ND, ED>)
    requires forall i | 0 <= i < |ids| :: Needs(k, ids[i], b)
    ensures m in Group(k, ids, b) <==> m.Key() in ids && m == Build(k, m.Key(), b)
  {
    var g := Group(k, ids, b);
    if m in g {
      var i :| 0 <= i < |g| && g[i] == m;
      assert m.Key() == ids[i];
    }
    if m.Key() in ids && m == Build(k, m.Key(), b) {
      var i :| 0 <= i < |ids| && ids[i] == m.Key();
      assert g[i] == m;
    }
  }

  /** Every mutation of group `k` is of that group's kind. */
  lemma StageKind<ND, ED>(a: GraphState<ND, ED>, b: GraphState<ND, ED>, k: Kind, m: Mutation<ND, ED>)
    ensures m in Stage(a, b, k) ==> m.Rank() == k.Rank()
  {
    var g := Stage(a, b, k);
    if m in g {
      var i :| 0 <= i < |g| && g[i] == m;
    }
  }

  /** A mutation is in the first `r` groups exactly when its own group is one of them and lists it. */
  lemma {:induction false} InUpto<ND, ED>(a: GraphState<ND, ED>, b: GraphState<ND, ED>, r: nat, m: Mutation<ND, ED>)
    requires r <= 7
    ensures m in Upto(a, b, r) <==> m.Rank() < r && m in Stage(a, b, KindOf(m))
  {
    if r > 0 {
      InUpto(a, b, r - 1, m);
      StageKind(a, b, KindAt(r - 1), m);
      if m.Rank() == r - 1 {
        assert KindOf(m) == KindAt(r - 1);
      }
    }
  }

  lemma InDifference<ND, ED>(a: GraphState<ND, ED>, b: GraphState<ND, ED>, m: Mutation<ND, ED>)
    ensures m in DifferenceOf(a, b) <==> m in Stage(a, b, KindOf(m))
  {
    UptoAll(a, b);
    InUpto(a, b, 7, m);
  }

  /** Membership of one group, by the group's ids. */
  lemma InStage<ND, ED>(a: GraphState<ND, ED>, b: GraphState<ND, ED>, m: Mutation<ND, ED>)
    ensures m in DifferenceOf(a, b) <==> m.Key() in Ids(a, b, KindOf(m)) && m == Build(KindOf(m), m.Key(), b)
  {
    InDifference(a, b, m);
    InGroup(KindOf(m), SortedElements(Ids(a, b, KindOf(m))), b, m);
  }

  /** A new node for each node only `b` has, with `b`'s data. */
  lemma ListsNewNode<ND, ED>(a: GraphState<ND, ED>, b: GraphState<ND, ED>, n: NodeID, d: ND)
    ensures NewNode(n, d) in DifferenceOf(a, b) <==> n in b.nodes && n !in a.nodes && d == b.nodes[n].data
  {
    var m: Mutation<ND, ED> := NewNode(n, d);
    assert KindOf(m) == NodesEntering && m.Key() == n;
    assert n in b.nodes ==> Build(NodesEntering, n, b) == NewNode(n, b.nodes[n].data);
    assert Ids(a, b, NodesEntering) == b.nodes.Keys - a.nodes.Keys;
    InStage(a, b, m);
  }

  /** A data update for each shared node whose data differs, to `b`'s data. */
  lemma ListsSetNodeData<ND, ED>(a: GraphState<ND, ED>, b: GraphState<ND, ED>, n: NodeID, d: ND)
    ensures SetNodeData(n, d) in DifferenceOf(a, b) <==> n in a.nodes && n in b.nodes && a.nodes[n].data != b.nodes[n].data && d == b.nodes[n].data
  {
    var m: Mutation<ND, ED> := SetNodeData(n, d);
    assert KindOf(m) == NodesUpdating && m.Key() == n;
    assert n in b.nodes ==> Build(NodesUpdating, n, b) == SetNodeData(n, b.nodes[n].data);
    assert Ids(a, b, NodesUpdating) == UpdatingNodes(a, b);
    InStage(a, b, m);
  }

  /** A removal for each node only `a` has. */
  lemma ListsRemoveNode<ND, ED>(a: GraphState<ND, ED>, b: GraphState<ND, ED>, n: NodeID)
    ensures RemoveNode(n) in DifferenceOf(a, b) <==> n in a.nodes && n !in b.nodes
  {
    var m: Mutation<ND, ED> := RemoveNode(n);
    assert KindOf(m) == NodesExiting && m.Key() == n;
    assert Build(NodesExiting, n, b) == m;
    assert Ids(a, b, NodesExiting) == a.nodes.Keys - b.nodes.Keys;
    InStage(a, b, m);
  }

  /** A new edge for each edge only `b` has, with `b`'s ends and data. */
  lemma ListsNewEdge<ND, ED>(a: GraphState<ND, ED>, b: GraphState<ND, ED>, e: EdgeID, t: NodeID, h: NodeID, d: ED)
    ensures NewEdge(e, t, h, d) in DifferenceOf(a, b) <==> e in b.edges && e !in a.edges && b.edges[e] == Edge(t, h, d)
  {
    var m: Mutation<ND, ED> := NewEdge(e, t, h, d);
    assert KindOf(m) == EdgesEntering && m.Key() == e;
    assert e in b.edges ==> Build(EdgesEntering, e, b) == NewEdge(e, b.edges[e].tail, b.edges[e].head, b.edges[e].data);
    assert Ids(a, b, EdgesEntering) == b.edges.Keys - a.edges.Keys;
    InStage(a, b, m);
  }

  /** A data update exactly for each shared edge whose data differs, to `b`'s data. */
  lemma ListsSetEdgeData<ND, ED>(a: GraphState<ND, ED>, b: GraphState<ND, ED>, e: EdgeID, d: ED)
    ensures SetEdgeData(e, d) in DifferenceOf(a, b) <==> e in a.edges && e in b.edges && a.edges[e].data != b.edges[e].data && d == b.edges[e].data
  {
    var m: Mutation<ND, ED> := SetEdgeData(e, d);
    assert KindOf(m) == EdgesUpdating && m.Key() == e;
    assert e in b.edges ==> Build(EdgesUpdating, e, b) == SetEdgeData(e, b.edges[e].data);
    assert Ids(a, b, EdgesUpdating) == UpdatingEdges(a, b);
    InStage(a, b, m);
  }

  /** A move exactly for each shared edge whose tail or head differs, to `b`'s ends. */
  lemma ListsMoveEdge<ND, ED>(a: GraphState<ND, ED>, b: GraphState<ND, ED>, e: EdgeID, t: NodeID, h: NodeID)
    ensures MoveEdge(e, t, h) in DifferenceOf(a, b) <==>
      (e in a.edges && e in b.edges && (a.edges[e].tail, a.edges[e].head) != (b.edges[e].tail, b.edges[e].head)
       && t == b.edges[e].tail && h == b.edges[e].head)
  {
    var m: Mutation<ND, ED> := MoveEdge(e, t, h);
    assert KindOf(m) == EdgesMoving && m.Key() == e;
    assert e in b.edges ==> Build(EdgesMoving, e, b) == MoveEdge(e, b.edges[e].tail, b.edges[e].head);
    assert Ids(a, b, EdgesMoving) == MovingEdges(a, b);
    InStage(a, b, m);
  }

  /** A removal for each edge only `a` has. */
  lemma ListsRemoveEdge<ND, ED>(a: GraphState<ND, ED>, b: GraphState<ND, ED>, e: EdgeID)
    ensures RemoveEdge(e) in DifferenceOf(a, b) <==> e in a.edges && e !in b.edges
  {
    var m: Mutation<ND, ED> := RemoveEdge(e);
    assert KindOf(m) == EdgesExiting && m.Key() == e;
    assert Build(EdgesExiting, e, b) == m;
    assert Ids(a, b, EdgesExiting) == a.edges.Keys - b.edges.Keys;
    InStage(a, b, m);
  }

  /** `x` comes before `y`: an earlier group, or the same group and a smaller id. */
  predicate Before<ND, ED>(x: Mutation<ND, ED>, y: Mutation<ND, ED>) {
    x.Rank() < y.Rank() || (x.Rank() == y.Rank() && x.Key() < y.Key())
  }

  ghost predicate Grouped<ND, ED>(ms: seq<Mutation<ND, ED>>) {
    forall i, j | 0 <= i < j < |ms| :: Before(ms[i], ms[j])
  }

  /** A group is in order, every member of its kind. */
  lemma StageGrouped<ND, ED>(a: GraphState<ND, ED>, b: GraphState<ND, ED>, k: Kind)
    ensures Grouped(Stage(a, b, k))
    ensures forall m | m in Stage(a, b, k) :: m.Rank() == k.Rank()
  {
    var ids := SortedElements(Ids(a, b, k));
    var g := Stage(a, b, k);
    forall m | m in g ensures m.Rank() == k.Rank() {
      StageKind(a, b, k, m);
    }
  }

  /** Two runs in order, the first's groups all earlier, make a run in order. */
  lemma GroupedAppend<ND, ED>(xs: seq<Mutation<ND, ED>>, ys: seq<Mutation<ND, ED>>, r: nat)
    requires Grouped(xs) && Grouped(ys)
    requires forall m | m in xs :: m.Rank() < r
    requires forall m | m in ys :: m.Rank() == r
    ensures Grouped(xs + ys)
    ensures forall m | m in xs + ys :: m.Rank() <= r
  {
    var s := xs + ys;
    forall i, j | 0 <= i < j < |s| ensures Before(s[i], s[j]) {
      if i < |xs| && j >= |xs| {
        assert s[i] in xs && s[j] in ys;
      } else if i < |xs| {
        assert s[i] == xs[i] && s[j] == xs[j];
      } else {
        assert s[i] == ys[i - |xs|] && s[j] == ys[j - |xs|];
      }
    }
  }

  /** The group listed at position `r`. */
  function KindAt(r: nat): (k: Kind)
    requires r < 7
    ensures k.Rank() == r
  {
    if r == 0 then NodesEntering
    else if r == 1 then NodesUpdating
    else if r == 2 then EdgesEntering
    else if r == 3 then EdgesUpdating
    else if r == 4 then EdgesMoving
    else if r == 5 then EdgesExiting
    else NodesExiting
  }

  /** The first `r` groups of `b.difference(from: a)`. */
  ghost function Upto<ND, ED>(a: GraphState<ND, ED>, b: GraphState<ND, ED>, r: nat): seq<Mutation<ND, ED>>
    requires r <= 7
  {
    if r == 0 then [] else Upto(a, b, r - 1) + Stage(a, b, KindAt(r - 1))
  }

  lemma UptoAll<ND, ED>(a: GraphState<ND, ED>, b: GraphState<ND, ED>)
    ensures Additions(a, b) == Upto(a, b, 6)
    ensures DifferenceOf(a, b) == Upto(a, b, 7)
  {
    assert KindAt(0) == NodesEntering && KindAt(1) == NodesUpdating && KindAt(2) == EdgesEntering && KindAt(3) == EdgesUpdating;
    assert KindAt(4) == EdgesMoving && KindAt(5) == EdgesExiting && KindAt(6) == NodesExiting;
    assert Upto(a, b, 1) == Stage(a, b, NodesEntering);
    assert Upto(a, b, 2) == Upto(a, b, 1) + Stage(a, b, NodesUpdating);
    assert Upto(a, b, 3) == Upto(a, b, 2) + Stage(a, b, EdgesEntering);
    assert Upto(a, b, 4) == Upto(a, b, 3) + Stage(a, b, EdgesUpdating);
    assert Upto(a, b, 5) == Upto(a, b, 4) + Stage(a, b, EdgesMoving);
    assert Upto(a, b, 6) == Upto(a, b, 5) + Stage(a, b, EdgesExiting);
    assert Upto(a, b, 7) == Upto(a, b, 6) + Stage(a, b, NodesExiting);
  }

  /** The first `r` groups are in order, and every mutation in them is of an earlier group than `r`. */
  lemma {:induction false} UptoGrouped<ND, ED>(a: GraphState<ND, ED>, b: GraphState<ND, ED>, r: nat)
    requires r <= 7
    ensures Grouped(Upto(a, b, r))
    ensures forall m | m in Upto(a, b, r) :: m.Rank() < r
  {
    if r > 0 {
      UptoGrouped(a, b, r - 1);
      StageGrouped(a, b, KindAt(r - 1));
      GroupedAppend(Upto(a, b, r - 1), Stage(a, b, KindAt(r - 1)), r - 1);
    }
  }

  /**
   * A difference lists its groups in the fixed order new nodes, node data,
   * new edges, edge data, moves, removed edges, removed nodes, and within a
   * group by strictly increasing id.
   */
  lemma DifferenceGrouped<ND, ED>(a: GraphState<ND, ED>, b: GraphState<ND, ED>)
    ensures forall i, j | 0 <= i < j < |DifferenceOf(a, b)| :: Before(DifferenceOf(a, b)[i], DifferenceOf(a, b)[j])
  {
    UptoAll(a, b);
    UptoGrouped(a, b, 7);
  }
}
