/**
 * `applyEditingOperations`: replaying an edit script on a tree. Each step
 * names a node by its position in the original tree's node list; removals
 * ungroup the node, insertions put a fresh node above it, updates give it
 * new data, and steps that keep a node do nothing. The replay works on a
 * copy and stops at the first step that fails. The identifiers and edge
 * data handed to insertions come from suppliers, modelled as functions of
 * the number of insertions made so far.
 */
module TreeApply {
  import opened GraphErrors
  import opened ElementIDs
  import opened SetOrder
  import opened GraphModel
  import opened Paths
  import opened TreeEdits
  import opened TreeUngroup
  import opened Trees
  import opened ScriptReplay
  import Edits = EditDistance
  import Editing = TreeEditing

  /** A store with the root it hangs from. */
  datatype Rooted<ND, ED> = Rooted(g: GraphState<ND, ED>, root: NodeID)

  ghost predicate IsTree<ND, ED>(x: Rooted<ND, ED>) {
    x.g.Valid() && TreeShaped(x.g, x.root)
  }

  /** The node identifiers, edge identifiers and edge data handed to the
    * insertions, by the number of insertions made before. */
  datatype Suppliers<ED> = Suppliers(nextNodeID: nat -> NodeID, nextEdgeID: nat -> EdgeID, makeEdgeData: nat -> ED)

  /** The node at a position of the node list, or the error for a position
    * outside it. */
  function NodeAt(ids: seq<NodeID>, index: nat): (r: Result<NodeID>)
    ensures r.Ok? <==> index < |ids|
    ensures r.Ok? ==> r.value == ids[index]
    ensures r.Err? ==> r.error == InvalidEditingOperation
  {
    if index < |ids| then Ok(ids[index]) else Err(InvalidEditingOperation)
  }

  /** An insertion that succeeds leaves a tree under its new root with one
    * node more, the fresh one. */
  lemma InsertedTree<ND, ED>(g: GraphState<ND, ED>, root: NodeID, x: NodeID, y: NodeID, e: EdgeID, nd: ND, ed: ED)
    requires g.Valid() && TreeShaped(g, root)
    ensures var r := Inserted(g, root, x, y, e, nd, ed);
      r.Ok? ==> r.value.0.Valid() && TreeShaped(r.value.0, r.value.1) && x !in g.nodes && r.value.0.nodes.Keys == g.nodes.Keys + {x}
  {
    if Inserted(g, root, x, y, e, nd, ed).Ok? {
      if y == root {
        InsertedAtRoot(g, root, x, e, nd, ed);
      } else {
        InsertedBelow(g, root, x, y, e, nd, ed);
      }
    }
  }

  /** Giving a node new data leaves the tree's shape alone. */
  lemma UpdatedTree<ND, ED>(g: GraphState<ND, ED>, root: NodeID, n: NodeID, d: ND)
    requires g.Valid() && TreeShaped(g, root)
    ensures g.SetNodeData(n, d).Ok? ==> TreeShaped(g.SetNodeData(n, d).value, root)
  {
    SameShape(g, g.SetNodeData(n, d), root);
  }

  /** `removeNodeUngrouping` of the node at position `i`. */
  ghost function RemoveStep<ND, ED>(ids: seq<NodeID>, x: Rooted<ND, ED>, i: nat): (r: Result<Rooted<ND, ED>>)
    requires IsTree(x)
    ensures r.Ok? ==> IsTree(r.value) && i < |ids| && ids[i] in x.g.nodes && r.value.g.nodes.Keys == x.g.nodes.Keys - {ids[i]}
  {
    match NodeAt(ids, i)
    case Err(e) => Err(e)
    case Ok(n) =>
      match Ungrouped(x.g, x.root, n)
      case Err(e) => Err(e)
      case Ok(v) => Ok(Rooted(v.0, v.1))
  }

  /** `insertNode` of a fresh node above the node at position `i`, with the
    * `ins`-th supplied identifiers and edge data. */
  ghost function InsertStep<ND, ED>(ids: seq<NodeID>, sup: Suppliers<ED>, x: Rooted<ND, ED>, i: nat, d: ND, ins: nat): (r: Result<Rooted<ND, ED>>)
    requires IsTree(x)
    ensures r.Ok? ==> IsTree(r.value) && sup.nextNodeID(ins) !in x.g.nodes && r.value.g.nodes.Keys == x.g.nodes.Keys + {sup.nextNodeID(ins)}
  {
    match NodeAt(ids, i)
    case Err(e) => Err(e)
    case Ok(n) =>
      InsertedTree(x.g, x.root, sup.nextNodeID(ins), n, sup.nextEdgeID(ins), d, sup.makeEdgeData(ins));
      match Inserted(x.g, x.root, sup.nextNodeID(ins), n, sup.nextEdgeID(ins), d, sup.makeEdgeData(ins))
      case Err(e) => Err(e)
      case Ok(v) => Ok(Rooted(v.0, v.1))
  }

  /** `withNodeData` overwriting the data of the node at position `i`. */
  ghost function UpdateStep<ND, ED>(ids: seq<NodeID>, x: Rooted<ND, ED>, i: nat, d: ND): (r: Result<Rooted<ND, ED>>)
    requires IsTree(x)
    ensures r.Ok? ==> IsTree(r.value) && r.value.root == x.root && r.value.g.nodes.Keys == x.g.nodes.Keys
  {
    match NodeAt(ids, i)
    case Err(e) => Err(e)
    case Ok(n) =>
      UpdatedTree(x.g, x.root, n, d);
      match x.g.SetNodeData(n, d)
      case Err(e) => Err(e)
      case Ok(g2) => Ok(Rooted(g2, x.root))
  }

  /** One step of the script on the tree `x`, with `ins` insertions made
    * before it. A step that keeps a node does nothing; a state that is not
    * a tree admits no other step. */
  ghost function Step<ND, ED>(ids: seq<NodeID>, sup: Suppliers<ED>, x: Rooted<ND, ED>, op: Op<ND>, ins: nat): (r: Result<Rooted<ND, ED>>)
    ensures op.Match? ==> r == Ok(x)
    ensures r.Ok? && !op.Match? ==> IsTree(r.value)
  {
    match op
    case Match(_, _) => Ok(x)
    case Remove(i, _) => if IsTree(x) then RemoveStep(ids, x, i) else Err(NotATree)
    case Insert(i, d) => if IsTree(x) then InsertStep(ids, sup, x, i, d, ins) else Err(NotATree)
    case Update(i, d) => if IsTree(x) then UpdateStep(ids, x, i, d) else Err(NotATree)
  }

  ghost function Steps<ND, ED>(ids: seq<NodeID>, sup: Suppliers<ED>): (Rooted<ND, ED>, Op<ND>, nat) -> Result<Rooted<ND, ED>> {
    (x: Rooted<ND, ED>, op: Op<ND>, ins: nat) => Step(ids, sup, x, op, ins)
  }

  /** What replaying `ops` on the tree `x` leads to. */
  ghost function Applied<ND, ED>(ids: seq<NodeID>, sup: Suppliers<ED>, x: Rooted<ND, ED>, ops: seq<Op<ND>>): Result<Rooted<ND, ED>> {
    Replay(Steps(ids, sup), x, ops, 0)
  }

  /** A replay from a tree that succeeds ends in a tree. */
  lemma {:induction false} ReplayTree<ND, ED>(ids: seq<NodeID>, sup: Suppliers<ED>, x: Rooted<ND, ED>, ops: seq<Op<ND>>, ins: nat)
    requires IsTree(x)
    ensures Replay(Steps(ids, sup), x, ops, ins).Ok? ==> IsTree(Replay(Steps(ids, sup), x, ops, ins).value)
    decreases |ops|
  {
    if ops != [] {
      match Step(ids, sup, x, ops[0], ins)
      case Err(e) =>
      case Ok(y) =>
        ReplayTree(ids, sup, y, ops[1..], Counted(ins, ops[0]));
    }
  }

  /** The steps that keep a node can be left out of the script: the tree,
    * the root and the error are the same. */
  lemma AppliedWithoutMatches<ND, ED>(ids: seq<NodeID>, sup: Suppliers<ED>, x: Rooted<ND, ED>, ops: seq<Op<ND>>)
    ensures Applied(ids, sup, x, Editing.WithoutMatches(ops)) == Applied(ids, sup, x, ops)
  {
    ReplayWithoutMatches(Steps(ids, sup), x, ops, 0);
  }

  /** Adding a member a set lacks grows it by one. */
  lemma OneMore<T>(small: set<T>, big: set<T>, a: T)
    requires a !in small && big == small + {a}
    ensures |big| == |small| + 1
  {
  }

  /** A step that succeeds adds one node if it inserts and takes one away if
    * it removes. */
  lemma StepCount<ND, ED>(ids: seq<NodeID>, sup: Suppliers<ED>, z: Rooted<ND, ED>, op: Op<ND>, n: nat)
    requires Step(ids, sup, z, op, n).Ok?
    ensures |Step(ids, sup, z, op, n).value.g.nodes.Keys| ==
      |z.g.nodes.Keys| + (if op.Insert? then 1 else 0) - (if op.Remove? then 1 else 0)
  {
    var y := Step(ids, sup, z, op, n).value;
    match op
    case Match(_, _) =>
    case Remove(i, _) =>
      OneMore(y.g.nodes.Keys, z.g.nodes.Keys, ids[i]);
    case Insert(i, d) =>
      OneMore(z.g.nodes.Keys, y.g.nodes.Keys, sup.nextNodeID(n));
    case Update(i, d) =>
  }

  /** A replay that succeeds adds one node per insertion and takes one away
    * per removal. */
  lemma AppliedCount<ND, ED>(ids: seq<NodeID>, sup: Suppliers<ED>, x: Rooted<ND, ED>, ops: seq<Op<ND>>)
    ensures Applied(ids, sup, x, ops).Ok? ==>
      |Applied(ids, sup, x, ops).value.g.nodes.Keys| == |x.g.nodes.Keys| + InsertSteps(ops) - RemoveSteps(ops)
  {
    var size := (y: Rooted<ND, ED>) => |y.g.nodes.Keys|;
    forall z: Rooted<ND, ED>, op: Op<ND>, n: nat | Steps(ids, sup)(z, op, n).Ok?
      ensures size(Steps(ids, sup)(z, op, n).value) == size(z) + (if op.Insert? then 1 else 0) - (if op.Remove? then 1 else 0)
    {
      StepCount(ids, sup, z, op, n);
    }
    ReplayCount(Steps(ids, sup), size, x, ops, 0);
  }

  /** Scripts run one after the other: the second continues from the tree
    * the first left, its insertions numbered after the first's. */
  lemma AppliedAppend<ND, ED>(ids: seq<NodeID>, sup: Suppliers<ED>, x: Rooted<ND, ED>, s: seq<Op<ND>>, t: seq<Op<ND>>)
    ensures Applied(ids, sup, x, s).Err? ==> Applied(ids, sup, x, s + t) == Applied(ids, sup, x, s)
    ensures Applied(ids, sup, x, s).Ok? ==>
      Applied(ids, sup, x, s + t) == Replay(Steps(ids, sup), Applied(ids, sup, x, s).value, t, InsertSteps(s))
  {
    ReplayFrom(Steps(ids, sup), x, s, t);
  }

  /** One step on the tree `result`, in place. */
  method ApplyStep<ND, ED>(result: Tree<ND, ED>, ids: seq<NodeID>, sup: Suppliers<ED>, op: Op<ND>, ins: nat) returns (r: Outcome)
    requires result.Valid()
    modifies result, result.graph
    ensures result.Valid()
    ensures match Step(ids, sup, old(Rooted(result.View(), result.root)), op, ins)
      case Ok(after) => r == Pass && Rooted(result.View(), result.root) == after
      case Err(e) => r == Fail(e)
  {
    match op
    case Remove(i, _) =>
      if i >= |ids| {
        return Fail(InvalidEditingOperation);
      }
      r := result.RemoveNodeUngrouping(ids[i]);
    case Insert(i, d) =>
      if i >= |ids| {
        return Fail(InvalidEditingOperation);
      }
      r := result.InsertNode(sup.nextNodeID(ins), ids[i], sup.nextEdgeID(ins), d, sup.makeEdgeData(ins));
    case Update(i, d) =>
      if i >= |ids| {
        return Fail(InvalidEditingOperation);
      }
      r := result.SetNodeData(ids[i], d);
    case Match(_, _) =>
      r := Pass;
  }

  /** The steps `ops`, in place on `result`, until one fails. */
  method ReplayOn<ND, ED>(result: Tree<ND, ED>, ids: seq<NodeID>, sup: Suppliers<ED>, ops: seq<Op<ND>>) returns (r: Outcome)
    requires result.Valid()
    modifies result, result.graph
    ensures result.Valid()
    ensures var want := Replay(Steps(ids, sup), old(Rooted(result.View(), result.root)), ops, 0);
      && (r == Pass <==> want.Ok?)
      && (want.Ok? ==> Rooted(result.View(), result.root) == want.value)
      && (want.Err? ==> r == Fail(want.error))
  {
    ghost var want := Replay(Steps(ids, sup), Rooted(result.View(), result.root), ops, 0);
    var ins := 0;
    var k := 0;
    while k < |ops|
      invariant 0 <= k <= |ops|
      invariant result.Valid()
      invariant Replay(Steps(ids, sup), Rooted(result.View(), result.root), ops[k..], ins) == want
    {
      assert ops[k..][0] == ops[k] && ops[k..][1..] == ops[k + 1..];
      r := ApplyStep(result, ids, sup, ops[k], ins);
      if r.Fail? {
        return;
      }
      ins := Counted(ins, ops[k]);
      k := k + 1;
    }
    assert ops[k..] == [];
    r := Pass;
  }

  /**
   * `applyEditingOperations`: replays `ops` on a copy of `t`, naming nodes
   * by their positions in `t`'s node list; `t` itself is left alone. The
   * result is the copy holding the tree and root the replay describes, or
   * the first failing step's error.
   */
  method ApplyEditingOperations<ND, ED>(t: Tree<ND, ED>, ops: seq<Op<ND>>, sup: Suppliers<ED>) returns (res: Result<Tree<ND, ED>>)
    requires t.Valid()
    ensures var want := Applied(t.View().Nodes(), sup, Rooted(t.View(), t.root), ops);
      && (res.Ok? <==> want.Ok?)
      && (res.Ok? ==> res.value.Valid() && Rooted(res.value.View(), res.value.root) == want.value)
      && (res.Err? ==> res.error == want.error)
  {
    var ids := SortedList(t.graph.nodes.Keys);
    var result := t.CopySettingInner(t.View());
    var r := ReplayOn(result, ids, sup, ops);
    res := if r.Fail? then Err(r.error) else Ok(result);
  }
}
