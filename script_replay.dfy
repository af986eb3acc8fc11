/**
 * Replaying an edit script one step at a time, whatever the steps do: each
 * step sees the state the previous one left and how many insertions came
 * before it, and the first step that fails ends the replay with its error.
 */
module ScriptReplay {
  import opened GraphErrors
  import Edits = EditDistance
  import Editing = TreeEditing

  type Op<L> = Edits.Op<L>

  /** How many of the steps insert a node. */
  function InsertSteps<L>(ops: seq<Op<L>>): (r: nat)
    ensures r <= |ops|
    ensures r == |ops| <== forall k | 0 <= k < |ops| :: ops[k].Insert?
  {
    if ops == [] then 0 else (if ops[0].Insert? then 1 else 0) + InsertSteps(ops[1..])
  }

  /** How many of the steps remove a node. */
  function RemoveSteps<L>(ops: seq<Op<L>>): (r: nat)
    ensures r <= |ops|
    ensures r == |ops| <== forall k | 0 <= k < |ops| :: ops[k].Remove?
  {
    if ops == [] then 0 else (if ops[0].Remove? then 1 else 0) + RemoveSteps(ops[1..])
  }

  /** The number of insertions after one more step. */
  function Counted<L>(ins: nat, op: Op<L>): nat {
    ins + if op.Insert? then 1 else 0
  }

  /** `ops` one after another from `x`, with `ins` insertions made before
    * them, stopping at the first error. */
  ghost function Replay<S, L>(step: (S, Op<L>, nat) -> Result<S>, x: S, ops: seq<Op<L>>, ins: nat): Result<S>
    decreases |ops|
  {
    if ops == [] then Ok(x)
    else
      match step(x, ops[0], ins)
      case Err(e) => Err(e)
      case Ok(y) => Replay(step, y, ops[1..], Counted(ins, ops[0]))
  }

  /** Replaying a script in two parts replays the second part on what the
    * first left, with the insertions of the first counted, unless the first
    * part fails. */
  lemma {:induction false} ReplayAppend<S, L>(step: (S, Op<L>, nat) -> Result<S>, x: S, s: seq<Op<L>>, t: seq<Op<L>>, ins: nat)
    ensures Replay(step, x, s, ins).Err? ==> Replay(step, x, s + t, ins) == Replay(step, x, s, ins)
    ensures Replay(step, x, s, ins).Ok? ==>
      Replay(step, x, s + t, ins) == Replay(step, Replay(step, x, s, ins).value, t, ins + InsertSteps(s))
    decreases |s|
  {
    if s == [] {
      assert s + t == t;
    } else {
      assert (s + t)[0] == s[0] && (s + t)[1..] == s[1..] + t;
      match step(x, s[0], ins)
      case Err(e) =>
      case Ok(y) =>
        ReplayAppend(step, y, s[1..], t, Counted(ins, s[0]));
    }
  }

  /** `ReplayAppend` from the start of a script, before any insertion. */
  lemma ReplayFrom<S, L>(step: (S, Op<L>, nat) -> Result<S>, x: S, s: seq<Op<L>>, t: seq<Op<L>>)
    ensures Replay(step, x, s, 0).Err? ==> Replay(step, x, s + t, 0) == Replay(step, x, s, 0)
    ensures Replay(step, x, s, 0).Ok? ==>
      Replay(step, x, s + t, 0) == Replay(step, Replay(step, x, s, 0).value, t, InsertSteps(s))
  {
    ReplayAppend(step, x, s, t, 0);
  }

  /** When keeping a node leaves the state alone, replaying the script
    * without those steps gives the same state or error. */
  lemma {:induction false} ReplayWithoutMatches<S, L>(step: (S, Op<L>, nat) -> Result<S>, x: S, ops: seq<Op<L>>, ins: nat)
    requires forall y: S, i: nat, d: L, n: nat :: step(y, Edits.Match(i, d), n) == Ok(y)
    ensures Replay(step, x, Editing.WithoutMatches(ops), ins) == Replay(step, x, ops, ins)
    decreases |ops|
  {
    if ops != [] {
      var rest := Editing.WithoutMatches(ops[1..]);
      if ops[0].Match? {
        assert step(x, ops[0], ins) == Ok(x);
        assert Editing.WithoutMatches(ops) == rest;
        ReplayWithoutMatches(step, x, ops[1..], ins);
      } else {
        assert Editing.WithoutMatches(ops) == [ops[0]] + rest;
        assert ([ops[0]] + rest)[0] == ops[0] && ([ops[0]] + rest)[1..] == rest;
        match step(x, ops[0], ins)
        case Err(e) =>
        case Ok(y) =>
          ReplayWithoutMatches(step, y, ops[1..], Counted(ins, ops[0]));
      }
    }
  }

  /** When each step that succeeds adds one to `size` per insertion and
    * takes one away per removal, so does a replay that succeeds. */
  lemma {:induction false} ReplayCount<S, L>(step: (S, Op<L>, nat) -> Result<S>, size: S -> int, x: S, ops: seq<Op<L>>, ins: nat)
    requires forall y: S, op: Op<L>, n: nat | step(y, op, n).Ok? ::
      size(step(y, op, n).value) == size(y) + (if op.Insert? then 1 else 0) - (if op.Remove? then 1 else 0)
    ensures Replay(step, x, ops, ins).Ok? ==>
      size(Replay(step, x, ops, ins).value) == size(x) + InsertSteps(ops) - RemoveSteps(ops)
    decreases |ops|
  {
    if ops != [] {
      match step(x, ops[0], ins)
      case Err(e) =>
      case Ok(y) =>
        ReplayCount(step, size, y, ops[1..], Counted(ins, ops[0]));
    }
  }
}
