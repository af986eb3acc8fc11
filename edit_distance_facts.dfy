/**
 * What the Zhang–Shasha recurrence guarantees: its script names nodes of the
 * source tree and costs what it claims, the distance is never dearer than
 * removing one tree and inserting the other, a tree is at distance zero
 * from itself when keeping data as it is costs nothing, and under symmetric
 * costs the distance is the same both ways.
 */
module DistanceFacts {
  import opened EditShapes
  import opened EditAnnotation
  import opened EditDistance

  // ---------------------------------------------------------------------
  // The script adds up to the cost.

  /** The data of a node is determined by its index: the library looks data
    * up by index. */
  ghost predicate IndexedLabels<L>(A: Annotated<L>) {
    |A.nodes| == |A.labels| &&
    forall k, k' | 0 <= k < |A.nodes| && 0 <= k' < |A.nodes| && A.nodes[k] == A.nodes[k'] :: A.labels[k] == A.labels[k']
  }

  /** The data of the node with index `i`. */
  ghost function LabelOf<L>(A: Annotated<L>, i: nat): (l: L)
    requires |A.nodes| == |A.labels| && i in A.nodes
    ensures exists k | 0 <= k < |A.nodes| :: A.nodes[k] == i && A.labels[k] == l
  {
    var k :| 0 <= k < |A.nodes| && A.nodes[k] == i;
    A.labels[k]
  }

  /** Every step of the script names a node of `A`. */
  ghost predicate Known<L>(A: Annotated<L>, ops: seq<Op<L>>) {
    forall k | 0 <= k < |ops| :: ops[k].index in A.nodes
  }

  /** What a step costs: a removal or insertion the cost of its data, a
    * change of data the cost from the node's old data to the new, keeping a
    * node nothing. */
  ghost function OpCost<L>(c: Costs<L>, A: Annotated<L>, op: Op<L>): nat
    requires |A.nodes| == |A.labels| && op.index in A.nodes
  {
    match op
    case Remove(_, d) => c.rm(d)
    case Insert(_, d) => c.ins(d)
    case Update(i, d) => c.upd(LabelOf(A, i), d)
    case Match(_, _) => 0
  }

  ghost function ScriptCost<L>(c: Costs<L>, A: Annotated<L>, ops: seq<Op<L>>): nat
    requires |A.nodes| == |A.labels| && Known(A, ops)
    decreases |ops|
  {
    if ops == [] then 0 else ScriptCost(c, A, ops[..|ops| - 1]) + OpCost(c, A, ops[|ops| - 1])
  }

  lemma {:induction false} ScriptCostAppend<L>(c: Costs<L>, A: Annotated<L>, s: seq<Op<L>>, t: seq<Op<L>>)
    requires |A.nodes| == |A.labels| && Known(A, s) && Known(A, t)
    ensures Known(A, s + t) && ScriptCost(c, A, s + t) == ScriptCost(c, A, s) + ScriptCost(c, A, t)
    decreases |t|
  {
    if t == [] {
      assert s + t == s;
    } else {
      var t' := t[..|t| - 1];
      assert (s + t)[..|s + t| - 1] == s + t';
      ScriptCostAppend(c, A, s, t');
    }
  }

  lemma ScriptCostSnoc<L>(c: Costs<L>, A: Annotated<L>, s: seq<Op<L>>, op: Op<L>)
    requires |A.nodes| == |A.labels| && Known(A, s) && op.index in A.nodes
    ensures Known(A, s + [op]) && ScriptCost(c, A, s + [op]) == ScriptCost(c, A, s) + OpCost(c, A, op)
  {
    assert (s + [op])[..|s|] == s;
  }

  /** The script of `e` names nodes of `A` and costs `e.cost`. */
  ghost predicate Adds<L>(c: Costs<L>, A: Annotated<L>, e: Edit<L>) {
    |A.nodes| == |A.labels| && Known(A, e.ops) && ScriptCost(c, A, e.ops) == e.cost
  }

  lemma RemovedAdds<L>(c: Costs<L>, A: Annotated<L>, e: Edit<L>, x: int)
    requires 0 <= x < |A.nodes| && Adds(c, A, e)
    ensures Adds(c, A, Removed(c, A, e, x))
  {
    ScriptCostSnoc(c, A, e.ops, Remove(A.nodes[x], A.labels[x]));
  }

  lemma InsertedAdds<L>(c: Costs<L>, A: Annotated<L>, B: Annotated<L>, e: Edit<L>, x: int, y: int)
    requires 0 <= x < |A.nodes| && 0 <= y < |B.labels| && Adds(c, A, e)
    ensures Adds(c, A, Inserted(c, A, B, e, x, y))
  {
    ScriptCostSnoc(c, A, e.ops, Insert(A.nodes[x], B.labels[y]));
  }

  lemma ChangedAdds<L>(c: Costs<L>, A: Annotated<L>, B: Annotated<L>, e: Edit<L>, x: int, y: int)
    requires 0 <= x < |A.nodes| && 0 <= y < |B.labels| && Adds(c, A, e) && IndexedLabels(A)
    ensures Adds(c, A, Changed(c, A, B, e, x, y))
  {
    var u := c.upd(A.labels[x], B.labels[y]);
    var op := if e.cost + u == e.cost then Match(A.nodes[x], A.labels[x]) else Update(A.nodes[x], B.labels[y]);
    ScriptCostSnoc(c, A, e.ops, op);
    if op.Update? {
      var l := LabelOf(A, A.nodes[x]);
      assert l == A.labels[x];
    }
  }

  /** The script the recurrence builds names nodes of the source tree and
    * costs exactly the distance. */
  lemma {:induction false} ForestScript<L>(c: Costs<L>, A: Annotated<L>, B: Annotated<L>, x1: int, x2: int, y1: int, y2: int)
    requires Shaped(A) && Shaped(B) && Closed(A.lmds, x1, x2) && Closed(B.lmds, y1, y2) && x1 < |A.lmds|
    requires IndexedLabels(A)
    ensures Adds(c, A, Forest(c, A, B, x1, x2, y1, y2))
    decreases x2 - x1 + y2 - y1, 2
  {
    if x1 == x2 && y1 == y2 {
    } else if y1 == y2 {
      RemovalsScript(c, A, B, x1, x2, y1, y2);
    } else if x1 == x2 {
      InsertionsScript(c, A, B, x1, x2, y1, y2);
    } else {
      CheapestScript(c, A, B, x1, x2, y1, y2);
    }
  }

  lemma {:induction false} RemovalsScript<L>(c: Costs<L>, A: Annotated<L>, B: Annotated<L>, x1: int, x2: int, y1: int, y2: int)
    requires Shaped(A) && Shaped(B) && Closed(A.lmds, x1, x2) && Closed(B.lmds, y1, y2) && x1 < x2 && y1 == y2
    requires IndexedLabels(A)
    ensures Adds(c, A, Forest(c, A, B, x1, x2, y1, y2))
    decreases x2 - x1 + y2 - y1, 1
  {
    ForestScript(c, A, B, x1, x2 - 1, y1, y2);
    RemovedAdds(c, A, Forest(c, A, B, x1, x2 - 1, y1, y2), x2 - 1);
  }

  lemma {:induction false} InsertionsScript<L>(c: Costs<L>, A: Annotated<L>, B: Annotated<L>, x1: int, x2: int, y1: int, y2: int)
    requires Shaped(A) && Shaped(B) && Closed(A.lmds, x1, x2) && Closed(B.lmds, y1, y2) && x1 == x2 < |A.lmds| && y1 < y2
    requires IndexedLabels(A)
    ensures Adds(c, A, Forest(c, A, B, x1, x2, y1, y2))
    decreases x2 - x1 + y2 - y1, 1
  {
    ForestScript(c, A, B, x1, x2, y1, y2 - 1);
    InsertedAdds(c, A, B, Forest(c, A, B, x1, x2, y1, y2 - 1), x1, y2 - 1);
  }

  lemma {:induction false} CheapestScript<L>(c: Costs<L>, A: Annotated<L>, B: Annotated<L>, x1: int, x2: int, y1: int, y2: int)
    requires Shaped(A) && Shaped(B) && Closed(A.lmds, x1, x2) && Closed(B.lmds, y1, y2) && x1 < x2 && y1 < y2
    requires IndexedLabels(A)
    ensures Adds(c, A, Forest(c, A, B, x1, x2, y1, y2))
    decreases x2 - x1 + y2 - y1, 1
  {
    ForestScript(c, A, B, x1, x2 - 1, y1, y2);
    ForestScript(c, A, B, x1, x2, y1, y2 - 1);
    TurnedScript(c, A, B, x1, x2, y1, y2);
    ForestScriptStep(c, A, B, x1, x2, y1, y2);
  }

  lemma ForestScriptStep<L>(c: Costs<L>, A: Annotated<L>, B: Annotated<L>, x1: int, x2: int, y1: int, y2: int)
    requires Shaped(A) && Shaped(B) && Closed(A.lmds, x1, x2) && Closed(B.lmds, y1, y2) && x1 < x2 && y1 < y2
    requires Adds(c, A, Forest(c, A, B, x1, x2 - 1, y1, y2))
    requires Adds(c, A, Forest(c, A, B, x1, x2, y1, y2 - 1))
    requires Adds(c, A, Turned(c, A, B, x1, x2, y1, y2))
    ensures Adds(c, A, Forest(c, A, B, x1, x2, y1, y2))
  {
    RemovedAdds(c, A, Forest(c, A, B, x1, x2 - 1, y1, y2), x2 - 1);
    InsertedAdds(c, A, B, Forest(c, A, B, x1, x2, y1, y2 - 1), x2 - 1, y2 - 1);
  }

  lemma {:induction false} TurnedScript<L>(c: Costs<L>, A: Annotated<L>, B: Annotated<L>, x1: int, x2: int, y1: int, y2: int)
    requires Shaped(A) && Shaped(B) && Closed(A.lmds, x1, x2) && Closed(B.lmds, y1, y2) && x1 < x2 && y1 < y2
    requires IndexedLabels(A)
    ensures Adds(c, A, Turned(c, A, B, x1, x2, y1, y2))
    decreases x2 - x1 + y2 - y1, 0
  {
    var x, y := x2 - 1, y2 - 1;
    if A.lmds[x] == x1 && B.lmds[y] == y1 {
      ForestScript(c, A, B, x1, x, y1, y);
      ChangedAdds(c, A, B, Forest(c, A, B, x1, x, y1, y), x, y);
    } else {
      ForestScript(c, A, B, x1, A.lmds[x], y1, B.lmds[y]);
      ForestScript(c, A, B, A.lmds[x], x + 1, B.lmds[y], y + 1);
      SplitScript(c, A, B, x1, x2, y1, y2);
    }
  }

  /** Off the left paths, the scripts of the two parts add up. */
  lemma SplitScript<L>(c: Costs<L>, A: Annotated<L>, B: Annotated<L>, x1: int, x2: int, y1: int, y2: int)
    requires Shaped(A) && Shaped(B) && Closed(A.lmds, x1, x2) && Closed(B.lmds, y1, y2) && x1 < x2 && y1 < y2
    requires !(A.lmds[x2 - 1] == x1 && B.lmds[y2 - 1] == y1)
    requires Adds(c, A, Forest(c, A, B, x1, A.lmds[x2 - 1], y1, B.lmds[y2 - 1]))
    requires Adds(c, A, Forest(c, A, B, A.lmds[x2 - 1], x2, B.lmds[y2 - 1], y2))
    ensures Adds(c, A, Turned(c, A, B, x1, x2, y1, y2))
  {
    var x, y := x2 - 1, y2 - 1;
    var pre := Forest(c, A, B, x1, A.lmds[x], y1, B.lmds[y]);
    var t := Forest(c, A, B, A.lmds[x], x + 1, B.lmds[y], y + 1);
    assert Turned(c, A, B, x1, x2, y1, y2) == Edit(pre.cost + t.cost, pre.ops + t.ops);
    JoinedAdds(c, A, pre, t);
  }

  /** Two scripts that each add up to their cost add up when joined. */
  lemma JoinedAdds<L>(c: Costs<L>, A: Annotated<L>, p: Edit<L>, t: Edit<L>)
    requires Adds(c, A, p) && Adds(c, A, t)
    ensures Adds(c, A, Edit(p.cost + t.cost, p.ops + t.ops))
  {
    ScriptCostAppend(c, A, p.ops, t.ops);
  }

  // ---------------------------------------------------------------------
  // Never dearer than rebuilding.

  /** Removing every node of `x1 ..< x2`. */
  ghost function Removals<L>(c: Costs<L>, A: Annotated<L>, x1: int, x2: int): nat
    requires 0 <= x1 <= x2 <= |A.labels|
    decreases x2 - x1
  {
    if x1 == x2 then 0 else Removals(c, A, x1, x2 - 1) + c.rm(A.labels[x2 - 1])
  }

  /** Inserting every node of `y1 ..< y2`. */
  ghost function Insertions<L>(c: Costs<L>, B: Annotated<L>, y1: int, y2: int): nat
    requires 0 <= y1 <= y2 <= |B.labels|
    decreases y2 - y1
  {
    if y1 == y2 then 0 else Insertions(c, B, y1, y2 - 1) + c.ins(B.labels[y2 - 1])
  }

  /** The distance is at most the cost of removing one forest and inserting
    * the other. */
  lemma {:induction false} ForestBelowRebuild<L>(c: Costs<L>, A: Annotated<L>, B: Annotated<L>, x1: int, x2: int, y1: int, y2: int)
    requires Shaped(A) && Shaped(B) && Closed(A.lmds, x1, x2) && Closed(B.lmds, y1, y2) && x1 < |A.lmds|
    ensures Forest(c, A, B, x1, x2, y1, y2).cost <= Removals(c, A, x1, x2) + Insertions(c, B, y1, y2)
    decreases x2 - x1 + y2 - y1
  {
    if x1 == x2 && y1 == y2 {
    } else if y1 == y2 {
      ForestBelowRebuild(c, A, B, x1, x2 - 1, y1, y2);
    } else if x1 == x2 {
      ForestBelowRebuild(c, A, B, x1, x2, y1, y2 - 1);
    } else {
      ForestBelowRebuild(c, A, B, x1, x2 - 1, y1, y2);
    }
  }

  /** The distance between two trees is at most the cost of removing every
    * node of the one and inserting every node of the other. */
  lemma DistanceBelowRebuild<L>(c: Costs<L>, a: LTree<L>, b: LTree<L>)
    ensures |AnnotationOf(a).labels| == Size(a) && |AnnotationOf(b).labels| == Size(b)
    ensures Distance(c, a, b).cost <= Removals(c, AnnotationOf(a), 0, Size(a)) + Insertions(c, AnnotationOf(b), 0, Size(b))
  {
    AnnotationShape(a);
    AnnotationShape(b);
    NestedSpans(AnnotationOf(a).lmds);
    NestedSpans(AnnotationOf(b).lmds);
    ForestBelowRebuild(c, AnnotationOf(a), AnnotationOf(b), 0, Size(a), 0, Size(b));
  }

  /** Under the default costs every removal and insertion costs one. */
  lemma {:induction false} UnitRebuild<L(!new)>(c: Costs<L>, A: Annotated<L>, B: Annotated<L>, x1: int, x2: int)
    requires Unit(c) && 0 <= x1 <= x2 <= |A.labels| && x2 <= |B.labels|
    ensures Removals(c, A, x1, x2) == x2 - x1 && Insertions(c, B, x1, x2) == x2 - x1
    decreases x2 - x1
  {
    if x1 < x2 {
      UnitRebuild(c, A, B, x1, x2 - 1);
      assert c.rm(A.labels[x2 - 1]) == 1 && c.ins(B.labels[x2 - 1]) == 1;
    }
  }

  /** Under the default costs the distance is at most the two sizes added. */
  lemma DistanceBelowSizes<L(!new)>(c: Costs<L>, a: LTree<L>, b: LTree<L>)
    requires Unit(c)
    ensures Distance(c, a, b).cost <= Size(a) + Size(b)
  {
    DistanceBelowRebuild(c, a, b);
    AnnotationShape(a);
    AnnotationShape(b);
    UnitRebuild(c, AnnotationOf(a), AnnotationOf(a), 0, Size(a));
    UnitRebuild(c, AnnotationOf(b), AnnotationOf(b), 0, Size(b));
  }

  /** The script of the distance between two trees costs the distance, as
    * long as a node's index determines its data. */
  lemma DistanceScript<L>(c: Costs<L>, a: LTree<L>, b: LTree<L>)
    requires IndexedLabels(AnnotationOf(a))
    ensures Adds(c, AnnotationOf(a), Distance(c, a, b))
  {
    AnnotationShape(a);
    AnnotationShape(b);
    NestedSpans(AnnotationOf(a).lmds);
    NestedSpans(AnnotationOf(b).lmds);
    ForestScript(c, AnnotationOf(a), AnnotationOf(b), 0, Size(a), 0, Size(b));
  }

  // ---------------------------------------------------------------------
  // Nothing to do between equal trees.

  /** When keeping data as it is costs nothing, a forest is at distance zero
    * from itself. */
  lemma {:induction false} ForestSelf<L>(c: Costs<L>, A: Annotated<L>, x1: int, x2: int)
    requires Shaped(A) && Closed(A.lmds, x1, x2) && x1 < |A.lmds|
    requires forall l: L :: c.upd(l, l) == 0
    ensures Forest(c, A, A, x1, x2, x1, x2).cost == 0
    decreases x2 - x1
  {
    if x1 < x2 {
      var x := x2 - 1;
      if A.lmds[x] == x1 {
        ForestSelf(c, A, x1, x);
        assert c.upd(A.labels[x], A.labels[x]) == 0;
      } else {
        ForestSelf(c, A, x1, A.lmds[x]);
        ForestSelf(c, A, A.lmds[x], x + 1);
      }
      assert Turned(c, A, A, x1, x2, x1, x2).cost == 0;
    }
  }

  /** When keeping data as it is costs nothing, a tree is at distance zero
    * from itself; in particular under the default costs. */
  lemma DistanceSelf<L>(c: Costs<L>, a: LTree<L>)
    requires forall l: L :: c.upd(l, l) == 0
    ensures Distance(c, a, a).cost == 0
  {
    AnnotationShape(a);
    NestedSpans(AnnotationOf(a).lmds);
    ForestSelf(c, AnnotationOf(a), 0, Size(a));
  }

  // ---------------------------------------------------------------------
  // The same both ways under symmetric costs.

  /** Removing a node costs what inserting it does, and changing data costs
    * the same in both directions: the default costs are such. */
  ghost predicate SymmetricCosts<L(!new)>(c: Costs<L>) {
    (forall u: L :: c.ins(u) == c.rm(u)) &&
    (forall u: L, v: L :: c.upd(u, v) == c.upd(v, u))
  }

  lemma UnitSymmetric<L(!new)>(c: Costs<L>)
    requires Unit(c)
    ensures SymmetricCosts(c)
  {
  }

  /** The forest distance from `A` to `B` equals the one from `B` to `A`. */
  ghost predicate Mirrored<L(!new)>(c: Costs<L>, A: Annotated<L>, B: Annotated<L>, x1: int, x2: int, y1: int, y2: int)
    requires Shaped(A) && Shaped(B) && Closed(A.lmds, x1, x2) && Closed(B.lmds, y1, y2)
    requires x1 < |A.lmds| && y1 < |B.lmds|
  {
    Forest(c, A, B, x1, x2, y1, y2).cost == Forest(c, B, A, y1, y2, x1, x2).cost
  }

  /** Under symmetric costs, the forest distance is the same both ways. */
  lemma {:induction false} ForestMirrored<L(!new)>(c: Costs<L>, A: Annotated<L>, B: Annotated<L>, x1: int, x2: int, y1: int, y2: int)
    requires SymmetricCosts(c)
    requires Shaped(A) && Shaped(B) && Closed(A.lmds, x1, x2) && Closed(B.lmds, y1, y2)
    requires x1 < |A.lmds| && y1 < |B.lmds|
    ensures Mirrored(c, A, B, x1, x2, y1, y2)
    decreases x2 - x1 + y2 - y1, 2
  {
    if x1 == x2 && y1 == y2 {
    } else if y1 == y2 {
      RemovalsMirrored(c, A, B, x1, x2, y1, y2);
    } else if x1 == x2 {
      RemovalsMirrored(c, B, A, y1, y2, x1, x2);
    } else {
      BothMirrored(c, A, B, x1, x2, y1, y2);
    }
  }

  /** Removing the last nodes of `A` costs what inserting them does. */
  lemma {:induction false} RemovalsMirrored<L(!new)>(c: Costs<L>, A: Annotated<L>, B: Annotated<L>, x1: int, x2: int, y1: int, y2: int)
    requires SymmetricCosts(c)
    requires Shaped(A) && Shaped(B) && Closed(A.lmds, x1, x2) && Closed(B.lmds, y1, y2)
    requires x1 < x2 && y1 == y2 < |B.lmds|
    ensures Mirrored(c, A, B, x1, x2, y1, y2) && Mirrored(c, B, A, y1, y2, x1, x2)
    decreases x2 - x1 + y2 - y1, 1
  {
    ForestMirrored(c, A, B, x1, x2 - 1, y1, y2);
    assert c.rm(A.labels[x2 - 1]) == c.ins(A.labels[x2 - 1]);
  }

  /** With both forests non-empty, each of the three options costs the same
    * as its mirror. */
  lemma {:induction false} BothMirrored<L(!new)>(c: Costs<L>, A: Annotated<L>, B: Annotated<L>, x1: int, x2: int, y1: int, y2: int)
    requires SymmetricCosts(c)
    requires Shaped(A) && Shaped(B) && Closed(A.lmds, x1, x2) && Closed(B.lmds, y1, y2) && x1 < x2 && y1 < y2
    ensures Mirrored(c, A, B, x1, x2, y1, y2)
    decreases x2 - x1 + y2 - y1, 1
  {
    ForestMirrored(c, A, B, x1, x2 - 1, y1, y2);
    ForestMirrored(c, A, B, x1, x2, y1, y2 - 1);
    var x, y := x2 - 1, y2 - 1;
    if A.lmds[x] == x1 && B.lmds[y] == y1 {
      ForestMirrored(c, A, B, x1, x, y1, y);
    } else {
      ForestMirrored(c, A, B, x1, A.lmds[x], y1, B.lmds[y]);
      ForestMirrored(c, A, B, A.lmds[x], x + 1, B.lmds[y], y + 1);
    }
    TurnedMirrored(c, A, B, x1, x2, y1, y2);
    CheapestMirrored(c, A, B, x1, x2, y1, y2);
  }

  /** Turning the last nodes into each other costs the same both ways once
    * the smaller forests do. */
  lemma TurnedMirrored<L(!new)>(c: Costs<L>, A: Annotated<L>, B: Annotated<L>, x1: int, x2: int, y1: int, y2: int)
    requires SymmetricCosts(c)
    requires Shaped(A) && Shaped(B) && Closed(A.lmds, x1, x2) && Closed(B.lmds, y1, y2) && x1 < x2 && y1 < y2
    requires var x, y := x2 - 1, y2 - 1;
      if A.lmds[x] == x1 && B.lmds[y] == y1 then Mirrored(c, A, B, x1, x, y1, y)
      else Mirrored(c, A, B, x1, A.lmds[x], y1, B.lmds[y]) && Mirrored(c, A, B, A.lmds[x], x + 1, B.lmds[y], y + 1)
    ensures Turned(c, A, B, x1, x2, y1, y2).cost == Turned(c, B, A, y1, y2, x1, x2).cost
  {
    var x, y := x2 - 1, y2 - 1;
    if A.lmds[x] == x1 && B.lmds[y] == y1 {
      assert c.upd(A.labels[x], B.labels[y]) == c.upd(B.labels[y], A.labels[x]);
    }
  }

  /** The first cheapest of three options costs their least cost, which
    * depends on the three costs only. */
  lemma CheapestMirrored<L(!new)>(c: Costs<L>, A: Annotated<L>, B: Annotated<L>, x1: int, x2: int, y1: int, y2: int)
    requires SymmetricCosts(c)
    requires Shaped(A) && Shaped(B) && Closed(A.lmds, x1, x2) && Closed(B.lmds, y1, y2) && x1 < x2 && y1 < y2
    requires Mirrored(c, A, B, x1, x2 - 1, y1, y2) && Mirrored(c, A, B, x1, x2, y1, y2 - 1)
    requires Turned(c, A, B, x1, x2, y1, y2).cost == Turned(c, B, A, y1, y2, x1, x2).cost
    ensures Mirrored(c, A, B, x1, x2, y1, y2)
  {
    var rm := Removed(c, A, Forest(c, A, B, x1, x2 - 1, y1, y2), x2 - 1);
    var ins := Inserted(c, A, B, Forest(c, A, B, x1, x2, y1, y2 - 1), x2 - 1, y2 - 1);
    var rm' := Removed(c, B, Forest(c, B, A, y1, y2 - 1, x1, x2), y2 - 1);
    var ins' := Inserted(c, B, A, Forest(c, B, A, y1, y2, x1, x2 - 1), y2 - 1, x2 - 1);
    assert c.rm(A.labels[x2 - 1]) == c.ins(A.labels[x2 - 1]);
    assert c.ins(B.labels[y2 - 1]) == c.rm(B.labels[y2 - 1]);
    assert rm.cost == ins'.cost && ins.cost == rm'.cost;
  }

  /** Under symmetric costs, in particular the default ones, the distance
    * from `a` to `b` is the distance from `b` to `a`. */
  lemma DistanceSymmetric<L(!new)>(c: Costs<L>, a: LTree<L>, b: LTree<L>)
    requires SymmetricCosts(c)
    ensures Distance(c, a, b).cost == Distance(c, b, a).cost
  {
    AnnotationShape(a);
    AnnotationShape(b);
    NestedSpans(AnnotationOf(a).lmds);
    NestedSpans(AnnotationOf(b).lmds);
    var A, B := AnnotationOf(a), AnnotationOf(b);
    ForestMirrored(c, A, B, A.lmds[Size(a) - 1], Size(a), B.lmds[Size(b) - 1], Size(b));
  }
}
