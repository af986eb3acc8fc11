/**
 * The editing distance between two trees and its script: annotate both
 * trees, fill the tree table keyroot pair by keyroot pair, read the cell of
 * the two roots, and, if asked, leave the steps that keep a node as it is
 * out of the script.
 */
module TreeEditing {
  import opened EditShapes
  import opened EditAnnotation
  import opened EditDistance
  import opened EditTable
  import opened DistanceFacts
  import opened DistanceRelabel

  /** The script without its `Match` steps, in order. */
  function WithoutMatches<L>(ops: seq<Op<L>>): (r: seq<Op<L>>)
    ensures |r| <= |ops|
    ensures forall k | 0 <= k < |r| :: r[k] in ops && !r[k].Match?
    ensures forall k | 0 <= k < |ops| && !ops[k].Match? :: ops[k] in r
  {
    if ops == [] then []
    else (if ops[0].Match? then [] else [ops[0]]) + WithoutMatches(ops[1..])
  }

  /** Filtering distributes over concatenation. */
  lemma {:induction false} WithoutMatchesAppend<L>(s: seq<Op<L>>, t: seq<Op<L>>)
    ensures WithoutMatches(s + t) == WithoutMatches(s) + WithoutMatches(t)
    decreases |s|
  {
    if s == [] {
      assert s + t == t;
    } else {
      assert (s + t)[1..] == s[1..] + t;
      WithoutMatchesAppend(s[1..], t);
    }
  }

  /** Filtering twice filters once. */
  lemma {:induction false} WithoutMatchesTwice<L>(ops: seq<Op<L>>)
    ensures WithoutMatches(WithoutMatches(ops)) == WithoutMatches(ops)
    decreases |ops|
  {
    if ops != [] {
      var head := if ops[0].Match? then [] else [ops[0]];
      WithoutMatchesAppend(head, WithoutMatches(ops[1..]));
      WithoutMatchesTwice(ops[1..]);
      assert WithoutMatches(head) == head;
    }
  }

  /** Keeping a node costs nothing, so the filtered script costs what the
    * whole one does. */
  lemma {:induction false} WithoutMatchesCost<L>(c: Costs<L>, A: Annotated<L>, ops: seq<Op<L>>)
    requires |A.nodes| == |A.labels| && Known(A, ops)
    ensures Known(A, WithoutMatches(ops)) && ScriptCost(c, A, WithoutMatches(ops)) == ScriptCost(c, A, ops)
    decreases |ops|
  {
    if ops != [] {
      var init, last := ops[..|ops| - 1], ops[|ops| - 1];
      assert ops == init + [last];
      WithoutMatchesAppend(init, [last]);
      WithoutMatchesCost(c, A, init);
      assert WithoutMatches([last]) == if last.Match? then [] else [last];
      if !last.Match? {
        ScriptCostSnoc(c, A, WithoutMatches(init), last);
      } else {
        assert WithoutMatches(init) + [] == WithoutMatches(init);
      }
    }
  }

  /** What the table needs of an annotation. */
  lemma Prepared<L>(t: LTree<L>)
    ensures var A := AnnotationOf(t);
      Shaped(A) && Keyed(A.lmds, A.keyRoots) && |A.nodes| == |A.lmds| == Size(t) >= 1
  {
    AnnotationShape(t);
    NestedSpans(AnnotationOf(t).lmds);
  }

  /** The distance between two trees is the table cell of their roots, the
    * last nodes of their annotations. */
  lemma RootsCell<L>(c: Costs<L>, a: LTree<L>, b: LTree<L>)
    ensures var A, B := AnnotationOf(a), AnnotationOf(b);
      Shaped(A) && Shaped(B) && |A.nodes| == Size(a) && |B.nodes| == Size(b) &&
      Distance(c, a, b) == TreeEdit(c, A, B, |A.nodes| - 1, |B.nodes| - 1)
  {
    Prepared(a);
    Prepared(b);
  }

  /** The distance from tree `a` to tree `b` under costs `c`, and its script,
    * without the steps that keep a node when `filterMatches` holds. */
  method EditingDistance<L>(c: Costs<L>, a: LTree<L>, b: LTree<L>, filterMatches: bool) returns (cost: nat, ops: seq<Op<L>>)
    ensures cost == Distance(c, a, b).cost
    ensures ops == if filterMatches then WithoutMatches(Distance(c, a, b).ops) else Distance(c, a, b).ops
  {
    var A := Annotate(a);
    var B := Annotate(b);
    Prepared(a);
    Prepared(b);
    var T := new Edit<L>[|A.nodes|, |B.nodes|]((_, _) => Edit(0, []));
    AllPairs(c, A, B, T);
    var d := T[|A.nodes| - 1, |B.nodes| - 1];
    RootsCell(c, a, b);
    cost := d.cost;
    ops := if filterMatches then WithoutMatches(d.ops) else d.ops;
  }

  /** The distance under the default costs: one per insertion or removal,
    * one per change of data. It is the same from `b` to `a`, and changing
    * the data of one node of a tree costs one, or nothing when the data stay
    * the same. */
  method UnitEditingDistance<L(==, !new)>(a: LTree<L>, b: LTree<L>, filterMatches: bool) returns (cost: nat, ops: seq<Op<L>>)
    ensures cost == Distance(UnitCosts(), a, b).cost
    ensures ops == if filterMatches then WithoutMatches(Distance(UnitCosts(), a, b).ops) else Distance(UnitCosts(), a, b).ops
    ensures forall p | OneLabelApart(a, b, p) :: cost == if Post(a)[p].data == Post(b)[p].data then 0 else 1
    ensures cost == Distance(UnitCosts(), b, a).cost
  {
    cost, ops := EditingDistance(UnitCosts(), a, b, filterMatches);
    UnitSymmetric(UnitCosts<L>());
    DistanceSymmetric(UnitCosts(), a, b);
    forall p | OneLabelApart(a, b, p)
      ensures cost == if Post(a)[p].data == Post(b)[p].data then 0 else 1
    {
      DistanceOneLabel(a, b, p);
    }
  }

  /** The script that edits `a` into `b` under the default costs, without
    * its `Match` steps. */
  method EditingOperations<L(==, !new)>(a: LTree<L>, b: LTree<L>) returns (ops: seq<Op<L>>)
    ensures ops == WithoutMatches(Distance(UnitCosts(), a, b).ops)
    ensures forall k | 0 <= k < |ops| :: !ops[k].Match?
  {
    var _, r := UnitEditingDistance(a, b, true);
    ops := r;
  }
}
