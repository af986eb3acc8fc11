/**
 * The Zhang–Shasha editing distance between two ordered labelled trees, as a
 * recurrence over forests of their postorders: the distance between the
 * nodes at postorder positions `x1 ..< x2` of one tree and `y1 ..< y2` of the
 * other, together with the edit script the table rebuilds for it. The
 * recurrence follows lemmas 3 and 4 of Zhang and Shasha, "Simple fast
 * algorithms for the editing distance between trees and related problems"
 * (SIAM Journal on Computing 18, 1989), with the tie-breaking and the script
 * entries of the table filled by the library.
 */
module EditDistance {
  import opened EditShapes
  import opened EditAnnotation

  /** One step of an edit script; the index names a node of the source tree
    * by its position in the tree's node list. */
  datatype Op<L> =
    | Remove(index: nat, data: L)
    | Insert(index: nat, data: L)
    | Update(index: nat, data: L)
    | Match(index: nat, data: L)

  /** The costs of inserting a node with some data, of removing one, and of
    * changing one node's data into another's. */
  datatype Costs<-L> = Costs(ins: L -> nat, rm: L -> nat, upd: (L, L) -> nat)

  /** The default costs: one per insertion or removal, one per change to
    * different data, nothing for keeping data as it is. */
  function UnitCosts<L(==, !new)>(): (c: Costs<L>)
    ensures Unit(c)
  {
    Costs(_ => 1, _ => 1, (u: L, v: L) => if u == v then 0 else 1)
  }

  ghost predicate Unit<L(!new)>(c: Costs<L>) {
    (forall u: L :: c.ins(u) == 1 && c.rm(u) == 1) &&
    (forall u: L, v: L :: c.upd(u, v) == if u == v then 0 else 1)
  }

  /** A cost with the script that achieves it. */
  datatype Edit<L> = Edit(cost: nat, ops: seq<Op<L>>)

  /** An annotation with one entry per node whose leftmost leaves span
    * forests. */
  ghost predicate Shaped<L>(a: Annotated<L>) {
    |a.nodes| == |a.labels| == |a.lmds| && Spanned(a.lmds)
  }

  /** The postorder positions `x1 ..< x2` form a forest: each of them has its
    * leftmost leaf among them. */
  ghost predicate Closed(lmds: seq<int>, x1: int, x2: int) {
    0 <= x1 <= x2 <= |lmds| && forall k | x1 <= k < x2 :: x1 <= lmds[k]
  }

  /** Every node lies after its leftmost leaf, and the nodes from its
    * leftmost leaf up to it form a forest: its subtree. */
  ghost predicate Spanned(lmds: seq<int>) {
    forall i | 0 <= i < |lmds| :: 0 <= lmds[i] <= i && Closed(lmds, lmds[i], i + 1)
  }

  /** Nesting leftmost leaves span forests. */
  lemma NestedSpans(lmds: seq<int>)
    requires WellNested(lmds)
    ensures Spanned(lmds)
  {
  }

  /** The first of three costs that is least of them: a list's minimum, and
    * the first index holding it. */
  function FirstLeast(c0: nat, c1: nat, c2: nat): (k: nat)
    ensures k < 3
    ensures k == 0 <==> c0 <= c1 && c0 <= c2
    ensures k == 1 <==> c1 < c0 && c1 <= c2
    ensures k == 2 <==> c2 < c0 && c2 < c1
  {
    if c0 <= c1 && c0 <= c2 then 0 else if c1 <= c2 then 1 else 2
  }

  /** The first cheapest of three options. */
  function Cheapest<L>(e0: Edit<L>, e1: Edit<L>, e2: Edit<L>): (r: Edit<L>)
    ensures r.cost <= e0.cost && r.cost <= e1.cost && r.cost <= e2.cost
    ensures r == e0 || r == e1 || r == e2
    ensures r == e0 <== e0.cost <= e1.cost && e0.cost <= e2.cost
    ensures r == e1 <== e1.cost < e0.cost && e1.cost <= e2.cost
    ensures r == e2 <== e2.cost < e0.cost && e2.cost < e1.cost
  {
    [e0, e1, e2][FirstLeast(e0.cost, e1.cost, e2.cost)]
  }

  /** The cost of removing source node `x`, of inserting target node `y`, and
    * of turning the one into the other, by their data. */
  function RemoveCost<L>(c: Costs<L>, A: Annotated<L>, x: int): nat
    requires 0 <= x < |A.labels|
  {
    c.rm(A.labels[x])
  }

  function InsertCost<L>(c: Costs<L>, B: Annotated<L>, y: int): nat
    requires 0 <= y < |B.labels|
  {
    c.ins(B.labels[y])
  }

  function UpdateCost<L>(c: Costs<L>, A: Annotated<L>, B: Annotated<L>, x: int, y: int): nat
    requires 0 <= x < |A.labels| && 0 <= y < |B.labels|
  {
    c.upd(A.labels[x], B.labels[y])
  }

  /** `e` followed by removing the source node at position `x`. */
  function Removed<L>(c: Costs<L>, A: Annotated<L>, e: Edit<L>, x: int): Edit<L>
    requires 0 <= x < |A.nodes| && 0 <= x < |A.labels|
  {
    Edit(e.cost + RemoveCost(c, A, x), e.ops + [Remove(A.nodes[x], A.labels[x])])
  }

  /** `e` followed by inserting target node `y`, named by source node `x`. */
  function Inserted<L>(c: Costs<L>, A: Annotated<L>, B: Annotated<L>, e: Edit<L>, x: int, y: int): Edit<L>
    requires 0 <= x < |A.nodes| && 0 <= y < |B.labels|
  {
    Edit(e.cost + InsertCost(c, B, y), e.ops + [Insert(A.nodes[x], B.labels[y])])
  }

  /** `e` followed by turning source node `x` into target node `y`: kept as
    * it is when that costs nothing, else given the new data. */
  function Changed<L>(c: Costs<L>, A: Annotated<L>, B: Annotated<L>, e: Edit<L>, x: int, y: int): Edit<L>
    requires 0 <= x < |A.nodes| && 0 <= x < |A.labels| && 0 <= y < |B.labels|
  {
    var c2 := e.cost + UpdateCost(c, A, B, x, y);
    Edit(c2, e.ops + [if c2 == e.cost then Match(A.nodes[x], A.labels[x]) else Update(A.nodes[x], B.labels[y])])
  }

  /** The distance between forests `x1 ..< x2` of `A` and `y1 ..< y2` of `B`,
    * and the script for it. An empty side costs the removals or insertions of
    * the other (insertions name the forest's first source node); otherwise
    * the first cheapest of removing the last source node, inserting the last
    * target node, or turning the one into the other wins. */
  ghost function Forest<L>(c: Costs<L>, A: Annotated<L>, B: Annotated<L>, x1: int, x2: int, y1: int, y2: int): Edit<L>
    requires Shaped(A) && Shaped(B) && Closed(A.lmds, x1, x2) && Closed(B.lmds, y1, y2) && x1 < |A.lmds|
    decreases x2 - x1 + y2 - y1, 1
  {
    if x1 == x2 && y1 == y2 then Edit(0, [])
    else if y1 == y2 then Removed(c, A, Forest(c, A, B, x1, x2 - 1, y1, y2), x2 - 1)
    else if x1 == x2 then Inserted(c, A, B, Forest(c, A, B, x1, x2, y1, y2 - 1), x1, y2 - 1)
    else
      Cheapest(
        Removed(c, A, Forest(c, A, B, x1, x2 - 1, y1, y2), x2 - 1),
        Inserted(c, A, B, Forest(c, A, B, x1, x2, y1, y2 - 1), x2 - 1, y2 - 1),
        Turned(c, A, B, x1, x2, y1, y2))
  }

  /** Turning the last source node `x` into the last target node `y`: when
    * both root their whole forests, by editing the rest and then the data;
    * otherwise by editing the forests before their subtrees and then tree `x`
    * into tree `y`. */
  ghost function Turned<L>(c: Costs<L>, A: Annotated<L>, B: Annotated<L>, x1: int, x2: int, y1: int, y2: int): Edit<L>
    requires Shaped(A) && Shaped(B) && Closed(A.lmds, x1, x2) && Closed(B.lmds, y1, y2) && x1 < x2 && y1 < y2
    decreases x2 - x1 + y2 - y1, 0
  {
    var x, y := x2 - 1, y2 - 1;
    if A.lmds[x] == x1 && B.lmds[y] == y1 then
      Changed(c, A, B, Forest(c, A, B, x1, x, y1, y), x, y)
    else
      var pre := Forest(c, A, B, x1, A.lmds[x], y1, B.lmds[y]);
      var t := Forest(c, A, B, A.lmds[x], x + 1, B.lmds[y], y + 1);
      Edit(pre.cost + t.cost, pre.ops + t.ops)
  }

  /** The distance between the subtrees rooted at postorder positions `x` and
    * `y`. */
  ghost function TreeEdit<L>(c: Costs<L>, A: Annotated<L>, B: Annotated<L>, x: int, y: int): Edit<L>
    requires Shaped(A) && Shaped(B) && 0 <= x < |A.lmds| && 0 <= y < |B.lmds|
  {
    Forest(c, A, B, A.lmds[x], x + 1, B.lmds[y], y + 1)
  }

  /** The distance between two trees: their roots come last in postorder. */
  ghost function Distance<L>(c: Costs<L>, a: LTree<L>, b: LTree<L>): Edit<L> {
    AnnotationShape(a);
    AnnotationShape(b);
    NestedSpans(AnnotationOf(a).lmds);
    NestedSpans(AnnotationOf(b).lmds);
    TreeEdit(c, AnnotationOf(a), AnnotationOf(b), Size(a) - 1, Size(b) - 1)
  }
}
