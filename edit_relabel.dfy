/**
 * Changing the data of one node: under the default costs the editing
 * distance from a tree to the same tree with one node's data changed is one,
 * or zero when the new data equals the old.
 */
module DistanceRelabel {
  import opened EditShapes
  import opened EditAnnotation
  import opened EditDistance

  /** The same tree shape: as many children, each of the same shape. */
  ghost predicate SameTreeShape<L>(a: LTree<L>, b: LTree<L>)
    decreases a
  {
    |a.kids| == |b.kids| && forall k | 0 <= k < |a.kids| :: SameTreeShape(a.kids[k], b.kids[k])
  }

  /** Two postorders whose subtrees have the same sizes, place by place. */
  ghost predicate SameSizes<L>(P: seq<LTree<L>>, Q: seq<LTree<L>>) {
    |P| == |Q| && forall i | 0 <= i < |P| :: Size(P[i]) == Size(Q[i])
  }

  /** `b` is `a` with at most the data of the node at postorder position `p`
    * changed. */
  ghost predicate OneLabelApart<L>(a: LTree<L>, b: LTree<L>, p: int) {
    SameTreeShape(a, b) && 0 <= p < |Post(a)| && p < |Post(b)| &&
    forall k | 0 <= k < |Post(a)| && k < |Post(b)| && k != p :: Post(a)[k].data == Post(b)[k].data
  }

  lemma SameSizesAppend<L>(P1: seq<LTree<L>>, Q1: seq<LTree<L>>, P2: seq<LTree<L>>, Q2: seq<LTree<L>>)
    requires SameSizes(P1, Q1) && SameSizes(P2, Q2)
    ensures SameSizes(P1 + P2, Q1 + Q2)
  {
    forall i | 0 <= i < |P1 + P2| ensures Size((P1 + P2)[i]) == Size((Q1 + Q2)[i]) {
      if i >= |P1| {
        assert (P1 + P2)[i] == P2[i - |P1|] && (Q1 + Q2)[i] == Q2[i - |Q1|];
      }
    }
  }

  /** Trees of the same shape have postorders of the same subtree sizes. */
  lemma {:induction false} PostShape<L>(a: LTree<L>, b: LTree<L>)
    requires SameTreeShape(a, b)
    ensures SameSizes(Post(a), Post(b))
    decreases a, 1
  {
    PostOfShape(a.kids, b.kids);
    PostOfLength(a.kids);
    PostOfLength(b.kids);
    assert Size(a) == Size(b);
    SameSizesAppend(PostOf(a.kids), PostOf(b.kids), [a], [b]);
  }

  lemma {:induction false} PostOfShape<L>(ks: seq<LTree<L>>, ls: seq<LTree<L>>)
    requires |ks| == |ls| && forall k | 0 <= k < |ks| :: SameTreeShape(ks[k], ls[k])
    ensures SameSizes(PostOf(ks), PostOf(ls))
    decreases ks, 0
  {
    if ks != [] {
      var n := |ks| - 1;
      PostOfShape(ks[..n], ls[..n]);
      PostShape(ks[n], ls[n]);
      SameSizesAppend(PostOf(ks[..n]), PostOf(ls[..n]), Post(ks[n]), Post(ls[n]));
    }
  }

  /** A forest whose last node roots it costs no more than the forest before
    * that node and the change of its data; if it costs less, it costs a
    * removal or an insertion at least. */
  lemma RootedCell<L>(c: Costs<L>, A: Annotated<L>, B: Annotated<L>, x1: int, x2: int)
    requires Shaped(A) && Shaped(B) && A.lmds == B.lmds && Closed(A.lmds, x1, x2) && x1 < x2 && A.lmds[x2 - 1] == x1
    ensures var f, g := Forest(c, A, B, x1, x2, x1, x2).cost, Forest(c, A, B, x1, x2 - 1, x1, x2 - 1).cost + UpdateCost(c, A, B, x2 - 1, x2 - 1);
      f <= g && (f == g || f >= RemoveCost(c, A, x2 - 1) || f >= InsertCost(c, B, x2 - 1))
  {
    assert B.lmds[x2 - 1] == x1;
  }

  /** A forest whose last node does not root it costs no more than the forest
    * before that node's subtree and the subtree; if it costs less, it costs a
    * removal or an insertion at least. */
  lemma SplitCell<L>(c: Costs<L>, A: Annotated<L>, B: Annotated<L>, x1: int, x2: int)
    requires Shaped(A) && Shaped(B) && A.lmds == B.lmds && Closed(A.lmds, x1, x2) && x1 < x2 && A.lmds[x2 - 1] != x1
    ensures var m := A.lmds[x2 - 1];
      var f, g := Forest(c, A, B, x1, x2, x1, x2).cost, Forest(c, A, B, x1, m, x1, m).cost + Forest(c, A, B, m, x2, m, x2).cost;
      x1 < m < x2 && Closed(A.lmds, x1, m) && Closed(A.lmds, m, x2) &&
      f <= g && (f == g || f >= RemoveCost(c, A, x2 - 1) || f >= InsertCost(c, B, x2 - 1))
  {
    assert B.lmds[x2 - 1] == A.lmds[x2 - 1];
  }

  /** The bound of `ForestRelabel` on a forest rooted by its last node, from
    * the bound on the forest before it. */
  lemma PathRelabel<L>(c: Costs<L>, A: Annotated<L>, B: Annotated<L>, p: int, x1: int, x2: int)
    requires Shaped(A) && Shaped(B) && A.lmds == B.lmds && Closed(A.lmds, x1, x2) && x1 < x2 && A.lmds[x2 - 1] == x1
    requires x2 - 1 != p ==> UpdateCost(c, A, B, x2 - 1, x2 - 1) == 0
    requires Forest(c, A, B, x1, x2 - 1, x1, x2 - 1).cost <= if x1 <= p < x2 - 1 then UpdateCost(c, A, B, p, p) else 0
    ensures Forest(c, A, B, x1, x2, x1, x2).cost <= if x1 <= p < x2 then UpdateCost(c, A, B, p, p) else 0
  {
    RootedCell(c, A, B, x1, x2);
  }

  /** The bound of `ForestRelabel` on a forest not rooted by its last node,
    * from the bounds on the forest before that node's subtree and on the
    * subtree. */
  lemma SplitRelabel<L>(c: Costs<L>, A: Annotated<L>, B: Annotated<L>, p: int, x1: int, x2: int)
    requires Shaped(A) && Shaped(B) && A.lmds == B.lmds && Closed(A.lmds, x1, x2) && x1 < x2 && A.lmds[x2 - 1] != x1
    requires var m := A.lmds[x2 - 1];
      x1 <= m < x2 &&
      Forest(c, A, B, x1, m, x1, m).cost <= (if x1 <= p < m then UpdateCost(c, A, B, p, p) else 0) &&
      Forest(c, A, B, m, x2, m, x2).cost <= (if m <= p < x2 then UpdateCost(c, A, B, p, p) else 0)
    ensures Forest(c, A, B, x1, x2, x1, x2).cost <= if x1 <= p < x2 then UpdateCost(c, A, B, p, p) else 0
  {
    SplitCell(c, A, B, x1, x2);
  }

  /** Between annotations with the same leftmost leaves where keeping a node
    * is free everywhere but at position `p`, a forest costs at most the
    * change at `p`. */
  lemma {:induction false} ForestRelabel<L>(c: Costs<L>, A: Annotated<L>, B: Annotated<L>, p: int, x1: int, x2: int)
    requires Shaped(A) && Shaped(B) && A.lmds == B.lmds && Closed(A.lmds, x1, x2) && x1 < |A.lmds|
    requires forall k | 0 <= k < |A.labels| && k != p :: UpdateCost(c, A, B, k, k) == 0
    ensures Forest(c, A, B, x1, x2, x1, x2).cost <= if x1 <= p < x2 then UpdateCost(c, A, B, p, p) else 0
    decreases x2 - x1
  {
    if x1 < x2 {
      var x := x2 - 1;
      if A.lmds[x] == x1 {
        ForestRelabel(c, A, B, p, x1, x);
        PathRelabel(c, A, B, p, x1, x2);
      } else {
        var m := A.lmds[x];
        SplitCell(c, A, B, x1, x2);
        ForestRelabel(c, A, B, p, x1, m);
        ForestRelabel(c, A, B, p, m, x2);
        SplitRelabel(c, A, B, p, x1, x2);
      }
    }
  }

  /** Between annotations with the same leftmost leaves, where every removal
    * and insertion costs something and changing the node at `p` does too, a
    * forest holding `p` is never free. */
  lemma {:induction false} ForestDiffers<L>(c: Costs<L>, A: Annotated<L>, B: Annotated<L>, p: int, x1: int, x2: int)
    requires Shaped(A) && Shaped(B) && A.lmds == B.lmds && Closed(A.lmds, x1, x2) && x1 < |A.lmds|
    requires forall k | 0 <= k < |A.labels| :: RemoveCost(c, A, k) >= 1 && InsertCost(c, B, k) >= 1
    requires x1 <= p < x2 && UpdateCost(c, A, B, p, p) >= 1
    ensures Forest(c, A, B, x1, x2, x1, x2).cost >= 1
    decreases x2 - x1
  {
    var x := x2 - 1;
    if A.lmds[x] == x1 {
      RootedCell(c, A, B, x1, x2);
      if p != x {
        ForestDiffers(c, A, B, p, x1, x);
      }
    } else {
      var m := A.lmds[x];
      SplitCell(c, A, B, x1, x2);
      if p < m {
        ForestDiffers(c, A, B, p, x1, m);
      } else {
        ForestDiffers(c, A, B, p, m, x2);
      }
    }
  }

  /** Same-shaped trees have the same leftmost leaves, and their data are
    * their postorders' data. */
  lemma SameShapeAnnotations<L>(a: LTree<L>, b: LTree<L>)
    requires SameTreeShape(a, b)
    ensures var A, B := AnnotationOf(a), AnnotationOf(b);
      Size(a) == Size(b) && A.lmds == B.lmds && |Post(a)| == |A.labels| == Size(a) &&
      (forall k | 0 <= k < Size(a) :: A.labels[k] == Post(a)[k].data && B.labels[k] == Post(b)[k].data)
  {
    PostShape(a, b);
    PostLength(a);
    PostLength(b);
  }

  /** Under unit costs, between annotations with the same leftmost leaves and
    * the same data everywhere but at `p`, the whole forest costs one, or zero
    * when the data at `p` agree too. */
  lemma ForestOneLabel<L(!new)>(c: Costs<L>, A: Annotated<L>, B: Annotated<L>, p: int)
    requires Unit(c) && Shaped(A) && Shaped(B) && A.lmds == B.lmds && Closed(A.lmds, 0, |A.lmds|) && 0 <= p < |A.lmds|
    requires forall k | 0 <= k < |A.labels| && k != p :: A.labels[k] == B.labels[k]
    ensures Forest(c, A, B, 0, |A.lmds|, 0, |A.lmds|).cost == if A.labels[p] == B.labels[p] then 0 else 1
  {
    var n := |A.lmds|;
    assert forall k | 0 <= k < n && k != p :: UpdateCost(c, A, B, k, k) == 0;
    ForestRelabel(c, A, B, p, 0, n);
    if A.labels[p] != B.labels[p] {
      assert forall k | 0 <= k < n :: RemoveCost(c, A, k) == 1 && InsertCost(c, B, k) == 1;
      ForestDiffers(c, A, B, p, 0, n);
    }
  }

  /** Under the default costs the distance from a tree to the same tree with
    * the data of one node changed is one, or zero when the data stay the
    * same. */
  lemma DistanceOneLabel<L(!new)>(a: LTree<L>, b: LTree<L>, p: int)
    requires OneLabelApart(a, b, p)
    ensures Distance(UnitCosts(), a, b).cost == if Post(a)[p].data == Post(b)[p].data then 0 else 1
  {
    var c := UnitCosts<L>();
    SameShapeAnnotations(a, b);
    AnnotationShape(a);
    AnnotationShape(b);
    var A, B := AnnotationOf(a), AnnotationOf(b);
    NestedSpans(A.lmds);
    var n := Size(a);
    assert Distance(c, a, b) == Forest(c, A, B, 0, n, 0, n);
    ForestOneLabel(c, A, B, p);
  }
}
