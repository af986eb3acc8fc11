/**
 * The ordered labelled trees the Zhang–Shasha editing distance works on, as a
 * viewable tree presents them: each node carries its position in the tree's
 * node list, its data, and its children in order. The annotation walks such a
 * tree twice: a preorder that visits children right to left (the order in
 * which a stack of pending children pops them), whose reverse is the
 * left-to-right postorder the distance is defined on.
 */
module EditShapes {

  datatype LTree<L> = LTree(index: nat, data: L, kids: seq<LTree<L>>)

  /** One entry of the preorder walk: the subtree visited, its visit number,
    * and the visit numbers of its ancestors, nearest first. */
  datatype Visit<L> = Visit(node: LTree<L>, nid: int, anc: seq<int>)

  function Size<L>(t: LTree<L>): (r: nat)
    ensures r >= 1
    decreases t, 1
  {
    1 + SizeOf(t.kids)
  }

  function SizeOf<L>(ks: seq<LTree<L>>): nat
    decreases ks, 0
  {
    if ks == [] then 0 else SizeOf(ks[..|ks| - 1]) + Size(ks[|ks| - 1])
  }

  /** The left-to-right postorder: children's subtrees first, then the node. */
  function Post<L>(t: LTree<L>): seq<LTree<L>>
    decreases t, 1
  {
    PostOf(t.kids) + [t]
  }

  function PostOf<L>(ks: seq<LTree<L>>): seq<LTree<L>>
    decreases ks, 0
  {
    if ks == [] then [] else PostOf(ks[..|ks| - 1]) + Post(ks[|ks| - 1])
  }

  /** The walk a stack of pending (subtree, ancestors) pairs produces when the
    * subtree `t`, popped as visit number `j`, pushes its children in order:
    * the last child is popped, and so visited, first. */
  function Pre<L>(t: LTree<L>, j: int, anc: seq<int>): seq<Visit<L>>
    decreases t, 1
  {
    [Visit(t, j, anc)] + PreOf(t.kids, j + 1, [j] + anc)
  }

  function PreOf<L>(ks: seq<LTree<L>>, j: int, anc: seq<int>): seq<Visit<L>>
    decreases ks, 0
  {
    if ks == [] then []
    else
      var last := ks[|ks| - 1];
      Pre(last, j, anc) + PreOf(ks[..|ks| - 1], j + Size(last), anc)
  }

  function Nodes<L>(vs: seq<Visit<L>>): (r: seq<LTree<L>>)
    ensures |r| == |vs|
    ensures forall k | 0 <= k < |vs| :: r[k] == vs[k].node
  {
    seq(|vs|, k requires 0 <= k < |vs| => vs[k].node)
  }

  function Reversed<T>(s: seq<T>): (r: seq<T>)
    ensures |r| == |s|
    ensures forall k | 0 <= k < |s| :: r[k] == s[|s| - 1 - k]
  {
    seq(|s|, k requires 0 <= k < |s| => s[|s| - 1 - k])
  }

  /** Subtree `q` of a walk lies strictly above entry `p`. */
  ghost predicate Above<L>(E: seq<Visit<L>>, q: int, p: int)
    requires 0 <= p < |E|
  {
    0 <= q < p < q + Size(E[q].node)
  }

  // ---------------------------------------------------------------------
  // Lengths, visit numbers, and the two orders.

  lemma {:induction false} PreLength<L>(t: LTree<L>, j: int, anc: seq<int>)
    ensures |Pre(t, j, anc)| == Size(t)
    decreases t, 1
  {
    PreOfLength(t.kids, j + 1, [j] + anc);
  }

  lemma {:induction false} PreOfLength<L>(ks: seq<LTree<L>>, j: int, anc: seq<int>)
    ensures |PreOf(ks, j, anc)| == SizeOf(ks)
    decreases ks, 0
  {
    if ks != [] {
      var last := ks[|ks| - 1];
      PreLength(last, j, anc);
      PreOfLength(ks[..|ks| - 1], j + Size(last), anc);
    }
  }

  lemma {:induction false} PostLength<L>(t: LTree<L>)
    ensures |Post(t)| == Size(t)
    decreases t, 1
  {
    PostOfLength(t.kids);
  }

  lemma {:induction false} PostOfLength<L>(ks: seq<LTree<L>>)
    ensures |PostOf(ks)| == SizeOf(ks)
    decreases ks, 0
  {
    if ks != [] {
      PostLength(ks[|ks| - 1]);
      PostOfLength(ks[..|ks| - 1]);
    }
  }

  /** Visit numbers count up from `j` along the walk. */
  lemma {:induction false} PreNid<L>(t: LTree<L>, j: int, anc: seq<int>)
    ensures forall p | 0 <= p < |Pre(t, j, anc)| :: Pre(t, j, anc)[p].nid == j + p
    decreases t, 1
  {
    PreOfNid(t.kids, j + 1, [j] + anc);
  }

  lemma {:induction false} PreOfNid<L>(ks: seq<LTree<L>>, j: int, anc: seq<int>)
    ensures forall p | 0 <= p < |PreOf(ks, j, anc)| :: PreOf(ks, j, anc)[p].nid == j + p
    decreases ks, 0
  {
    if ks != [] {
      var last := ks[|ks| - 1];
      PreLength(last, j, anc);
      PreNid(last, j, anc);
      PreOfNid(ks[..|ks| - 1], j + Size(last), anc);
    }
  }

  lemma NodesAppend<L>(a: seq<Visit<L>>, b: seq<Visit<L>>)
    ensures Nodes(a + b) == Nodes(a) + Nodes(b)
  {
  }

  lemma ReversedAppend<T>(a: seq<T>, b: seq<T>)
    ensures Reversed(a + b) == Reversed(b) + Reversed(a)
  {
  }

  lemma ReversedNodesAppend<L>(a: seq<Visit<L>>, b: seq<Visit<L>>)
    ensures Reversed(Nodes(a + b)) == Reversed(Nodes(b)) + Reversed(Nodes(a))
  {
    NodesAppend(a, b);
    ReversedAppend(Nodes(a), Nodes(b));
  }

  /** Read backwards, the right-to-left preorder is the postorder. */
  lemma {:induction false} PreReversed<L>(t: LTree<L>, j: int, anc: seq<int>)
    ensures Reversed(Nodes(Pre(t, j, anc))) == Post(t)
    decreases t, 1
  {
    var v := [Visit(t, j, anc)];
    var K := PreOf(t.kids, j + 1, [j] + anc);
    assert Pre(t, j, anc) == v + K;
    PreOfReversed(t.kids, j + 1, [j] + anc);
    ReversedNodesAppend(v, K);
    assert Reversed(Nodes(v)) == [t];
  }

  lemma {:induction false} PreOfReversed<L>(ks: seq<LTree<L>>, j: int, anc: seq<int>)
    ensures Reversed(Nodes(PreOf(ks, j, anc))) == PostOf(ks)
    decreases ks, 0
  {
    if ks == [] {
      assert Nodes(PreOf(ks, j, anc)) == [];
    } else {
      var last := ks[|ks| - 1];
      var A := Pre(last, j, anc);
      var B := PreOf(ks[..|ks| - 1], j + Size(last), anc);
      assert PreOf(ks, j, anc) == A + B;
      PreReversed(last, j, anc);
      PreOfReversed(ks[..|ks| - 1], j + Size(last), anc);
      JoinReversed(A, B, Post(last), PostOf(ks[..|ks| - 1]));
    }
  }

  lemma JoinReversed<L>(A: seq<Visit<L>>, B: seq<Visit<L>>, a: seq<LTree<L>>, b: seq<LTree<L>>)
    requires Reversed(Nodes(A)) == a && Reversed(Nodes(B)) == b
    ensures Reversed(Nodes(A + B)) == b + a
  {
    ReversedNodesAppend(A, B);
  }

  // ---------------------------------------------------------------------
  // Every entry's subtree occupies a contiguous stretch of the walk.

  lemma SliceLeft<T>(A: seq<T>, B: seq<T>, p: int, s: int)
    requires 0 <= p && 0 <= s && p + s <= |A|
    ensures (A + B)[p..p + s] == A[p..p + s]
  {
  }

  lemma SliceRight<T>(A: seq<T>, B: seq<T>, p: int, s: int)
    requires |A| <= p && 0 <= s && p + s <= |A| + |B|
    ensures (A + B)[p..p + s] == B[p - |A|..p - |A| + s]
  {
  }

  lemma {:induction false} PreSlice<L>(t: LTree<L>, j: int, anc: seq<int>, p: int)
    requires 0 <= p < |Pre(t, j, anc)|
    ensures var E := Pre(t, j, anc);
      p + Size(E[p].node) <= |E| &&
      E[p..p + Size(E[p].node)] == Pre(E[p].node, j + p, E[p].anc)
    decreases t, 1
  {
    var E := Pre(t, j, anc);
    PreLength(t, j, anc);
    if p == 0 {
      assert E[0..|E|] == E;
    } else {
      var v := [Visit(t, j, anc)];
      var K := PreOf(t.kids, j + 1, [j] + anc);
      assert E == v + K;
      assert E[p] == K[p - 1];
      PreOfSlice(t.kids, j + 1, [j] + anc, p - 1);
      SliceRight(v, K, p, Size(E[p].node));
    }
  }

  lemma {:induction false} PreOfSlice<L>(ks: seq<LTree<L>>, j: int, anc: seq<int>, p: int)
    requires 0 <= p < |PreOf(ks, j, anc)|
    ensures var E := PreOf(ks, j, anc);
      p + Size(E[p].node) <= |E| &&
      E[p..p + Size(E[p].node)] == Pre(E[p].node, j + p, E[p].anc)
    decreases ks, 0
  {
    var E := PreOf(ks, j, anc);
    var last := ks[|ks| - 1];
    var A := Pre(last, j, anc);
    var B := PreOf(ks[..|ks| - 1], j + Size(last), anc);
    assert E == A + B;
    PreLength(last, j, anc);
    if p < |A| {
      assert E[p] == A[p];
      PreSlice(last, j, anc, p);
      SliceLeft(A, B, p, Size(E[p].node));
    } else {
      assert E[p] == B[p - |A|];
      PreOfSlice(ks[..|ks| - 1], j + Size(last), anc, p - |A|);
      SliceRight(A, B, p, Size(E[p].node));
    }
  }

  lemma PreSpans<L>(t: LTree<L>, j: int, anc: seq<int>)
    ensures var E := Pre(t, j, anc);
      forall q | 0 <= q < |E| :: q + Size(E[q].node) <= |E|
  {
    var E := Pre(t, j, anc);
    forall q | 0 <= q < |E| ensures q + Size(E[q].node) <= |E| {
      PreSlice(t, j, anc, q);
    }
  }

  /** The last entry of a walk is a leaf: the leftmost leaf of its root. */
  lemma {:induction false} PreLastLeaf<L>(t: LTree<L>, j: int, anc: seq<int>)
    ensures var E := Pre(t, j, anc); |E| > 0 && E[|E| - 1].node.kids == []
    decreases t, 1
  {
    if t.kids != [] {
      PreOfLastLeaf(t.kids, j + 1, [j] + anc);
    }
  }

  lemma {:induction false} PreOfLastLeaf<L>(ks: seq<LTree<L>>, j: int, anc: seq<int>)
    requires ks != []
    ensures var E := PreOf(ks, j, anc); |E| > 0 && E[|E| - 1].node.kids == []
    decreases ks, 0
  {
    var last := ks[|ks| - 1];
    PreLastLeaf(last, j, anc);
    if |ks| > 1 {
      PreOfLastLeaf(ks[..|ks| - 1], j + Size(last), anc);
    } else {
      assert PreOf(ks[..|ks| - 1], j + Size(last), anc) == [];
    }
  }

  /** A subtree of size one is a leaf, and conversely. */
  lemma SizeLeaf<L>(t: LTree<L>)
    ensures Size(t) == 1 <==> t.kids == []
  {
    if t.kids != [] {
      var last := t.kids[|t.kids| - 1];
      assert Size(last) >= 1;
    }
  }

  // ---------------------------------------------------------------------
  // The ancestor lists the walk carries.

  ghost predicate Descending(s: seq<int>) {
    forall k1, k2 | 0 <= k1 < k2 < |s| :: s[k1] > s[k2]
  }

  /** The ancestors entry `p` carries in front of the list the walk started
    * from. */
  function Inner<L>(E: seq<Visit<L>>, anc: seq<int>, p: int): seq<int>
    requires 0 <= p < |E| && |E[p].anc| >= |anc|
  {
    E[p].anc[..|E[p].anc| - |anc|]
  }

  /** Every listed number is that of an entry above `p`. */
  ghost predicate AncSound<L>(E: seq<Visit<L>>, j: int, a: seq<int>, p: int)
    requires 0 <= p < |E|
  {
    forall k | 0 <= k < |a| :: j <= a[k] < j + p && Above(E, a[k] - j, p)
  }

  /** Every entry above `p` is listed. */
  ghost predicate AncComplete<L>(E: seq<Visit<L>>, j: int, a: seq<int>, p: int)
    requires 0 <= p < |E|
  {
    forall q | 0 <= q < p && Above(E, q, p) :: j + q in a
  }

  /** The ancestors an entry carries are exactly the entries above it, by
    * decreasing visit number (nearest first), followed by the list the walk
    * started from. */
  ghost predicate AncestorsListed<L>(E: seq<Visit<L>>, j: int, anc: seq<int>, p: int)
    requires 0 <= p < |E|
  {
    |E[p].anc| >= |anc| && E[p].anc == Inner(E, anc, p) + anc &&
    Descending(Inner(E, anc, p)) && AncSound(E, j, Inner(E, anc, p), p) && AncComplete(E, j, Inner(E, anc, p), p)
  }

  lemma InnerOf(x: seq<int>, a: seq<int>, anc: seq<int>)
    requires x == a + anc
    ensures |x| >= |anc| && x[..|x| - |anc|] == a
  {
  }

  lemma {:induction false} PreAncestors<L>(t: LTree<L>, j: int, anc: seq<int>, p: int)
    requires 0 <= p < |Pre(t, j, anc)|
    ensures AncestorsListed(Pre(t, j, anc), j, anc, p)
    decreases t, 1
  {
    var E := Pre(t, j, anc);
    PreLength(t, j, anc);
    if p == 0 {
      InnerOf(E[0].anc, [], anc);
    } else {
      var K := PreOf(t.kids, j + 1, [j] + anc);
      assert E == [E[0]] + K;
      PreOfAncestors(t.kids, j + 1, [j] + anc, p - 1);
      UnderRoot(E, K, j, anc, p);
    }
  }

  /** An entry below the root: it carries the list it carries among the
    * children, which ends with the root's visit number. */
  lemma UnderRoot<L>(E: seq<Visit<L>>, K: seq<Visit<L>>, j: int, anc: seq<int>, p: int)
    requires |E| > 0 && E == [E[0]] + K && Size(E[0].node) == |E|
    requires 1 <= p < |E|
    requires AncestorsListed(K, j + 1, [j] + anc, p - 1)
    ensures AncestorsListed(E, j, anc, p)
  {
    var a' := Inner(K, [j] + anc, p - 1);
    assert E[p] == K[p - 1];
    assert E[p].anc == (a' + [j]) + anc;
    InnerOf(E[p].anc, a' + [j], anc);
    UnderRootDescending(a', j + 1);
    UnderRootSound(E, K, j, a', p);
    UnderRootComplete(E, K, j, a', p);
  }

  lemma UnderRootDescending(a: seq<int>, j: int)
    requires Descending(a) && forall k | 0 <= k < |a| :: j <= a[k]
    ensures Descending(a + [j - 1])
  {
  }

  lemma UnderRootSound<L>(E: seq<Visit<L>>, K: seq<Visit<L>>, j: int, a: seq<int>, p: int)
    requires |E| > 0 && E == [E[0]] + K && Size(E[0].node) == |E|
    requires 1 <= p < |E|
    requires AncSound(K, j + 1, a, p - 1)
    ensures AncSound(E, j, a + [j], p)
  {
    forall k | 0 <= k < |a| + 1 ensures j <= (a + [j])[k] < j + p && Above(E, (a + [j])[k] - j, p) {
      if k == |a| {
        assert Above(E, 0, p);
      } else {
        assert Above(K, a[k] - j - 1, p - 1);
        assert E[a[k] - j] == K[a[k] - j - 1];
      }
    }
  }

  lemma UnderRootComplete<L>(E: seq<Visit<L>>, K: seq<Visit<L>>, j: int, a: seq<int>, p: int)
    requires |E| > 0 && E == [E[0]] + K
    requires 1 <= p < |E|
    requires AncComplete(K, j + 1, a, p - 1)
    ensures AncComplete(E, j, a + [j], p)
  {
    forall q | 0 <= q < p && Above(E, q, p) ensures j + q in a + [j] {
      if q > 0 {
        assert E[q] == K[q - 1];
        assert Above(K, q - 1, p - 1);
      }
    }
  }

  lemma {:induction false} PreOfAncestors<L>(ks: seq<LTree<L>>, j: int, anc: seq<int>, p: int)
    requires 0 <= p < |PreOf(ks, j, anc)|
    ensures AncestorsListed(PreOf(ks, j, anc), j, anc, p)
    decreases ks, 0
  {
    var E := PreOf(ks, j, anc);
    var last := ks[|ks| - 1];
    var A := Pre(last, j, anc);
    var B := PreOf(ks[..|ks| - 1], j + Size(last), anc);
    assert E == A + B;
    PreLength(last, j, anc);
    if p < |A| {
      PreAncestors(last, j, anc, p);
      InFirst(E, A, B, j, anc, p);
    } else {
      PreOfAncestors(ks[..|ks| - 1], j + Size(last), anc, p - |A|);
      PreSpans(last, j, anc);
      InRest(E, A, B, j, j + Size(last), anc, p);
    }
  }

  /** An entry inside the first subtree of a forest walk. */
  lemma InFirst<L>(E: seq<Visit<L>>, A: seq<Visit<L>>, B: seq<Visit<L>>, j: int, anc: seq<int>, p: int)
    requires E == A + B && 0 <= p < |A|
    requires AncestorsListed(A, j, anc, p)
    ensures AncestorsListed(E, j, anc, p)
  {
    assert E[p] == A[p];
    var a := Inner(A, anc, p);
    assert Inner(E, anc, p) == a;
    forall q | 0 <= q < p && Above(E, q, p) ensures j + q in a {
      assert E[q] == A[q];
      assert Above(A, q, p);
    }
    forall k | 0 <= k < |a| ensures j <= a[k] < j + p && Above(E, a[k] - j, p) {
      assert Above(A, a[k] - j, p);
      assert E[a[k] - j] == A[a[k] - j];
    }
  }

  /** An entry after the first subtree of a forest walk: no entry of that
    * subtree is above it. */
  lemma InRest<L>(E: seq<Visit<L>>, A: seq<Visit<L>>, B: seq<Visit<L>>, j: int, j': int, anc: seq<int>, p: int)
    requires E == A + B && j' == j + |A|
    requires |A| <= p < |A| + |B|
    requires forall q | 0 <= q < |A| :: q + Size(A[q].node) <= |A|
    requires AncestorsListed(B, j', anc, p - |A|)
    ensures AncestorsListed(E, j, anc, p)
  {
    var p' := p - |A|;
    assert E[p] == B[p'];
    var a := Inner(B, anc, p');
    assert Inner(E, anc, p) == a;
    InRestSound(E, A, B, j, j', a, p);
    InRestComplete(E, A, B, j, j', a, p);
  }

  lemma InRestSound<L>(E: seq<Visit<L>>, A: seq<Visit<L>>, B: seq<Visit<L>>, j: int, j': int, a: seq<int>, p: int)
    requires E == A + B && j' == j + |A|
    requires |A| <= p < |A| + |B|
    requires AncSound(B, j', a, p - |A|)
    ensures AncSound(E, j, a, p)
  {
    var p' := p - |A|;
    forall k | 0 <= k < |a| ensures j <= a[k] < j + p && Above(E, a[k] - j, p) {
      assert Above(B, a[k] - j', p');
      assert E[a[k] - j] == B[a[k] - j'];
    }
  }

  lemma InRestComplete<L>(E: seq<Visit<L>>, A: seq<Visit<L>>, B: seq<Visit<L>>, j: int, j': int, a: seq<int>, p: int)
    requires E == A + B && j' == j + |A|
    requires |A| <= p < |A| + |B|
    requires forall q | 0 <= q < |A| :: q + Size(A[q].node) <= |A|
    requires AncComplete(B, j', a, p - |A|)
    ensures AncComplete(E, j, a, p)
  {
    var p' := p - |A|;
    forall q | 0 <= q < p && Above(E, q, p) ensures j + q in a {
      if q >= |A| {
        assert E[q] == B[q - |A|];
        assert Above(B, q - |A|, p');
      }
    }
  }

  // ---------------------------------------------------------------------
  // The walk from the root, summarised.

  /** The walk position of the leftmost leaf of the subtree at `q`. */
  function Last<L>(E: seq<Visit<L>>, q: int): int
    requires 0 <= q < |E|
  {
    q + Size(E[q].node) - 1
  }

  /** What the annotation relies on about the walk from the root: visit
    * numbers are positions, each subtree ends inside the walk with a leaf,
    * subtrees nest, and each entry carries exactly its ancestors, nearest
    * first. */
  ghost predicate WalkShaped<L>(E: seq<Visit<L>>) {
    (forall p | 0 <= p < |E| :: E[p].nid == p) &&
    (forall p | 0 <= p < |E| :: Last(E, p) < |E| && E[Last(E, p)].node.kids == []) &&
    (forall q, p | 0 <= p < |E| && Above(E, q, p) :: Last(E, p) <= Last(E, q)) &&
    (forall p | 0 <= p < |E| :: Descending(E[p].anc)) &&
    (forall p, m | 0 <= p < |E| && 0 <= m < |E[p].anc| :: 0 <= E[p].anc[m] < p) &&
    (forall p, x | 0 <= p < |E| :: x in E[p].anc <==> Above(E, x, p))
  }

  lemma WalkLeaves<L>(t: LTree<L>, j: int, anc: seq<int>)
    ensures var E := Pre(t, j, anc);
      forall q | 0 <= q < |E| :: Last(E, q) < |E| && E[Last(E, q)].node.kids == []
  {
    var E := Pre(t, j, anc);
    forall q | 0 <= q < |E| ensures Last(E, q) < |E| && E[Last(E, q)].node.kids == [] {
      PreSlice(t, j, anc, q);
      var F := Pre(E[q].node, j + q, E[q].anc);
      PreLastLeaf(E[q].node, j + q, E[q].anc);
      assert E[Last(E, q)] == F[|F| - 1];
    }
  }

  lemma WalkNests<L>(t: LTree<L>, j: int, anc: seq<int>)
    ensures var E := Pre(t, j, anc);
      forall q, p | 0 <= p < |E| && Above(E, q, p) :: Last(E, p) <= Last(E, q)
  {
    var E := Pre(t, j, anc);
    forall q, p | 0 <= p < |E| && Above(E, q, p) ensures Last(E, p) <= Last(E, q) {
      PreSlice(t, j, anc, q);
      var F := Pre(E[q].node, j + q, E[q].anc);
      PreSpans(E[q].node, j + q, E[q].anc);
      assert F[p - q] == E[p];
    }
  }

  lemma WalkAncestors<L>(t: LTree<L>)
    ensures var E := Pre(t, 0, []);
      (forall p | 0 <= p < |E| :: Descending(E[p].anc)) &&
      (forall p, m | 0 <= p < |E| && 0 <= m < |E[p].anc| :: 0 <= E[p].anc[m] < p) &&
      (forall p, x | 0 <= p < |E| :: x in E[p].anc <==> Above(E, x, p))
  {
    var E := Pre(t, 0, []);
    forall p | 0 <= p < |E|
      ensures Descending(E[p].anc) && (forall m | 0 <= m < |E[p].anc| :: 0 <= E[p].anc[m] < p) &&
        forall x :: x in E[p].anc <==> Above(E, x, p)
    {
      PreAncestors(t, 0, [], p);
      ListedFromRoot(E, p);
    }
  }

  lemma ListedFromRoot<L>(E: seq<Visit<L>>, p: int)
    requires 0 <= p < |E| && AncestorsListed(E, 0, [], p)
    ensures Descending(E[p].anc)
    ensures forall m | 0 <= m < |E[p].anc| :: 0 <= E[p].anc[m] < p
    ensures forall x :: x in E[p].anc <==> Above(E, x, p)
  {
    var a := E[p].anc;
    assert a[..|a|] == a;
    forall x ensures x in a <==> Above(E, x, p) {
      if x in a {
        var k :| 0 <= k < |a| && a[k] == x;
      }
    }
  }

  lemma WalkFromRoot<L>(t: LTree<L>)
    ensures |Pre(t, 0, [])| == Size(t)
    ensures WalkShaped(Pre(t, 0, []))
  {
    PreLength(t, 0, []);
    PreNid(t, 0, []);
    WalkLeaves(t, 0, []);
    WalkNests(t, 0, []);
    WalkAncestors(t);
  }
}
