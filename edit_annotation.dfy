/**
 * The annotation the editing distance computes for each tree before it
 * compares them: the nodes in postorder with their data and walk numbers, the
 * postorder position of each node's leftmost leaf descendant, and the
 * keyroots — the nodes no later node shares a leftmost leaf with.
 */
module EditAnnotation {
  import opened EditShapes
  import opened SetOrder
  import opened EdgeSets

  /** `nodes[i]` is the index of the `i`-th node in postorder, `labels[i]` its
    * data, `ids[i]` its number in the right-to-left preorder walk, `lmds[i]`
    * the postorder position of its leftmost leaf; `keyRoots` increases. */
  datatype Annotated<L> = Annotated(nodes: seq<nat>, labels: seq<L>, ids: seq<int>, lmds: seq<int>, keyRoots: seq<int>)

  /** No later node has the same leftmost leaf as node `k`. */
  ghost predicate IsKeyRoot(lmds: seq<int>, k: int)
    requires 0 <= k < |lmds|
  {
    forall k' | k < k' < |lmds| :: lmds[k'] != lmds[k]
  }

  ghost function KeyRootsOf(lmds: seq<int>): set<int> {
    set k | 0 <= k < |lmds| && IsKeyRoot(lmds, k)
  }

  /** The fields of the annotation, read off a postorder `P`: a node's
    * leftmost leaf sits as many places before it as its subtree has nodes,
    * less one; walk numbers count down from the root. */
  function Indices<L>(P: seq<LTree<L>>): (r: seq<nat>)
    ensures |r| == |P| && forall i | 0 <= i < |P| :: r[i] == P[i].index
  {
    seq(|P|, i requires 0 <= i < |P| => P[i].index)
  }

  function Labels<L>(P: seq<LTree<L>>): (r: seq<L>)
    ensures |r| == |P| && forall i | 0 <= i < |P| :: r[i] == P[i].data
  {
    seq(|P|, i requires 0 <= i < |P| => P[i].data)
  }

  function WalkNumbers(n: nat): (r: seq<int>)
    ensures |r| == n && forall i | 0 <= i < n :: r[i] == n - 1 - i
  {
    seq(n, i requires 0 <= i < n => n - 1 - i)
  }

  ghost function Lmds<L>(P: seq<LTree<L>>): (r: seq<int>)
    ensures |r| == |P| && forall i | 0 <= i < |P| :: r[i] == i + 1 - Size(P[i])
  {
    seq(|P|, i requires 0 <= i < |P| => i + 1 - Size(P[i]))
  }

  /** The annotation of a tree. */
  ghost function AnnotationOf<L>(t: LTree<L>): Annotated<L> {
    var P := Post(t);
    Annotated(Indices(P), Labels(P), WalkNumbers(|P|), Lmds(P), SortedElements(KeyRootsOf(Lmds(P))))
  }

  /** Leftmost leaves nest like the subtrees they start: every node lies
    * after its leftmost leaf, and a node inside the span of node `i` has its
    * leftmost leaf inside that span too. */
  ghost predicate WellNested(lmds: seq<int>) {
    (forall i | 0 <= i < |lmds| :: 0 <= lmds[i] <= i) &&
    (forall i, k | 0 <= i < |lmds| && lmds[i] <= k <= i :: lmds[i] <= lmds[k])
  }

  // ---------------------------------------------------------------------
  // The first pass: a stack of pending (subtree, ancestors) pairs.

  function Children<L>(ks: seq<LTree<L>>, anc: seq<int>): (r: seq<(LTree<L>, seq<int>)>)
    ensures |r| == |ks|
    ensures forall i | 0 <= i < |ks| :: r[i] == (ks[i], anc)
  {
    seq(|ks|, i requires 0 <= i < |ks| => (ks[i], anc))
  }

  /** The walk a stack yields from visit number `j` on: its top first. */
  ghost function Pending<L>(stack: seq<(LTree<L>, seq<int>)>, j: int): seq<Visit<L>> {
    if stack == [] then []
    else
      var top := stack[|stack| - 1];
      Pre(top.0, j, top.1) + Pending(stack[..|stack| - 1], j + Size(top.0))
  }

  lemma {:induction false} PendingAppend<L>(s1: seq<(LTree<L>, seq<int>)>, s2: seq<(LTree<L>, seq<int>)>, j: int)
    ensures Pending(s1 + s2, j) == Pending(s2, j) + Pending(s1, j + |Pending(s2, j)|)
    decreases |s2|
  {
    if s2 == [] {
      assert s1 + s2 == s1;
    } else {
      var top := s2[|s2| - 1];
      var s2' := s2[..|s2| - 1];
      assert (s1 + s2)[..|s1 + s2| - 1] == s1 + s2';
      PendingAppend(s1, s2', j + Size(top.0));
      PreLength(top.0, j, top.1);
    }
  }

  lemma {:induction false} PendingChildren<L>(ks: seq<LTree<L>>, anc: seq<int>, j: int)
    ensures Pending(Children(ks, anc), j) == PreOf(ks, j, anc)
    decreases |ks|
  {
    if ks != [] {
      var last := ks[|ks| - 1];
      var C := Children(ks, anc);
      assert C[|C| - 1] == (last, anc);
      assert C[..|C| - 1] == Children(ks[..|ks| - 1], anc);
      assert Pending(C, j) == Pre(last, j, anc) + Pending(Children(ks[..|ks| - 1], anc), j + Size(last));
      PendingChildren(ks[..|ks| - 1], anc, j + Size(last));
    }
  }

  /** Popping the top and pushing its children, each with the popped visit
    * number prepended to the ancestors, moves one entry of the walk out of
    * the stack. */
  lemma PopStep<L>(S: seq<(LTree<L>, seq<int>)>, n: LTree<L>, anc: seq<int>, j: int)
    ensures Pending(S + [(n, anc)], j) == [Visit(n, j, anc)] + Pending(S + Children(n.kids, [j] + anc), j + 1)
  {
    var C := Children(n.kids, [j] + anc);
    assert (S + [(n, anc)])[..|S|] == S;
    PendingAppend(S, C, j + 1);
    PendingChildren(n.kids, [j] + anc, j + 1);
    PreOfLength(n.kids, j + 1, [j] + anc);
  }

  /** `PopStep` for the stack as it stands: its top leaves, its children go
    * on. */
  lemma PopTop<L>(stack: seq<(LTree<L>, seq<int>)>, j: int)
    requires stack != []
    ensures var top := stack[|stack| - 1];
      Pending(stack, j) == [Visit(top.0, j, top.1)] + Pending(stack[..|stack| - 1] + Children(top.0.kids, [j] + top.1), j + 1)
  {
    var top := stack[|stack| - 1];
    assert stack == stack[..|stack| - 1] + [top];
    PopStep(stack[..|stack| - 1], top.0, top.1, j);
  }

  // ---------------------------------------------------------------------
  // The second pass: popping the walk back, in postorder.

  /** The map from a walk number to the postorder position of that node's
    * leftmost leaf holds exactly the inner nodes whose leftmost leaf lies
    * among the entries at or after `from`. */
  ghost predicate LeafMap<L>(E: seq<Visit<L>>, pend: map<int, int>, from: int)
  {
    (forall q | q in pend ::
      0 <= q < |E| && Size(E[q].node) > 1 && Last(E, q) >= from && pend[q] == |E| - 1 - Last(E, q)) &&
    (forall q {:trigger Last(E, q)} | 0 <= q < |E| && Size(E[q].node) > 1 && Last(E, q) >= from :: q in pend)
  }

  /** Once the ancestors' walk meets one whose leftmost leaf is already
    * recorded, every farther ancestor's leftmost leaf lies beyond `p` too. */
  lemma RecordedBeyond<L>(E: seq<Visit<L>>, pend0: map<int, int>, p: int, k: int)
    requires WalkShaped(E) && 0 <= p < |E|
    requires LeafMap(E, pend0, p + 1)
    requires 0 <= k < |E[p].anc| && E[p].anc[k] in pend0
    ensures forall m | k <= m < |E[p].anc| :: Last(E, E[p].anc[m]) > p
  {
    var a := E[p].anc;
    assert a[k] in a;
    forall m | k < m < |a| ensures Last(E, a[m]) > p {
      assert a[m] in a;
      assert a[m] < a[k];
      assert Above(E, a[m], a[k]);
    }
  }

  /** A leaf at walk position `p` records itself as the leftmost leaf of the
    * ancestors it reaches before meeting one already recorded. */
  lemma LeafStep<L>(E: seq<Visit<L>>, pend0: map<int, int>, pend: map<int, int>, p: int, k: int)
    requires WalkShaped(E) && 0 <= p < |E| && Size(E[p].node) == 1
    requires LeafMap(E, pend0, p + 1)
    requires 0 <= k <= |E[p].anc|
    requires forall q :: q in pend <==> q in pend0 || q in E[p].anc[..k]
    requires forall q | q in pend0 :: pend[q] == pend0[q]
    requires forall m | 0 <= m < k :: E[p].anc[m] !in pend0 && E[p].anc[m] in pend && pend[E[p].anc[m]] == |E| - 1 - p
    requires k == |E[p].anc| || E[p].anc[k] in pend0
    ensures LeafMap(E, pend, p)
  {
    LeafStepSound(E, pend0, pend, p, k);
    LeafStepComplete(E, pend0, pend, p, k);
  }

  lemma LeafStepSound<L>(E: seq<Visit<L>>, pend0: map<int, int>, pend: map<int, int>, p: int, k: int)
    requires WalkShaped(E) && 0 <= p < |E| && Size(E[p].node) == 1
    requires LeafMap(E, pend0, p + 1)
    requires 0 <= k <= |E[p].anc|
    requires forall q :: q in pend <==> q in pend0 || q in E[p].anc[..k]
    requires forall q | q in pend0 :: pend[q] == pend0[q]
    requires forall m | 0 <= m < k :: E[p].anc[m] !in pend0 && E[p].anc[m] in pend && pend[E[p].anc[m]] == |E| - 1 - p
    ensures forall q | q in pend ::
      0 <= q < |E| && Size(E[q].node) > 1 && Last(E, q) >= p && pend[q] == |E| - 1 - Last(E, q)
  {
    var a := E[p].anc;
    forall q | q in pend
      ensures 0 <= q < |E| && Size(E[q].node) > 1 && Last(E, q) >= p && pend[q] == |E| - 1 - Last(E, q)
    {
      if q !in pend0 {
        assert q in a[..k];
        var m :| 0 <= m < k && a[m] == q;
        assert a[m] in a;
        assert Above(E, q, p);
      }
    }
  }

  lemma LeafStepComplete<L>(E: seq<Visit<L>>, pend0: map<int, int>, pend: map<int, int>, p: int, k: int)
    requires WalkShaped(E) && 0 <= p < |E| && Size(E[p].node) == 1
    requires LeafMap(E, pend0, p + 1)
    requires 0 <= k <= |E[p].anc|
    requires forall q :: q in pend <==> q in pend0 || q in E[p].anc[..k]
    requires k == |E[p].anc| || E[p].anc[k] in pend0
    ensures forall q | 0 <= q < |E| && Size(E[q].node) > 1 && Last(E, q) >= p :: q in pend
  {
    var a := E[p].anc;
    if k < |a| {
      RecordedBeyond(E, pend0, p, k);
    }
    forall q | 0 <= q < |E| && Size(E[q].node) > 1 && Last(E, q) >= p ensures q in pend {
      if Last(E, q) == p {
        assert Above(E, q, p);
        assert q in a;
        var m :| 0 <= m < |a| && a[m] == q;
        assert m < k;
        assert q in a[..k];
      }
    }
  }

  /** An inner node finds its leftmost leaf already recorded. */
  lemma InnerStep<L>(E: seq<Visit<L>>, pend: map<int, int>, p: int)
    requires WalkShaped(E) && 0 <= p < |E| && E[p].node.kids != []
    requires LeafMap(E, pend, p + 1)
    ensures p in pend && pend[p] == |E| - 1 - Last(E, p)
    ensures LeafMap(E, pend, p)
  {
    SizeLeaf(E[p].node);
    forall q | 0 <= q < |E| && Size(E[q].node) > 1 && Last(E, q) >= p ensures q in pend {
      if Last(E, q) == p {
        assert false;
      }
    }
  }

  /** The keyroot map sends each leftmost leaf seen so far to the last
    * position among the first `i` that has it. */
  ghost predicate KeyMap(lmds: seq<int>, keys: map<int, int>, i: int)
    requires 0 <= i <= |lmds|
  {
    (forall k | 0 <= k < i :: lmds[k] in keys) &&
    (forall l | l in keys :: 0 <= keys[l] < i && lmds[keys[l]] == l &&
       forall k | keys[l] < k < i :: lmds[k] != l)
  }

  lemma KeyMapStep(lmds: seq<int>, keys: map<int, int>, i: int)
    requires 0 <= i < |lmds| && KeyMap(lmds, keys, i)
    ensures KeyMap(lmds, keys[lmds[i] := i], i + 1)
  {
  }

  lemma KeyMapValues(lmds: seq<int>, keys: map<int, int>)
    requires KeyMap(lmds, keys, |lmds|)
    ensures (set l | l in keys :: keys[l]) == KeyRootsOf(lmds)
  {
    forall k | k in (set l | l in keys :: keys[l]) ensures k in KeyRootsOf(lmds) {
      var l :| l in keys && keys[l] == k;
    }
    forall k | k in KeyRootsOf(lmds) ensures k in (set l | l in keys :: keys[l]) {
      var l := lmds[k];
      assert l in keys;
      assert keys[l] == k;
    }
  }

  /** Pushes each child, in order, with the given ancestors. */
  method PushChildren<L>(stack: seq<(LTree<L>, seq<int>)>, kids: seq<LTree<L>>, anc: seq<int>)
    returns (r: seq<(LTree<L>, seq<int>)>)
    ensures r == stack + Children(kids, anc)
  {
    r := stack;
    for k := 0 to |kids|
      invariant r == stack + Children(kids[..k], anc)
    {
      assert Children(kids[..k + 1], anc) == Children(kids[..k], anc) + [(kids[k], anc)];
      r := r + [(kids[k], anc)];
    }
    assert kids[..|kids|] == kids;
  }

  /** The first pass: visits the nodes from a stack of pending subtrees,
    * numbering them in visiting order and recording each one's ancestors;
    * children are pushed in order, so the last child is visited first. */
  method Walk<L>(root: LTree<L>) returns (pstack: seq<Visit<L>>)
    ensures pstack == Pre(root, 0, [])
  {
    ghost var E := Pre(root, 0, []);
    PreLength(root, 0, []);
    var stack: seq<(LTree<L>, seq<int>)> := [(root, [])];
    pstack := [];
    var j := 0;
    assert Pending(stack, 0) == E by {
      assert stack[..0] == [];
    }
    while stack != []
      invariant pstack + Pending(stack, j) == E
      invariant j == |pstack|
      decreases |E| - |pstack|
    {
      var top := stack[|stack| - 1];
      PopTop(stack, j);
      stack := PushChildren(stack[..|stack| - 1], top.0.kids, [j] + top.1);
      pstack := pstack + [Visit(top.0, j, top.1)];
      j := j + 1;
    }
  }

  lemma LeafMapEmpty<L>(root: LTree<L>)
    ensures LeafMap(Pre(root, 0, []), map[], |Pre(root, 0, [])|)
  {
    WalkFromRoot(root);
  }

  /** A leaf at postorder position `i` becomes the recorded leftmost leaf of
    * its ancestors, nearest first, up to the first one already recorded. */
  method TellAncestors(pending: map<int, int>, anc: seq<int>, i: int) returns (r: map<int, int>, k: int)
    requires Descending(anc)
    ensures 0 <= k <= |anc|
    ensures forall q :: q in r <==> q in pending || q in anc[..k]
    ensures forall q | q in pending :: r[q] == pending[q]
    ensures forall m | 0 <= m < k :: anc[m] !in pending && anc[m] in r && r[anc[m]] == i
    ensures k == |anc| || anc[k] in pending
  {
    r := pending;
    k := 0;
    while k < |anc|
      invariant 0 <= k <= |anc|
      invariant forall q :: q in r <==> q in pending || q in anc[..k]
      invariant forall q | q in pending :: r[q] == pending[q]
      invariant forall m | 0 <= m < k :: anc[m] !in pending && anc[m] in r && r[anc[m]] == i
    {
      var x := anc[k];
      if x in r {
        assert x !in anc[..k];
        break;
      }
      r := r[x := i];
      assert anc[..k + 1] == anc[..k] + [x];
      k := k + 1;
    }
  }

  /** The leftmost leaf of the node popped at postorder position `i`: itself
    * if it is a leaf (which it then tells its ancestors), else the one its
    * leaf told it. */
  method LeftmostLeaf<L>(ghost root: LTree<L>, ghost E: seq<Visit<L>>, pending: map<int, int>, v: Visit<L>, i: int, ghost from: int)
    returns (r: map<int, int>, lmd: int)
    requires E == Pre(root, 0, [])
    requires 0 <= i < |E| && from == |E| - i && v == E[from - 1]
    requires LeafMap(E, pending, from)
    ensures LeafMap(E, r, from - 1)
    ensures lmd == i + 1 - Size(v.node)
  {
    WalkFromRoot(root);
    ghost var p := from - 1;
    if v.node.kids == [] {
      lmd := i;
      SizeLeaf(v.node);
      var k;
      r, k := TellAncestors(pending, v.anc, i);
      LeafStep(E, pending, r, p, k);
    } else {
      InnerStep(E, pending, p);
      r := pending;
      lmd := r[v.nid];
    }
  }

  /** The second pass: pops the visits back, so in postorder, and finds each
    * node's leftmost leaf. A leaf is its own, and tells its ancestors,
    * nearest first, until one already knows its leaf; an inner node looks its
    * leaf up. The keyroot map remembers, for each leftmost leaf, the last
    * node that has it. */
  method Unwind<L>(ghost root: LTree<L>, E: seq<Visit<L>>) returns (nodes: seq<nat>, labels: seq<L>, ids: seq<int>, lmds: seq<int>, keyRoots: map<int, int>)
    requires E == Pre(root, 0, [])
    ensures var P := Reversed(Nodes(E));
      nodes == Indices(P) && labels == Labels(P) && ids == WalkNumbers(|E|) && lmds == Lmds(P)
    ensures (set l | l in keyRoots :: keyRoots[l]) == KeyRootsOf(lmds)
  {
    var N := |E|;
    ghost var P := Reversed(Nodes(E));
    ghost var spec := Lmds(P);
    var pstack := E;
    nodes, labels, ids, lmds := [], [], [], [];
    var pending: map<int, int> := map[];
    keyRoots := map[];
    var i := 0;
    ghost var from := N;
    LeafMapEmpty(root);
    PreNid(root, 0, []);
    while pstack != []
      invariant 0 <= i <= N && pstack == E[..N - i] && from == N - i
      invariant nodes == Indices(P)[..i] && labels == Labels(P)[..i]
      invariant ids == WalkNumbers(N)[..i] && lmds == spec[..i]
      invariant LeafMap(E, pending, from)
      invariant KeyMap(spec, keyRoots, i)
      decreases |pstack|
    {
      var v := pstack[|pstack| - 1];
      assert v == E[N - 1 - i];
      assert P[i] == v.node;
      pstack := pstack[..|pstack| - 1];
      Extend(Indices(P), i, v.node.index);
      nodes := nodes + [v.node.index];
      Extend(Labels(P), i, v.node.data);
      labels := labels + [v.node.data];
      Extend(WalkNumbers(N), i, v.nid);
      ids := ids + [v.nid];
      var lmd;
      pending, lmd := LeftmostLeaf(root, E, pending, v, i, from);
      Extend(spec, i, lmd);
      lmds := lmds + [lmd];
      KeyMapStep(spec, keyRoots, i);
      keyRoots := keyRoots[lmd := i];
      i := i + 1;
      from := from - 1;
    }
    assert lmds == spec;
    KeyMapValues(spec, keyRoots);
  }

  lemma Extend<T>(s: seq<T>, i: int, x: T)
    requires 0 <= i < |s| && s[i] == x
    ensures s[..i + 1] == s[..i] + [x]
  {
  }

  /** Annotates a tree: the walk, then the unwinding, then the keyroots in
    * increasing order. */
  method Annotate<L>(root: LTree<L>) returns (a: Annotated<L>)
    ensures a == AnnotationOf(root)
  {
    var pstack := Walk(root);
    var nodes, labels, ids, lmds, keyRoots := Unwind(root, pstack);
    var kr := SortedList(set l | l in keyRoots :: keyRoots[l]);
    a := Annotated(nodes, labels, ids, lmds, kr);
    PreReversed(root, 0, []);
    PreLength(root, 0, []);
  }

  // ---------------------------------------------------------------------
  // What the annotation satisfies.

  /** The leftmost leaves of a tree nest, read off its walk. */
  lemma LmdsNest<L>(t: LTree<L>)
    ensures WellNested(Lmds(Post(t)))
  {
    var E := Pre(t, 0, []);
    WalkFromRoot(t);
    PreReversed(t, 0, []);
    PreSpans(t, 0, []);
    LmdsBounded(E, Post(t));
    LmdsNested(E, Post(t));
  }

  lemma LmdsBounded<L>(E: seq<Visit<L>>, P: seq<LTree<L>>)
    requires P == Reversed(Nodes(E))
    requires forall q | 0 <= q < |E| :: q + Size(E[q].node) <= |E|
    ensures forall i | 0 <= i < |P| :: 0 <= Lmds(P)[i] <= i
  {
    var N := |E|;
    forall i | 0 <= i < N ensures 0 <= Lmds(P)[i] <= i {
      assert P[i] == E[N - 1 - i].node;
    }
  }

  lemma LmdsNested<L>(E: seq<Visit<L>>, P: seq<LTree<L>>)
    requires P == Reversed(Nodes(E)) && WalkShaped(E)
    requires forall i | 0 <= i < |P| :: 0 <= Lmds(P)[i] <= i
    ensures forall i, k | 0 <= i < |P| && Lmds(P)[i] <= k <= i :: Lmds(P)[i] <= Lmds(P)[k]
  {
    var N := |E|;
    var lmds := Lmds(P);
    forall i, k | 0 <= i < N && lmds[i] <= k <= i ensures lmds[i] <= lmds[k] {
      var p, p' := N - 1 - i, N - 1 - k;
      assert P[i] == E[p].node && P[k] == E[p'].node;
      if p' != p {
        assert Above(E, p, p');
      }
    }
  }

  /** The annotation has one entry per node, its leftmost leaves nest, the
    * root comes last and spans the whole tree, a node is its own leftmost
    * leaf exactly when it is a leaf, and the keyroots increase and include
    * the root. */
  lemma AnnotationShape<L>(t: LTree<L>)
    ensures var a := AnnotationOf(t); var n := Size(t);
      |a.nodes| == n && |a.labels| == n && |a.ids| == n && |a.lmds| == n &&
      WellNested(a.lmds) && a.lmds[n - 1] == 0 &&
      (forall i | 0 <= i < n :: a.lmds[i] == i <==> Post(t)[i].kids == []) &&
      Increasing(a.keyRoots) && n - 1 in Elements(a.keyRoots)
  {
    var a := AnnotationOf(t);
    var P := Post(t);
    var n := Size(t);
    PostLength(t);
    LmdsNest(t);
    assert P[n - 1] == t;
    forall i | 0 <= i < n ensures a.lmds[i] == i <==> P[i].kids == [] {
      SizeLeaf(P[i]);
    }
    assert IsKeyRoot(a.lmds, n - 1);
  }
}
