/**
 * The table the editing distance fills: one forest table per pair of
 * keyroots, whose cells on the leftmost paths of the two keyroots are copied
 * into a tree table of subtree distances that later forest tables read. A
 * cell of the tree table holds a cost together with the script that
 * achieves it.
 */
module EditTable {
  import opened EditShapes
  import opened EditAnnotation
  import opened EditDistance
  import opened EdgeSets

  // ---------------------------------------------------------------------
  // Which forest table writes which cell of the tree table.

  /** The last node up to `k` that shares node `x`'s leftmost leaf. */
  ghost function KeyAt(lmds: seq<int>, x: int, k: int): (r: int)
    requires 0 <= x <= k < |lmds|
    ensures x <= r <= k && lmds[r] == lmds[x]
    ensures forall k' | r < k' <= k :: lmds[k'] != lmds[x]
    decreases k
  {
    if lmds[k] == lmds[x] then k else KeyAt(lmds, x, k - 1)
  }

  /** The keyroot whose forest table writes the tree-table cells of node
    * `x`: the last node with the same leftmost leaf. */
  ghost function KeyOf(lmds: seq<int>, x: int): (r: int)
    requires 0 <= x < |lmds|
    ensures x <= r < |lmds| && lmds[r] == lmds[x] && IsKeyRoot(lmds, r)
  {
    KeyAt(lmds, x, |lmds| - 1)
  }

  /** A node belongs to keyroot `i` exactly when it lies in the span of `i`
    * and shares its leftmost leaf. */
  lemma KeyOfIff(lmds: seq<int>, i: int, x: int)
    requires Spanned(lmds) && 0 <= i < |lmds| && IsKeyRoot(lmds, i) && 0 <= x < |lmds|
    ensures KeyOf(lmds, x) == i <==> lmds[i] <= x <= i && lmds[x] == lmds[i]
  {
    var r := KeyOf(lmds, x);
    if lmds[i] <= x <= i && lmds[x] == lmds[i] {
      if r < i {
        assert lmds[i] == lmds[x];
      }
    }
  }

  /** A node in the span of `i` with another leftmost leaf belongs to an
    * earlier keyroot. */
  lemma KeyBelow(lmds: seq<int>, i: int, x: int)
    requires Spanned(lmds) && 0 <= i < |lmds| && lmds[i] <= x <= i && lmds[x] != lmds[i]
    ensures KeyOf(lmds, x) < i
  {
    assert lmds[i] <= lmds[x];
  }

  /** The nodes from `i`'s leftmost leaf up to any point of its span form a
    * forest. */
  lemma Spans(lmds: seq<int>, i: int)
    requires Spanned(lmds) && 0 <= i < |lmds|
    ensures forall x2 | lmds[i] <= x2 <= i + 1 :: Closed(lmds, lmds[i], x2)
  {
  }

  /** The keyroot pair `(KeyOf x, KeyOf y)` comes before `(i, j)`. */
  ghost predicate Before(kx: int, ky: int, i: int, j: int) {
    kx < i || (kx == i && ky < j)
  }

  /** The tree table has one cell per pair of nodes. */
  ghost predicate Fits<L>(A: Annotated<L>, B: Annotated<L>, T: array2<Edit<L>>) {
    Shaped(A) && Shaped(B) && T.Length0 == |A.lmds| && T.Length1 == |B.lmds|
  }

  /** Every cell whose keyroot pair comes before `(i, j)` holds its subtree
    * distance. */
  ghost predicate Filled<L>(c: Costs<L>, A: Annotated<L>, B: Annotated<L>, T: array2<Edit<L>>, i: int, j: int)
    reads T
    requires Fits(A, B, T)
  {
    forall x, y | 0 <= x < T.Length0 && 0 <= y < T.Length1 && Before(KeyOf(A.lmds, x), KeyOf(B.lmds, y), i, j) ::
      T[x, y] == TreeEdit(c, A, B, x, y)
  }

  // ---------------------------------------------------------------------
  // One forest table.

  /** Forest-table cell `(x, y)` for leftmost leaves `x1`, `y1` holds the
    * distance between the first `x` nodes from `x1` and the first `y` from
    * `y1`. */
  ghost predicate Holds<L>(c: Costs<L>, A: Annotated<L>, B: Annotated<L>, fd: array2<Edit<L>>, x1: int, y1: int, x: int, y: int)
    reads fd
    requires 0 <= x < fd.Length0 && 0 <= y < fd.Length1
  {
    Shaped(A) && Shaped(B) && Closed(A.lmds, x1, x1 + x) && Closed(B.lmds, y1, y1 + y) && x1 < |A.lmds| &&
    fd[x, y] == Forest(c, A, B, x1, x1 + x, y1, y1 + y)
  }

  /** Cell `(x', y')` is filled before cell `(x, y)`: the first column
    * top-down (`y == 0`), then the rest row by row, the first row first. */
  ghost predicate Earlier(x': int, y': int, x: int, y: int) {
    if y == 0 then y' == 0 && x' < x else y' == 0 || x' < x || (x' == x && y' < y)
  }

  /** The cells filled before `(x, y)` hold. */
  ghost predicate Rows<L>(c: Costs<L>, A: Annotated<L>, B: Annotated<L>, fd: array2<Edit<L>>, x1: int, y1: int, x: int, y: int)
    reads fd
  {
    forall x', y' | 0 <= x' < fd.Length0 && 0 <= y' < fd.Length1 && Earlier(x', y', x, y) ::
      Holds(c, A, B, fd, x1, y1, x', y')
  }

  /** The forest table for keyroots `i` and `j` has one row per node of the
    * span of `i`, one column per node of the span of `j`, and one more of
    * each for the empty forest. */
  ghost predicate Table<L>(A: Annotated<L>, B: Annotated<L>, T: array2<Edit<L>>, fd: array2<Edit<L>>, i: int, j: int) {
    Fits(A, B, T) && fd != T &&
    0 <= i < |A.lmds| && 0 <= j < |B.lmds| && IsKeyRoot(A.lmds, i) && IsKeyRoot(B.lmds, j) &&
    fd.Length0 == i - A.lmds[i] + 2 && fd.Length1 == j - B.lmds[j] + 2
  }

  /** A forest pair whose last nodes both root their whole forests: the
    * turn edits the rest and then the data, and the result is the subtree
    * distance of the two last nodes. */
  lemma FastCell<L>(c: Costs<L>, A: Annotated<L>, B: Annotated<L>, x1: int, x2: int, y1: int, y2: int)
    requires Shaped(A) && Shaped(B) && Closed(A.lmds, x1, x2) && Closed(B.lmds, y1, y2) && x1 < x2 && y1 < y2
    requires A.lmds[x2 - 1] == x1 && B.lmds[y2 - 1] == y1
    ensures Closed(A.lmds, x1, x2 - 1) && Closed(B.lmds, y1, y2 - 1)
    ensures Forest(c, A, B, x1, x2, y1, y2) ==
      Cheapest(Removed(c, A, Forest(c, A, B, x1, x2 - 1, y1, y2), x2 - 1),
               Inserted(c, A, B, Forest(c, A, B, x1, x2, y1, y2 - 1), x2 - 1, y2 - 1),
               Changed(c, A, B, Forest(c, A, B, x1, x2 - 1, y1, y2 - 1), x2 - 1, y2 - 1))
    ensures Forest(c, A, B, x1, x2, y1, y2) == TreeEdit(c, A, B, x2 - 1, y2 - 1)
  {
  }

  /** Any other forest pair: the turn edits the forests before the two last
    * subtrees, then the one subtree into the other. */
  lemma SlowCell<L>(c: Costs<L>, A: Annotated<L>, B: Annotated<L>, x1: int, x2: int, y1: int, y2: int)
    requires Shaped(A) && Shaped(B) && Closed(A.lmds, x1, x2) && Closed(B.lmds, y1, y2) && x1 < x2 && y1 < y2
    requires A.lmds[x2 - 1] != x1 || B.lmds[y2 - 1] != y1
    ensures Closed(A.lmds, x1, A.lmds[x2 - 1]) && Closed(B.lmds, y1, B.lmds[y2 - 1])
    ensures var pre := Forest(c, A, B, x1, A.lmds[x2 - 1], y1, B.lmds[y2 - 1]);
      var sub := TreeEdit(c, A, B, x2 - 1, y2 - 1);
      Forest(c, A, B, x1, x2, y1, y2) ==
      Cheapest(Removed(c, A, Forest(c, A, B, x1, x2 - 1, y1, y2), x2 - 1),
               Inserted(c, A, B, Forest(c, A, B, x1, x2, y1, y2 - 1), x2 - 1, y2 - 1),
               Edit(pre.cost + sub.cost, pre.ops + sub.ops))
  {
  }

  /** A forest-table cell `(x, y)` on the leftmost paths of both keyroots,
    * whose forests start at `x1` and `y1`: the cheapest of removing the last
    * source node, inserting the last target node, or changing the one into
    * the other, first among equals; it is also the subtree distance of the
    * two last nodes. */
  method PathCell<L>(c: Costs<L>, A: Annotated<L>, B: Annotated<L>, rm: Edit<L>, ins: Edit<L>, ch: Edit<L>, x1: int, x: int, y1: int, y: int)
    returns (e: Edit<L>)
    requires Shaped(A) && Shaped(B) && 1 <= x && 1 <= y
    requires Closed(A.lmds, x1, x1 + x) && Closed(B.lmds, y1, y1 + y) && x1 < |A.lmds|
    requires Closed(A.lmds, x1, x1 + (x - 1)) && Closed(B.lmds, y1, y1 + (y - 1))
    requires A.lmds[x1 + x - 1] == x1 && B.lmds[y1 + y - 1] == y1
    requires rm == Forest(c, A, B, x1, x1 + (x - 1), y1, y1 + y) && ins == Forest(c, A, B, x1, x1 + x, y1, y1 + (y - 1))
    requires ch == Forest(c, A, B, x1, x1 + (x - 1), y1, y1 + (y - 1))
    ensures e == Forest(c, A, B, x1, x1 + x, y1, y1 + y) && e == TreeEdit(c, A, B, x1 + x - 1, y1 + y - 1)
  {
    FastCell(c, A, B, x1, x1 + x, y1, y1 + y);
    e := Cheapest(Removed(c, A, rm, x1 + x - 1), Inserted(c, A, B, ins, x1 + x - 1, y1 + y - 1), Changed(c, A, B, ch, x1 + x - 1, y1 + y - 1));
  }

  /** Any other forest-table cell: the turn edits the forests before the two
    * last subtrees (`pre`) and then the one subtree into the other (`sub`,
    * read from the tree table). */
  method OffPathCell<L>(c: Costs<L>, A: Annotated<L>, B: Annotated<L>, rm: Edit<L>, ins: Edit<L>, pre: Edit<L>, sub: Edit<L>, x1: int, x: int, y1: int, y: int)
    returns (e: Edit<L>)
    requires Shaped(A) && Shaped(B) && 1 <= x && 1 <= y
    requires Closed(A.lmds, x1, x1 + x) && Closed(B.lmds, y1, y1 + y) && x1 < |A.lmds|
    requires Closed(A.lmds, x1, x1 + (x - 1)) && Closed(B.lmds, y1, y1 + (y - 1))
    requires A.lmds[x1 + x - 1] != x1 || B.lmds[y1 + y - 1] != y1
    requires rm == Forest(c, A, B, x1, x1 + (x - 1), y1, y1 + y) && ins == Forest(c, A, B, x1, x1 + x, y1, y1 + (y - 1))
    requires var p, q := A.lmds[x1 + x - 1] - x1, B.lmds[y1 + y - 1] - y1;
      Closed(A.lmds, x1, x1 + p) && Closed(B.lmds, y1, y1 + q) &&
      pre == Forest(c, A, B, x1, x1 + p, y1, y1 + q)
    requires sub == TreeEdit(c, A, B, x1 + x - 1, y1 + y - 1)
    ensures e == Forest(c, A, B, x1, x1 + x, y1, y1 + y)
  {
    SlowCell(c, A, B, x1, x1 + x, y1, y1 + y);
    e := Cheapest(Removed(c, A, rm, x1 + x - 1), Inserted(c, A, B, ins, x1 + x - 1, y1 + y - 1), Edit(pre.cost + sub.cost, pre.ops + sub.ops));
  }

  /** Whether cell `(x, y)` of the forest table for keyroots `i` and `j`
    * lies on the leftmost paths of both. */
  ghost predicate OnPaths<L>(A: Annotated<L>, B: Annotated<L>, i: int, j: int, x: int, y: int)
    requires 0 <= i < |A.lmds| && 0 <= j < |B.lmds|
    requires 0 <= A.lmds[i] + x - 1 < |A.lmds| && 0 <= B.lmds[j] + y - 1 < |B.lmds|
  {
    A.lmds[A.lmds[i] + x - 1] == A.lmds[i] && B.lmds[B.lmds[j] + y - 1] == B.lmds[j]
  }

  /** The value of forest-table cell `(x, y)`, from the cells before it and,
    * off the leftmost paths, the tree table; on the paths it is the subtree
    * distance of the two last nodes. */
  method CellValue<L>(c: Costs<L>, A: Annotated<L>, B: Annotated<L>, T: array2<Edit<L>>, fd: array2<Edit<L>>, i: int, j: int, x: int, y: int)
    returns (e: Edit<L>)
    requires Table(A, B, T, fd, i, j) && 1 <= x < fd.Length0 && 1 <= y < fd.Length1
    requires Holds(c, A, B, fd, A.lmds[i], B.lmds[j], x - 1, y) && Holds(c, A, B, fd, A.lmds[i], B.lmds[j], x, y - 1)
    requires Holds(c, A, B, fd, A.lmds[i], B.lmds[j], x - 1, y - 1)
    requires var x1, y1 := A.lmds[i], B.lmds[j];
      var X, Y := x1 + x - 1, y1 + y - 1;
      A.lmds[X] != x1 || B.lmds[Y] != y1 ==>
        x1 <= A.lmds[X] <= X && y1 <= B.lmds[Y] <= Y &&
        Holds(c, A, B, fd, x1, y1, A.lmds[X] - x1, B.lmds[Y] - y1) && T[X, Y] == TreeEdit(c, A, B, X, Y)
    ensures Closed(A.lmds, A.lmds[i], A.lmds[i] + x) && Closed(B.lmds, B.lmds[j], B.lmds[j] + y)
    ensures e == Forest(c, A, B, A.lmds[i], A.lmds[i] + x, B.lmds[j], B.lmds[j] + y)
    ensures OnPaths(A, B, i, j, x, y) ==> e == TreeEdit(c, A, B, A.lmds[i] + x - 1, B.lmds[j] + y - 1)
  {
    var x1, y1 := A.lmds[i], B.lmds[j];
    var X, Y := x1 + x - 1, y1 + y - 1;
    var rm, ins := fd[x - 1, y], fd[x, y - 1];
    if A.lmds[X] == x1 && B.lmds[Y] == y1 {
      var ch := fd[x - 1, y - 1];
      e := PathCell(c, A, B, rm, ins, ch, x1, x, y1, y);
    } else {
      var pre := fd[A.lmds[X] - x1, B.lmds[Y] - y1];
      var sub := T[X, Y];
      e := OffPathCell(c, A, B, rm, ins, pre, sub, x1, x, y1, y);
    }
  }

  /** Before cell `(x, y)` is filled, the cells it reads hold: its three
    * neighbours, and off the leftmost paths the forest cell before the two
    * last subtrees and the tree-table cell of an earlier keyroot pair. */
  lemma Ready<L>(c: Costs<L>, A: Annotated<L>, B: Annotated<L>, T: array2<Edit<L>>, fd: array2<Edit<L>>, i: int, j: int, x: int, y: int)
    requires Table(A, B, T, fd, i, j) && 1 <= x < fd.Length0 && 1 <= y < fd.Length1
    requires Filled(c, A, B, T, i, j)
    requires Rows(c, A, B, fd, A.lmds[i], B.lmds[j], x, y)
    ensures Holds(c, A, B, fd, A.lmds[i], B.lmds[j], x - 1, y) && Holds(c, A, B, fd, A.lmds[i], B.lmds[j], x, y - 1)
    ensures Holds(c, A, B, fd, A.lmds[i], B.lmds[j], x - 1, y - 1)
    ensures var x1, y1 := A.lmds[i], B.lmds[j];
      var X, Y := x1 + x - 1, y1 + y - 1;
      A.lmds[X] != x1 || B.lmds[Y] != y1 ==>
        x1 <= A.lmds[X] <= X && y1 <= B.lmds[Y] <= Y &&
        Holds(c, A, B, fd, x1, y1, A.lmds[X] - x1, B.lmds[Y] - y1) && T[X, Y] == TreeEdit(c, A, B, X, Y)
  {
    var x1, y1 := A.lmds[i], B.lmds[j];
    var X, Y := x1 + x - 1, y1 + y - 1;
    Spans(A.lmds, i);
    Spans(B.lmds, j);
    if A.lmds[X] != x1 || B.lmds[Y] != y1 {
      assert x1 <= A.lmds[X] <= X && y1 <= B.lmds[Y] <= Y;
      if A.lmds[X] != x1 {
        KeyBelow(A.lmds, i, X);
      } else {
        KeyOfIff(A.lmds, i, X);
        KeyBelow(B.lmds, j, Y);
      }
      assert Before(KeyOf(A.lmds, X), KeyOf(B.lmds, Y), i, j);
    }
  }

  /** Stores the value of forest-table cell `(x, y)`. */
  method Store<L>(c: Costs<L>, A: Annotated<L>, B: Annotated<L>, fd: array2<Edit<L>>, x1: int, y1: int, x: int, y: int, e: Edit<L>)
    requires 0 <= x < fd.Length0 && 0 <= y < fd.Length1 && Rows(c, A, B, fd, x1, y1, x, y)
    requires Shaped(A) && Shaped(B) && Closed(A.lmds, x1, x1 + x) && Closed(B.lmds, y1, y1 + y) && x1 < |A.lmds|
    requires e == Forest(c, A, B, x1, x1 + x, y1, y1 + y)
    modifies fd
    ensures y == 0 ==> Rows(c, A, B, fd, x1, y1, x + 1, 0)
    ensures y > 0 ==> Rows(c, A, B, fd, x1, y1, x, y + 1)
  {
    fd[x, y] := e;
    forall x', y' | 0 <= x' < fd.Length0 && 0 <= y' < fd.Length1 && Earlier(x', y', if y == 0 then x + 1 else x, if y == 0 then 0 else y + 1)
      ensures Holds(c, A, B, fd, x1, y1, x', y')
    {
      if x' != x || y' != y {
        assert old(Holds(c, A, B, fd, x1, y1, x', y'));
      }
    }
  }

  /** Writes one cell of the tree table and no other. */
  method Put<L>(T: array2<Edit<L>>, X: int, Y: int, e: Edit<L>)
    requires 0 <= X < T.Length0 && 0 <= Y < T.Length1
    modifies T
    ensures forall x', y' | 0 <= x' < T.Length0 && 0 <= y' < T.Length1 ::
      T[x', y'] == if x' == X && y' == Y then e else old(T[x', y'])
  {
    T[X, Y] := e;
  }

  /** Copies the subtree distance of forest-table cell `(x, y)`, on the
    * leftmost paths, into the tree table. */
  method Copy<L>(c: Costs<L>, A: Annotated<L>, B: Annotated<L>, T: array2<Edit<L>>, i: int, j: int, x: int, y: int, e: Edit<L>)
    requires Fits(A, B, T) && 0 <= i < |A.lmds| && 0 <= j < |B.lmds|
    requires 0 <= A.lmds[i] + x - 1 < T.Length0 && 0 <= B.lmds[j] + y - 1 < T.Length1
    requires Filled(c, A, B, T, i, j) && Written(c, A, B, T, i, j, x, y)
    requires e == TreeEdit(c, A, B, A.lmds[i] + x - 1, B.lmds[j] + y - 1)
    modifies T
    ensures Filled(c, A, B, T, i, j) && Written(c, A, B, T, i, j, x, y + 1)
    ensures forall x', y' | 0 <= x' < T.Length0 && 0 <= y' < T.Length1 ::
      T[x', y'] == if x' == A.lmds[i] + x - 1 && y' == B.lmds[j] + y - 1 then e else old(T[x', y'])
  {
    var X, Y := A.lmds[i] + x - 1, B.lmds[j] + y - 1;
    Put(T, X, Y, e);
    forall x', y' | 0 <= x' < T.Length0 && 0 <= y' < T.Length1 && Before(KeyOf(A.lmds, x'), KeyOf(B.lmds, y'), i, j)
      ensures T[x', y'] == TreeEdit(c, A, B, x', y')
    {
    }
    forall x', y' | 0 <= x' < T.Length0 && 0 <= y' < T.Length1 && A.lmds[i] <= x' && B.lmds[j] <= y' <= j &&
      A.lmds[x'] == A.lmds[i] && B.lmds[y'] == B.lmds[j] &&
      (x' < X || (x' == X && y' < Y + 1))
      ensures T[x', y'] == TreeEdit(c, A, B, x', y')
    {
    }
  }

  /** Off the leftmost paths nothing is copied. */
  lemma Skip<L>(c: Costs<L>, A: Annotated<L>, B: Annotated<L>, T: array2<Edit<L>>, i: int, j: int, x: int, y: int)
    requires Fits(A, B, T) && 0 <= i < |A.lmds| && 0 <= j < |B.lmds|
    requires 0 <= A.lmds[i] + x - 1 < T.Length0 && 0 <= B.lmds[j] + y - 1 < T.Length1
    requires A.lmds[A.lmds[i] + x - 1] != A.lmds[i] || B.lmds[B.lmds[j] + y - 1] != B.lmds[j]
    requires Written(c, A, B, T, i, j, x, y)
    ensures Written(c, A, B, T, i, j, x, y + 1)
  {
  }

  /** Fills forest-table cell `(x, y)`, and on the leftmost paths of both
    * keyroots copies it to the tree table as the subtree distance. */
  method FillCell<L>(c: Costs<L>, A: Annotated<L>, B: Annotated<L>, T: array2<Edit<L>>, fd: array2<Edit<L>>, i: int, j: int, x: int, y: int)
    requires Table(A, B, T, fd, i, j) && 1 <= x < fd.Length0 && 1 <= y < fd.Length1
    requires Filled(c, A, B, T, i, j) && Written(c, A, B, T, i, j, x, y)
    requires Rows(c, A, B, fd, A.lmds[i], B.lmds[j], x, y)
    modifies T, fd
    ensures Rows(c, A, B, fd, A.lmds[i], B.lmds[j], x, y + 1)
    ensures Filled(c, A, B, T, i, j) && Written(c, A, B, T, i, j, x, y + 1)
    ensures var X, Y := A.lmds[i] + x - 1, B.lmds[j] + y - 1;
      forall x', y' | 0 <= x' < T.Length0 && 0 <= y' < T.Length1 ::
        T[x', y'] == if x' == X && y' == Y && A.lmds[X] == A.lmds[i] && B.lmds[Y] == B.lmds[j] then TreeEdit(c, A, B, X, Y) else old(T[x', y'])
  {
    Ready(c, A, B, T, fd, i, j, x, y);
    var e := CellValue(c, A, B, T, fd, i, j, x, y);
    Store(c, A, B, fd, A.lmds[i], B.lmds[j], x, y, e);
    Settle(c, A, B, T, i, j, x, y, e);
  }

  /** Copies the new forest-table cell into the tree table when it lies on
    * the leftmost paths of both keyroots; off the paths nothing changes. */
  method Settle<L>(c: Costs<L>, A: Annotated<L>, B: Annotated<L>, T: array2<Edit<L>>, i: int, j: int, x: int, y: int, e: Edit<L>)
    requires Fits(A, B, T) && 0 <= i < |A.lmds| && 0 <= j < |B.lmds|
    requires 0 <= A.lmds[i] + x - 1 < T.Length0 && 0 <= B.lmds[j] + y - 1 < T.Length1
    requires Filled(c, A, B, T, i, j) && Written(c, A, B, T, i, j, x, y)
    requires OnPaths(A, B, i, j, x, y) ==> e == TreeEdit(c, A, B, A.lmds[i] + x - 1, B.lmds[j] + y - 1)
    modifies T
    ensures Filled(c, A, B, T, i, j) && Written(c, A, B, T, i, j, x, y + 1)
    ensures var X, Y := A.lmds[i] + x - 1, B.lmds[j] + y - 1;
      forall x', y' | 0 <= x' < T.Length0 && 0 <= y' < T.Length1 ::
        T[x', y'] == if x' == X && y' == Y && A.lmds[X] == A.lmds[i] && B.lmds[Y] == B.lmds[j] then TreeEdit(c, A, B, X, Y) else old(T[x', y'])
  {
    if A.lmds[A.lmds[i] + x - 1] == A.lmds[i] && B.lmds[B.lmds[j] + y - 1] == B.lmds[j] {
      Copy(c, A, B, T, i, j, x, y, e);
    } else {
      Skip(c, A, B, T, i, j, x, y);
    }
  }

  // ---------------------------------------------------------------------
  // Whole rows, the border, and one forest table.

  /** The tree-table cells of keyroot pair `(i, j)` whose forest-table cells
    * come before `(x, y)` hold their subtree distances. */
  ghost predicate Written<L>(c: Costs<L>, A: Annotated<L>, B: Annotated<L>, T: array2<Edit<L>>, i: int, j: int, x: int, y: int)
    reads T
    requires Fits(A, B, T) && 0 <= i < |A.lmds| && 0 <= j < |B.lmds|
  {
    forall X, Y | 0 <= X < T.Length0 && 0 <= Y < T.Length1 && A.lmds[i] <= X && B.lmds[j] <= Y <= j &&
      A.lmds[X] == A.lmds[i] && B.lmds[Y] == B.lmds[j] &&
      (X < A.lmds[i] + x - 1 || (X == A.lmds[i] + x - 1 && Y < B.lmds[j] + y - 1)) ::
      T[X, Y] == TreeEdit(c, A, B, X, Y)
  }

  /** A finished row lets the next one start after its first column. */
  lemma NextRow<L>(c: Costs<L>, A: Annotated<L>, B: Annotated<L>, fd: array2<Edit<L>>, x1: int, y1: int, x: int)
    requires Rows(c, A, B, fd, x1, y1, x, fd.Length1) && 1 <= fd.Length1
    ensures Rows(c, A, B, fd, x1, y1, x + 1, 1)
  {
    forall x', y' | 0 <= x' < fd.Length0 && 0 <= y' < fd.Length1 && Earlier(x', y', x + 1, 1)
      ensures Holds(c, A, B, fd, x1, y1, x', y')
    {
      assert Earlier(x', y', x, fd.Length1);
    }
  }

  /** Fills row `x` of the forest table for keyroots `i` and `j`. */
  method FillRow<L>(c: Costs<L>, A: Annotated<L>, B: Annotated<L>, T: array2<Edit<L>>, fd: array2<Edit<L>>, i: int, j: int, x: int)
    requires Table(A, B, T, fd, i, j) && 1 <= x < fd.Length0
    requires Filled(c, A, B, T, i, j) && Written(c, A, B, T, i, j, x, 1)
    requires Rows(c, A, B, fd, A.lmds[i], B.lmds[j], x, 1)
    modifies T, fd
    ensures Filled(c, A, B, T, i, j) && Written(c, A, B, T, i, j, x + 1, 1)
    ensures Rows(c, A, B, fd, A.lmds[i], B.lmds[j], x + 1, 1)
  {
    var y := 1;
    while y < fd.Length1
      invariant 1 <= y <= fd.Length1
      invariant Filled(c, A, B, T, i, j) && Written(c, A, B, T, i, j, x, y)
      invariant Rows(c, A, B, fd, A.lmds[i], B.lmds[j], x, y)
    {
      FillCell(c, A, B, T, fd, i, j, x, y);
      y := y + 1;
    }
    NextRow(c, A, B, fd, A.lmds[i], B.lmds[j], x);
  }

  /** The first column: the forests of the span of `i` against the empty
    * forest, each removing one more node. */
  method FirstColumn<L>(c: Costs<L>, A: Annotated<L>, B: Annotated<L>, T: array2<Edit<L>>, fd: array2<Edit<L>>, i: int, j: int)
    requires Table(A, B, T, fd, i, j) && fd[0, 0] == Edit(0, [])
    modifies fd
    ensures Rows(c, A, B, fd, A.lmds[i], B.lmds[j], 0, 1)
  {
    var x1, y1 := A.lmds[i], B.lmds[j];
    Spans(A.lmds, i);
    Spans(B.lmds, j);
    assert Holds(c, A, B, fd, x1, y1, 0, 0);
    var x := 1;
    while x < fd.Length0
      invariant 1 <= x <= fd.Length0 && Rows(c, A, B, fd, x1, y1, x, 0)
    {
      assert Holds(c, A, B, fd, x1, y1, x - 1, 0);
      Store(c, A, B, fd, x1, y1, x, 0, Removed(c, A, fd[x - 1, 0], x1 + x - 1));
      x := x + 1;
    }
    forall x', y' | 0 <= x' < fd.Length0 && 0 <= y' < fd.Length1 && Earlier(x', y', 0, 1)
      ensures Holds(c, A, B, fd, x1, y1, x', y')
    {
      assert Earlier(x', y', fd.Length0, 0);
    }
  }

  /** The first row: the empty forest against the forests of the span of
    * `j`, each inserting one more node, named by the first node of the span
    * of `i`. */
  method FirstRow<L>(c: Costs<L>, A: Annotated<L>, B: Annotated<L>, T: array2<Edit<L>>, fd: array2<Edit<L>>, i: int, j: int)
    requires Table(A, B, T, fd, i, j) && Rows(c, A, B, fd, A.lmds[i], B.lmds[j], 0, 1)
    modifies fd
    ensures Rows(c, A, B, fd, A.lmds[i], B.lmds[j], 1, 1)
  {
    var x1, y1 := A.lmds[i], B.lmds[j];
    Spans(A.lmds, i);
    Spans(B.lmds, j);
    var y := 1;
    while y < fd.Length1
      invariant 1 <= y <= fd.Length1 && Rows(c, A, B, fd, x1, y1, 0, y)
    {
      assert Holds(c, A, B, fd, x1, y1, 0, y - 1);
      Store(c, A, B, fd, x1, y1, 0, y, Inserted(c, A, B, fd[0, y - 1], x1, y1 + y - 1));
      y := y + 1;
    }
    NextRow(c, A, B, fd, x1, y1, 0);
  }

  /** After the forest table of `(i, j)` every tree-table cell of that
    * keyroot pair holds its subtree distance. */
  lemma Done<L>(c: Costs<L>, A: Annotated<L>, B: Annotated<L>, T: array2<Edit<L>>, i: int, j: int)
    requires Fits(A, B, T) && 0 <= i < |A.lmds| && 0 <= j < |B.lmds| && IsKeyRoot(A.lmds, i) && IsKeyRoot(B.lmds, j)
    requires Filled(c, A, B, T, i, j) && Written(c, A, B, T, i, j, i - A.lmds[i] + 2, 1)
    ensures Filled(c, A, B, T, i, j + 1)
  {
    forall x, y | 0 <= x < T.Length0 && 0 <= y < T.Length1 && Before(KeyOf(A.lmds, x), KeyOf(B.lmds, y), i, j + 1)
      ensures T[x, y] == TreeEdit(c, A, B, x, y)
    {
      if !Before(KeyOf(A.lmds, x), KeyOf(B.lmds, y), i, j) {
        KeyOfIff(A.lmds, i, x);
        KeyOfIff(B.lmds, j, y);
      }
    }
  }

  /** The forest table of keyroots `i` and `j`: fills it and copies the
    * subtree distances on the leftmost paths of both into the tree table. */
  method TreeDist<L>(c: Costs<L>, A: Annotated<L>, B: Annotated<L>, T: array2<Edit<L>>, i: int, j: int)
    requires Fits(A, B, T) && 0 <= i < |A.lmds| && 0 <= j < |B.lmds| && IsKeyRoot(A.lmds, i) && IsKeyRoot(B.lmds, j)
    requires Filled(c, A, B, T, i, j)
    modifies T
    ensures Filled(c, A, B, T, i, j + 1)
  {
    var m, n := i - A.lmds[i] + 2, j - B.lmds[j] + 2;
    var fd := new Edit<L>[m, n]((_, _) => Edit(0, []));
    FirstColumn(c, A, B, T, fd, i, j);
    FirstRow(c, A, B, T, fd, i, j);
    var x := 1;
    while x < m
      invariant 1 <= x <= m
      invariant Filled(c, A, B, T, i, j) && Written(c, A, B, T, i, j, x, 1)
      invariant Rows(c, A, B, fd, A.lmds[i], B.lmds[j], x, 1)
    {
      FillRow(c, A, B, T, fd, i, j, x);
      x := x + 1;
    }
    Done(c, A, B, T, i, j);
  }

  // ---------------------------------------------------------------------
  // All keyroot pairs.

  /** `K` lists the keyroots of `lmds` in increasing order. */
  ghost predicate Keyed(lmds: seq<int>, K: seq<int>) {
    Increasing(K) && Elements(K) == KeyRootsOf(lmds)
  }

  /** The keyroot after the `k`-th, or `n` past the last. */
  function Next(K: seq<int>, k: int, n: int): int
    requires 0 <= k
  {
    if k < |K| then K[k] else n
  }

  /** No keyroot lies strictly between the `k`-th and the next. */
  lemma Gap(lmds: seq<int>, K: seq<int>, k: int)
    requires Keyed(lmds, K) && 0 <= k < |K|
    ensures forall v | v in KeyRootsOf(lmds) && v < Next(K, k + 1, |lmds|) :: v <= K[k]
  {
    forall v | v in KeyRootsOf(lmds) && v < Next(K, k + 1, |lmds|) ensures v <= K[k] {
      assert v in Elements(K);
      var p :| 0 <= p < |K| && K[p] == v;
    }
  }

  /** No keyroot lies before the first. */
  lemma First(lmds: seq<int>, K: seq<int>)
    requires Keyed(lmds, K)
    ensures forall x | 0 <= x < |lmds| :: Next(K, 0, |lmds|) <= KeyOf(lmds, x)
  {
    forall x | 0 <= x < |lmds| ensures Next(K, 0, |lmds|) <= KeyOf(lmds, x) {
      var v := KeyOf(lmds, x);
      assert v in Elements(K);
      var p :| 0 <= p < |K| && K[p] == v;
      assert K[0] <= K[p];
    }
  }

  /** What holds up to one keyroot pair holds up to another whose earlier
    * pairs are all earlier than the first. */
  lemma Reach<L>(c: Costs<L>, A: Annotated<L>, B: Annotated<L>, T: array2<Edit<L>>, i: int, j: int, i2: int, j2: int)
    requires Fits(A, B, T) && Filled(c, A, B, T, i, j)
    requires forall kx, ky | kx in KeyRootsOf(A.lmds) && ky in KeyRootsOf(B.lmds) && Before(kx, ky, i2, j2) :: Before(kx, ky, i, j)
    ensures Filled(c, A, B, T, i2, j2)
  {
    forall x, y | 0 <= x < T.Length0 && 0 <= y < T.Length1 && Before(KeyOf(A.lmds, x), KeyOf(B.lmds, y), i2, j2)
      ensures T[x, y] == TreeEdit(c, A, B, x, y)
    {
      assert KeyOf(A.lmds, x) in KeyRootsOf(A.lmds) && KeyOf(B.lmds, y) in KeyRootsOf(B.lmds);
    }
  }

  /** One row of keyroot pairs: keyroot `i` of the source against every
    * keyroot of the target in increasing order. */
  method KeyRow<L>(c: Costs<L>, A: Annotated<L>, B: Annotated<L>, T: array2<Edit<L>>, i: int)
    requires Fits(A, B, T) && Keyed(B.lmds, B.keyRoots) && i in KeyRootsOf(A.lmds)
    requires Filled(c, A, B, T, i, 0)
    modifies T
    ensures Filled(c, A, B, T, i, |B.lmds|)
  {
    var KB := B.keyRoots;
    First(B.lmds, KB);
    assert Filled(c, A, B, T, i, Next(KB, 0, |B.lmds|));
    var kb := 0;
    while kb < |KB|
      invariant 0 <= kb <= |KB| && Filled(c, A, B, T, i, Next(KB, kb, |B.lmds|))
    {
      assert KB[kb] in Elements(KB);
      TreeDist(c, A, B, T, i, KB[kb]);
      Gap(B.lmds, KB, kb);
      Reach(c, A, B, T, i, KB[kb] + 1, i, Next(KB, kb + 1, |B.lmds|));
      kb := kb + 1;
    }
  }

  /** Every keyroot pair in increasing order: afterwards every tree-table
    * cell holds its subtree distance. */
  method AllPairs<L>(c: Costs<L>, A: Annotated<L>, B: Annotated<L>, T: array2<Edit<L>>)
    requires Fits(A, B, T) && Keyed(A.lmds, A.keyRoots) && Keyed(B.lmds, B.keyRoots)
    modifies T
    ensures forall x, y | 0 <= x < T.Length0 && 0 <= y < T.Length1 :: T[x, y] == TreeEdit(c, A, B, x, y)
  {
    var KA := A.keyRoots;
    First(A.lmds, KA);
    assert Filled(c, A, B, T, Next(KA, 0, |A.lmds|), 0);
    var ka := 0;
    while ka < |KA|
      invariant 0 <= ka <= |KA| && Filled(c, A, B, T, Next(KA, ka, |A.lmds|), 0)
    {
      assert KA[ka] in Elements(KA);
      KeyRow(c, A, B, T, KA[ka]);
      Gap(A.lmds, KA, ka);
      Reach(c, A, B, T, KA[ka], |B.lmds|, Next(KA, ka + 1, |A.lmds|), 0);
      ka := ka + 1;
    }
    forall x, y | 0 <= x < T.Length0 && 0 <= y < T.Length1 ensures T[x, y] == TreeEdit(c, A, B, x, y) {
      assert Before(KeyOf(A.lmds, x), KeyOf(B.lmds, y), |A.lmds|, 0);
    }
  }
}
