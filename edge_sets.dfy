/**
 * The two edge-set flavours of the library: a sorted set, enumerated in
 * increasing order, and an ordered set, enumerated in insertion order. Both are
 * backed by a sequence without duplicates; the functions below are the
 * operations on that backing, the two classes the mutable wrappers around it.
 */
module EdgeSets {
  import opened GraphErrors
  import opened ElementIDs

  /** The members of a sequence. */
  function Elements(s: seq<int>): set<int> {
    set x | x in s
  }

  /** Strictly increasing: the enumeration order of a sorted set. */
  ghost predicate Increasing(s: seq<int>) {
    forall i, j :: 0 <= i < j < |s| ==> s[i] < s[j]
  }

  /** No member twice: what an ordered set guarantees. */
  ghost predicate Distinct(s: seq<int>) {
    forall i, j :: 0 <= i < j < |s| ==> s[i] != s[j]
  }

  lemma IncreasingIsDistinct(s: seq<int>)
    requires Increasing(s)
    ensures Distinct(s)
  {
  }

  lemma EmptyElements(s: seq<int>)
    ensures Elements(s) == {} <==> s == []
  {
    if s != [] {
      assert s[0] in Elements(s);
    }
  }

  lemma IncreasingFirstIsLeast(s: seq<int>)
    requires Increasing(s) && s != []
    ensures forall y | y in Elements(s) :: s[0] <= y
  {
    forall y | y in Elements(s) ensures s[0] <= y {
      var k :| 0 <= k < |s| && s[k] == y;
    }
  }

  /** A list without repeats has as many members as entries. */
  lemma {:induction false} DistinctCard(s: seq<int>)
    requires Distinct(s)
    ensures |Elements(s)| == |s|
  {
    if s != [] {
      DistinctCard(s[1..]);
      assert Elements(s) == {s[0]} + Elements(s[1..]) by { assert s == [s[0]] + s[1..]; }
      assert s[0] !in Elements(s[1..]);
    }
  }

  /** A sorted sequence is determined by its members. */
  lemma {:induction false} IncreasingUnique(s: seq<int>, t: seq<int>)
    requires Increasing(s) && Increasing(t)
    requires Elements(s) == Elements(t)
    ensures s == t
  {
    EmptyElements(s);
    EmptyElements(t);
    if s != [] {
      IncreasingFirstIsLeast(s);
      IncreasingFirstIsLeast(t);
      assert s[0] in Elements(t) && t[0] in Elements(s);
      assert s[0] == t[0];
      IncreasingHead(s);
      IncreasingHead(t);
      ElementsCons(s[0], s[1..]);
      ElementsCons(t[0], t[1..]);
      assert s == [s[0]] + s[1..] && t == [t[0]] + t[1..];
      assert s[0] !in Elements(s[1..]) && t[0] !in Elements(t[1..]);
      assert Elements(s[1..]) == Elements(t[1..]);
      IncreasingUnique(s[1..], t[1..]);
    }
  }

  lemma ElementsCons(a: int, s: seq<int>)
    ensures Elements([a] + s) == {a} + Elements(s)
  {
    assert forall x | x in [a] + s :: x == a || x in s;
  }

  /** One more member of a prefix. */
  lemma ElementsPrefix(s: seq<int>, i: nat)
    requires i < |s|
    ensures Elements(s[..i + 1]) == Elements(s[..i]) + {s[i]}
  {
    assert s[..i + 1] == s[..i] + [s[i]];
  }

  lemma IncreasingHead(s: seq<int>)
    requires Increasing(s) && s != []
    ensures forall y | y in Elements(s[1..]) :: s[0] < y
  {
    forall y | y in Elements(s[1..]) ensures s[0] < y {
      var k :| 0 <= k < |s[1..]| && s[1..][k] == y;
      assert s[k + 1] == y;
    }
  }

  lemma IncreasingCons(a: int, s: seq<int>)
    requires Increasing(s)
    requires forall y | y in Elements(s) :: a < y
    ensures Increasing([a] + s)
  {
    forall i, j | 0 <= i < j < |[a] + s| ensures ([a] + s)[i] < ([a] + s)[j] {
      if i == 0 {
        assert ([a] + s)[j] == s[j - 1];
        assert s[j - 1] in Elements(s);
      }
    }
  }

  lemma DistinctCons(a: int, s: seq<int>)
    requires Distinct(s) && a !in s
    ensures Distinct([a] + s)
  {
    forall i, j | 0 <= i < j < |[a] + s| ensures ([a] + s)[i] != ([a] + s)[j] {
      if i == 0 {
        assert ([a] + s)[j] == s[j - 1];
      }
    }
  }

  lemma ConsOfSubset(s: seq<int>, rest: seq<int>)
    requires s != [] && Elements(rest) <= Elements(s[1..])
    ensures Increasing(s) && Increasing(rest) ==> Increasing([s[0]] + rest)
    ensures Distinct(s) && Distinct(rest) ==> Distinct([s[0]] + rest)
  {
    if Increasing(s) && Increasing(rest) {
      IncreasingHead(s);
      IncreasingCons(s[0], rest);
    }
    if Distinct(s) && Distinct(rest) {
      assert s[0] !in s[1..];
      assert s[0] !in Elements(s[1..]);
      assert s[0] !in rest;
      DistinctCons(s[0], rest);
    }
  }

  /** `SortedSet.insert`: adds a member in its place; a present member changes nothing. */
  function SortedInsert(s: seq<int>, x: int): (r: seq<int>)
    requires Increasing(s)
    ensures Increasing(r)
    ensures Elements(r) == Elements(s) + {x}
    ensures x in s ==> r == s
  {
    if s == [] then [x]
    else if x < s[0] then [x] + s
    else if x == s[0] then s
    else
      var rest := SortedInsert(s[1..], x);
      SortedInsertStep(s, x, rest);
      SortedInsertPresent(s, x, rest);
      [s[0]] + rest
  }

  /** The recursive case of `SortedInsert`: the head stays in front of the larger members. */
  lemma SortedInsertStep(s: seq<int>, x: int, rest: seq<int>)
    requires Increasing(s) && s != [] && s[0] < x
    requires Increasing(rest) && Elements(rest) == Elements(s[1..]) + {x}
    ensures Increasing([s[0]] + rest)
    ensures Elements([s[0]] + rest) == Elements(s) + {x}
  {
    IncreasingHead(s);
    IncreasingCons(s[0], rest);
    ElementsCons(s[0], rest);
    ElementsCons(s[0], s[1..]);
    assert s == [s[0]] + s[1..];
  }

  /** In the recursive case of `SortedInsert` a present member is found further on. */
  lemma SortedInsertPresent(s: seq<int>, x: int, rest: seq<int>)
    requires s != [] && s[0] != x
    requires x in s[1..] ==> rest == s[1..]
    ensures x in s ==> [s[0]] + rest == s
  {
    if x in s {
      assert s == [s[0]] + s[1..];
    }
  }

  /** `OrderedSet.append`: adds a member at the end; a present member changes nothing. */
  function OrderedAppend(s: seq<int>, x: int): (r: seq<int>)
    requires Distinct(s)
    ensures Distinct(r)
    ensures Elements(r) == Elements(s) + {x}
    ensures x !in s ==> r[|r| - 1] == x && Without(r, x) == s
    ensures x in s ==> r == s
  {
    if x in s then s
    else
      WithoutAppend(s, x);
      s + [x]
  }

  /**
   * `OrderedSet.insert(_:at:)` behind the `(0...count).contains(index)` guard:
   * an index outside `0...count` throws `invalidIndex`; a present member
   * changes nothing; otherwise the member lands at `index`.
   */
  function OrderedInsertAt(s: seq<int>, x: int, index: int): (r: Result<seq<int>>)
    requires Distinct(s)
    ensures r.Err? <==> !(0 <= index <= |s|)
    ensures r.Err? ==> r.error == InvalidIndex
    ensures r.Ok? ==> Distinct(r.value) && Elements(r.value) == Elements(s) + {x}
    ensures r.Ok? && x !in s ==> FirstIndex(r.value, x) == Ok(index) && Without(r.value, x) == s
    ensures r.Ok? && x in s ==> r.value == s
  {
    if !(0 <= index <= |s|) then Err(InvalidIndex)
    else if x in s then Ok(s)
    else
      var v := s[..index] + [x] + s[index..];
      InsertAtMembers(s, x, index);
      InsertAtDistinct(s, x, index);
      InsertAtFound(s, x, index);
      WithoutInsert(s, x, index);
      Ok(v)
  }

  lemma InsertAtMembers(s: seq<int>, x: int, index: nat)
    requires index <= |s|
    ensures Elements(s[..index] + [x] + s[index..]) == Elements(s) + {x}
  {
    assert s == s[..index] + s[index..];
  }

  lemma InsertAtDistinct(s: seq<int>, x: int, index: nat)
    requires Distinct(s) && x !in s && index <= |s|
    ensures Distinct(s[..index] + [x] + s[index..])
  {
    var v := s[..index] + [x] + s[index..];
    forall i, j | 0 <= i < j < |v| ensures v[i] != v[j] {
      if i < index && j > index {
        assert v[i] == s[i] && v[j] == s[j - 1];
      } else if j < index {
        assert v[i] == s[i] && v[j] == s[j];
      } else if i > index {
        assert v[i] == s[i - 1] && v[j] == s[j - 1];
      } else if i == index {
        assert v[j] == s[j - 1];
      } else {
        assert v[i] == s[i];
      }
    }
  }

  lemma InsertAtFound(s: seq<int>, x: int, index: nat)
    requires x !in s && index <= |s|
    ensures FirstIndex(s[..index] + [x] + s[index..], x) == Ok(index)
  {
    var v := s[..index] + [x] + s[index..];
    assert v[index] == x;
    assert v[..index] == s[..index];
    FirstIndexAt(v, x, index);
  }

  /** `remove` on either flavour: drops one member, the others keep their order. */
  function Without(s: seq<int>, x: int): (r: seq<int>)
    ensures Elements(r) == Elements(s) - {x}
    ensures x !in s ==> r == s
    ensures Increasing(s) ==> Increasing(r)
    ensures Distinct(s) ==> Distinct(r)
    ensures Distinct(s) && x in s ==> |r| == |s| - 1
  {
    if s == [] then []
    else
      TailOrder(s);
      var rest := Without(s[1..], x);
      WithoutStepMembers(s, x, rest);
      WithoutStepOrder(s, x, rest);
      WithoutStepLength(s, x, rest);
      if s[0] == x then rest else [s[0]] + rest
  }

  /** The tail of an ordered sequence keeps the order. */
  lemma TailOrder(s: seq<int>)
    requires s != []
    ensures Increasing(s) ==> Increasing(s[1..])
    ensures Distinct(s) ==> Distinct(s[1..])
    ensures Distinct(s) ==> s[0] !in s[1..]
  {
  }

  lemma WithoutStepMembers(s: seq<int>, x: int, rest: seq<int>)
    requires s != [] && Elements(rest) == Elements(s[1..]) - {x}
    requires x !in s[1..] ==> rest == s[1..]
    ensures var r := if s[0] == x then rest else [s[0]] + rest;
      Elements(r) == Elements(s) - {x} && (x !in s ==> r == s)
  {
    ElementsCons(s[0], s[1..]);
    ElementsCons(s[0], rest);
    HeadTail(s);
  }

  lemma WithoutStepOrder(s: seq<int>, x: int, rest: seq<int>)
    requires s != [] && Elements(rest) == Elements(s[1..]) - {x}
    requires Increasing(s[1..]) ==> Increasing(rest)
    requires Distinct(s[1..]) ==> Distinct(rest)
    requires Increasing(s) ==> Increasing(s[1..])
    requires Distinct(s) ==> Distinct(s[1..])
    ensures var r := if s[0] == x then rest else [s[0]] + rest;
      (Increasing(s) ==> Increasing(r)) && (Distinct(s) ==> Distinct(r))
  {
    if s[0] != x {
      ConsOfSubset(s, rest);
    }
  }

  lemma WithoutStepLength(s: seq<int>, x: int, rest: seq<int>)
    requires s != []
    requires Distinct(s) ==> Distinct(s[1..]) && s[0] !in s[1..]
    requires Distinct(s[1..]) && x in s[1..] ==> |rest| == |s| - 2
    requires x !in s[1..] ==> rest == s[1..]
    ensures var r := if s[0] == x then rest else [s[0]] + rest;
      Distinct(s) && x in s ==> |r| == |s| - 1
  {
    HeadTail(s);
  }

  lemma {:induction false} WithoutAppend(s: seq<int>, x: int)
    requires x !in s
    ensures Without(s + [x], x) == s
  {
    if s == [] {
    } else {
      assert (s + [x])[1..] == s[1..] + [x];
      WithoutAppend(s[1..], x);
      assert s == [s[0]] + s[1..];
    }
  }

  lemma {:induction false} WithoutInsert(s: seq<int>, x: int, index: nat)
    requires x !in s && index <= |s|
    ensures Without(s[..index] + [x] + s[index..], x) == s
  {
    var v := s[..index] + [x] + s[index..];
    if index == 0 {
      assert v == [x] + s;
      WithoutCons(v, x);
      assert v[1..] == s;
      WithoutAbsent(s, x);
    } else {
      InsertTail(s, x, index);
      WithoutInsert(s[1..], x, index - 1);
      WithoutCons(v, x);
      HeadTail(s);
    }
  }

  /** One step of `Without`. */
  lemma WithoutCons(s: seq<int>, x: int)
    requires s != []
    ensures Without(s, x) == if s[0] == x then Without(s[1..], x) else [s[0]] + Without(s[1..], x)
  {
  }

  /** Removing an absent member changes nothing. */
  lemma WithoutAbsent(s: seq<int>, x: int)
    requires x !in s
    ensures Without(s, x) == s
  {
  }

  /** Inserting past the head commutes with dropping the head. */
  lemma InsertTail(s: seq<int>, x: int, index: nat)
    requires 0 < index <= |s|
    ensures var v := s[..index] + [x] + s[index..];
      v[0] == s[0] && v[1..] == s[1..][..index - 1] + [x] + s[1..][index - 1..]
  {
  }

  /** The first position of a member, or `notFound`: `firstIndex(of:)` behind a guard. */
  function FirstIndex(s: seq<int>, x: int): (r: Result<nat>)
    ensures r.Ok? <==> x in s
    ensures r.Ok? ==> r.value < |s| && s[r.value] == x && x !in s[..r.value]
    ensures r.Err? ==> r.error == NotFound
  {
    if s == [] then Err(NotFound)
    else if s[0] == x then Ok(0)
    else
      match FirstIndex(s[1..], x)
      case Ok(i) =>
        assert s[..i + 1] == [s[0]] + s[1..][..i];
        Ok(i + 1)
      case Err(e) => Err(e)
  }

  /** A member first seen at `i` is found at `i`. */
  lemma {:induction false} FirstIndexAt(s: seq<int>, x: int, i: nat)
    requires i < |s| && s[i] == x && x !in s[..i]
    ensures FirstIndex(s, x) == Ok(i)
  {
    if i > 0 {
      assert s[0] == s[..i][0];
      assert s[1..][..i - 1] == s[..i][1..];
      FirstIndexAt(s[1..], x, i - 1);
    }
  }

  /** Sorting keeps exactly the members. */
  lemma SortKeepsMembers(s: seq<int>)
    ensures forall m :: m in Sort(s) <==> m in s
  {
    forall m ensures m in Sort(s) <==> m in s {
      assert m in Sort(s) <==> m in Elements(Sort(s));
      assert m in s <==> m in Elements(s);
    }
  }

  /** The members in increasing order: what building a `SortedSet` from a sequence yields. */
  function Sort(s: seq<int>): (r: seq<int>)
    ensures Increasing(r)
    ensures Elements(r) == Elements(s)
  {
    if s == [] then []
    else
      var init := s[..|s| - 1];
      assert Elements(s) == Elements(init) + {s[|s| - 1]} by {
        assert s == init + [s[|s| - 1]];
      }
      SortedInsert(Sort(init), s[|s| - 1])
  }

  /** `filter`: the members satisfying `p`, in their original order. */
  function Keep(s: seq<int>, p: int -> bool): (r: seq<int>)
    ensures Elements(r) == set x | x in s && p(x)
    ensures |r| <= |s|
    ensures Increasing(s) ==> Increasing(r)
    ensures Distinct(s) ==> Distinct(r)
  {
    if s == [] then []
    else
      var rest := Keep(s[1..], p);
      KeepStepMembers(s, p, rest);
      if p(s[0]) then
        ConsOfSubset(s, rest);
        [s[0]] + rest
      else rest
  }

  /** The members `Keep` keeps, one step at a time. */
  lemma KeepStepMembers(s: seq<int>, p: int -> bool, rest: seq<int>)
    requires s != [] && Elements(rest) == set x | x in s[1..] && p(x)
    ensures Elements(rest) <= Elements(s[1..])
    ensures p(s[0]) ==> Elements([s[0]] + rest) == set x | x in s && p(x)
    ensures !p(s[0]) ==> Elements(rest) == set x | x in s && p(x)
  {
    ElementsCons(s[0], rest);
    HeadTail(s);
    var y := s[0];
    assert forall x | x in s :: x == y || x in s[1..];
  }

  /** One step of `Keep`: the head stays exactly when it passes. */
  lemma KeepCons(s: seq<int>, p: int -> bool)
    requires s != []
    ensures Keep(s, p) == if p(s[0]) then [s[0]] + Keep(s[1..], p) else Keep(s[1..], p)
  {
  }

  /** A non-empty sequence is its head followed by its tail. */
  lemma HeadTail(s: seq<int>)
    requires s != []
    ensures s == [s[0]] + s[1..]
  {
  }

  /** Filtering by a test every member passes keeps the sequence. */
  lemma {:induction false} KeepAll(s: seq<int>, p: int -> bool)
    requires forall x | x in s :: p(x)
    ensures Keep(s, p) == s
  {
    if s != [] {
      var y := s[0];
      assert y in s && p(y);
      forall x | x in s[1..] ensures p(x) {
        assert x in s;
      }
      KeepAll(s[1..], p);
      KeepCons(s, p);
      HeadTail(s);
    }
  }

  /** Filtering depends only on the test's answers for the members. */
  lemma {:induction false} KeepAgree(s: seq<int>, p: int -> bool, q: int -> bool)
    requires forall x | x in s :: p(x) == q(x)
    ensures Keep(s, p) == Keep(s, q)
  {
    if s != [] {
      var y := s[0];
      assert y in s && p(y) == q(y);
      forall x | x in s[1..] ensures p(x) == q(x) {
        assert x in s;
      }
      KeepAgree(s[1..], p, q);
      KeepCons(s, p);
      KeepCons(s, q);
    }
  }

  /** Filtering twice is filtering once by a test that asks both. */
  lemma {:induction false} KeepKeep(s: seq<int>, p: int -> bool, q: int -> bool, both: int -> bool)
    requires forall x :: both(x) == (p(x) && q(x))
    ensures Keep(Keep(s, p), q) == Keep(s, both)
  {
    if s != [] {
      KeepKeep(s[1..], p, q, both);
      var y := s[0];
      assert both(y) == (p(y) && q(y));
      KeepCons(s, p);
      KeepCons(s, both);
      if p(y) {
        var k := Keep(s, p);
        assert k[0] == y && k[1..] == Keep(s[1..], p);
        KeepCons(k, q);
      }
    }
  }

  /** Removing a member is filtering it out. */
  lemma {:induction false} WithoutIsKeep(s: seq<int>, x: int)
    ensures Without(s, x) == Keep(s, y => y != x)
  {
    if s != [] {
      WithoutIsKeep(s[1..], x);
      KeepCons(s, y => y != x);
    }
  }

  /**
   * A list without repeats that holds `x` first at `i` and, without `x`,
   * is `s` is `s` with `x` inserted at `i`.
   */
  lemma PlacedAt(r: seq<int>, s: seq<int>, x: int, i: nat)
    requires Distinct(r) && FirstIndex(r, x) == Ok(i) && Without(r, x) == s
    ensures i <= |s| && r == s[..i] + [x] + s[i..]
  {
    var t := r[..i] + r[i + 1..];
    SplitAt(r, i);
    OnlyAt(r, i);
    WithoutInsert(t, x, i);
  }

  /** In a list without repeats, dropping the member at `i` cuts out position `i`. */
  lemma WithoutAt(s: seq<int>, i: nat)
    requires Distinct(s) && i < |s|
    ensures Without(s, s[i]) == s[..i] + s[i + 1..]
  {
    var t := s[..i] + s[i + 1..];
    SplitAt(s, i);
    OnlyAt(s, i);
    WithoutInsert(t, s[i], i);
  }

  /** Cutting out position `i` and putting it back gives the sequence. */
  lemma SplitAt(r: seq<int>, i: nat)
    requires i < |r|
    ensures var t := r[..i] + r[i + 1..]; |t| == |r| - 1 && r == t[..i] + [r[i]] + t[i..]
  {
    var t := r[..i] + r[i + 1..];
    assert t[..i] == r[..i] && t[i..] == r[i + 1..];
  }

  /** In a list without repeats, the member at `i` occurs nowhere else. */
  lemma OnlyAt(r: seq<int>, i: nat)
    requires Distinct(r) && i < |r|
    ensures r[i] !in r[..i] + r[i + 1..]
  {
    forall k | 0 <= k < |r| && k != i ensures r[k] != r[i] {
    }
  }

  /** `SortedEdgeSet`: the backing `SortedSet` is kept in increasing order. */
  class SortedEdgeSet {
    var items: seq<EdgeID>

    ghost predicate Valid()
      reads this
    {
      Increasing(items)
    }

    constructor ()
      ensures Valid() && items == []
    {
      items := [];
    }

    /** `isEmpty`. */
    function IsEmpty(): (r: bool)
      reads this
      ensures r <==> Elements(items) == {}
    {
      EmptyElements(items);
      |items| == 0
    }

    /** `count`: the number of members. */
    function Count(): (r: nat)
      reads this
      ensures Valid() ==> r == |Elements(items)|
    {
      assert Valid() ==> |Elements(items)| == |items| by {
        if Valid() {
          IncreasingIsDistinct(items);
          DistinctCard(items);
        }
      }
      |items|
    }

    method Insert(x: EdgeID)
      requires Valid()
      modifies this
      ensures Valid() && items == SortedInsert(old(items), x)
    {
      items := SortedInsert(items, x);
    }

    /** A sorted set has no positions to insert at. */
    method InsertAt(x: EdgeID, index: int) returns (r: Outcome)
      requires Valid()
      ensures r == Fail(NotOrdered)
    {
      r := Fail(NotOrdered);
    }

    method Remove(x: EdgeID)
      requires Valid()
      modifies this
      ensures Valid() && items == Without(old(items), x)
    {
      items := Without(items, x);
    }

    function Union(s: seq<EdgeID>): (r: seq<EdgeID>)
      reads this
      ensures Increasing(r)
      ensures Elements(r) == Elements(items) + Elements(s)
    {
      Sort(items + s)
    }

    method Filter(p: EdgeID -> bool) returns (r: SortedEdgeSet)
      requires Valid()
      ensures fresh(r) && r.Valid() && r.items == Keep(items, p)
    {
      r := new SortedEdgeSet();
      r.items := Keep(items, p);
    }

    /** `index(of:)`: the position of a member, or `notFound`. */
    function IndexOf(x: EdgeID): (r: Result<nat>)
      reads this
      ensures r.Ok? <==> x in items
      ensures r.Ok? ==> r.value < |items| && items[r.value] == x && x !in items[..r.value]
      ensures r.Err? ==> r.error == NotFound
    {
      FirstIndex(items, x)
    }

    /** `array`: the members in enumeration order, each at the position
      * `index(of:)` gives it. */
    function Array(): (r: seq<EdgeID>)
      reads this
      ensures Elements(r) == Elements(items) && |r| == |items|
      ensures Valid() ==> Increasing(r)
      ensures Valid() ==> forall i | 0 <= i < |r| :: IndexOf(r[i]) == Ok(i)
    {
      assert Valid() ==> forall i | 0 <= i < |items| :: FirstIndex(items, items[i]) == Ok(i) by {
        if Valid() {
          IncreasingIsDistinct(items);
          forall i | 0 <= i < |items| ensures FirstIndex(items, items[i]) == Ok(i) {
            var k := FirstIndex(items, items[i]).value;
            assert items[k] == items[i];
          }
        }
      }
      items
    }
  }

  /** `OrderedEdgeSet`: the backing `OrderedSet` keeps insertion order. */
  class OrderedEdgeSet {
    var items: seq<EdgeID>

    ghost predicate Valid()
      reads this
    {
      Distinct(items)
    }

    constructor ()
      ensures Valid() && items == []
    {
      items := [];
    }

    /** `isEmpty`. */
    function IsEmpty(): (r: bool)
      reads this
      ensures r <==> Elements(items) == {}
    {
      EmptyElements(items);
      |items| == 0
    }

    /** `count`: the number of members. */
    function Count(): (r: nat)
      reads this
      ensures Valid() ==> r == |Elements(items)|
    {
      assert Valid() ==> |Elements(items)| == |items| by {
        if Valid() {
          DistinctCard(items);
        }
      }
      |items|
    }

    method Insert(x: EdgeID)
      requires Valid()
      modifies this
      ensures Valid() && items == OrderedAppend(old(items), x)
    {
      items := OrderedAppend(items, x);
    }

    method InsertAt(x: EdgeID, index: int) returns (r: Outcome)
      requires Valid()
      modifies this
      ensures Valid()
      ensures r.Fail? <==> !(0 <= index <= old(|items|))
      ensures r.Fail? ==> r.error == InvalidIndex && items == old(items)
      ensures r.Pass? ==> OrderedInsertAt(old(items), x, index) == Ok(items)
    {
      match OrderedInsertAt(items, x, index)
      case Err(e) => r := Fail(e);
      case Ok(v) => items := v; r := Pass;
    }

    method Remove(x: EdgeID)
      requires Valid()
      modifies this
      ensures Valid() && items == Without(old(items), x)
    {
      items := Without(items, x);
    }

    function Union(s: seq<EdgeID>): (r: seq<EdgeID>)
      reads this
      ensures Increasing(r)
      ensures Elements(r) == Elements(items) + Elements(s)
    {
      Sort(Sort(items) + Sort(s))
    }

    method Filter(p: EdgeID -> bool) returns (r: OrderedEdgeSet)
      requires Valid()
      ensures fresh(r) && r.Valid() && r.items == Keep(items, p)
    {
      r := new OrderedEdgeSet();
      r.items := Keep(items, p);
    }

    /** `index(of:)`: the position of a member, or `notFound`. */
    function IndexOf(x: EdgeID): (r: Result<nat>)
      reads this
      ensures r.Ok? <==> x in items
      ensures r.Ok? ==> r.value < |items| && items[r.value] == x && x !in items[..r.value]
      ensures r.Err? ==> r.error == NotFound
    {
      FirstIndex(items, x)
    }

    /** `array`: the members in enumeration order, each at the position
      * `index(of:)` gives it. */
    function Array(): (r: seq<EdgeID>)
      reads this
      ensures Elements(r) == Elements(items) && |r| == |items|
      ensures Valid() ==> Distinct(r)
      ensures Valid() ==> forall i | 0 <= i < |r| :: IndexOf(r[i]) == Ok(i)
    {
      assert Valid() ==> forall i | 0 <= i < |items| :: FirstIndex(items, items[i]) == Ok(i) by {
        if Valid() {
          forall i | 0 <= i < |items| ensures FirstIndex(items, items[i]) == Ok(i) {
            var k := FirstIndex(items, items[i]).value;
            assert items[k] == items[i];
          }
        }
      }
      items
    }
  }
}
