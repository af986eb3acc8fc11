/**
 * Sets of identifiers enumerated in increasing order: the order in which a
 * `SortedSet` of node or edge identifiers is walked.
 */
module SetOrder {
  import opened EdgeSets

  /** A set is empty or has a member (extensionality, stated once). */
  lemma EmptyOrMember(s: set<int>)
    ensures s == {} || exists x :: x in s
  {
    if forall x :: x !in s {
      assert s == {};
    }
  }

  /** Every non-empty set of ids has a least member. */
  lemma {:induction false} LeastExists(s: set<int>)
    requires s != {}
    ensures exists m :: m in s && forall y | y in s :: m <= y
    decreases |s|
  {
    EmptyOrMember(s);
    var x :| x in s;
    var r := s - {x};
    assert |r| == |s| - 1;
    EmptyOrMember(r);
    if r == {} {
      forall y | y in s ensures x <= y {
        assert y !in r;
      }
    } else {
      LeastExists(r);
      var m :| m in r && forall y | y in r :: m <= y;
      var least := if x < m then x else m;
      forall y | y in s ensures least <= y {
        if y != x { assert y in r; }
      }
      assert least in s;
    }
  }

  /** The least member of a non-empty set. */
  ghost function Least(s: set<int>): (m: int)
    requires s != {}
    ensures m in s && forall y | y in s :: m <= y
  {
    LeastExists(s);
    var m :| m in s && forall y | y in s :: m <= y; m
  }

  /** A set enumerated in increasing order, as a `SortedSet` built from it is. */
  ghost function SortedElements(s: set<int>): (r: seq<int>)
    ensures Increasing(r)
    ensures Elements(r) == s
    ensures |r| == |s|
    decreases |s|
  {
    if s == {} then []
    else
      var m := Least(s);
      var rest := SortedElements(s - {m});
      IncreasingCons(m, rest);
      ElementsCons(m, rest);
      [m] + rest
  }

  /** Any least member is the least member. */
  lemma LeastUnique(s: set<int>, m: int)
    requires m in s && forall y | y in s :: m <= y
    ensures m == Least(s)
  {
  }

  lemma AppendAssociates(a: seq<int>, b: seq<int>, c: seq<int>)
    ensures a + (b + c) == (a + b) + c
  {
  }

  /** Enumerates a set in increasing order, one least member at a time. */
  method SortedList(s: set<int>) returns (r: seq<int>)
    ensures r == SortedElements(s)
  {
    r := [];
    var rest := s;
    while rest != {}
      invariant r + SortedElements(rest) == SortedElements(s)
      decreases |rest|
    {
      LeastExists(rest);
      var m :| m in rest && forall y | y in rest :: m <= y;
      LeastUnique(rest, m);
      var tail := SortedElements(rest - {m});
      assert SortedElements(rest) == [m] + tail;
      AppendAssociates(r, [m], tail);
      r := r + [m];
      rest := rest - {m};
    }
  }
}
