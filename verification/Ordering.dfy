/** `sorted(...)` over a finite set, for any total order. */
module Ordering {
  import opened Core

  ghost predicate TotalOrder<T(!new)>(le: (T, T) -> bool) {
    && (forall x, y :: le(x, y) || le(y, x))
    && (forall x, y :: le(x, y) && le(y, x) ==> x == y)
    && (forall x, y, z :: le(x, y) && le(y, z) ==> le(x, z))
  }

  ghost predicate SortedBy<T(!new)>(xs: seq<T>, le: (T, T) -> bool) {
    forall i, j :: 0 <= i <= j < |xs| ==> le(xs[i], xs[j])
  }

  lemma LeastExists<T(!new)>(s: set<T>, le: (T, T) -> bool) returns (least: T)
    requires TotalOrder(le) && s != {}
    ensures least in s && forall y :: y in s ==> le(least, y)
  {
    var x :| x in s;
    if s == {x} {
      least := x;
    } else {
      var rest := LeastExists(s - {x}, le);
      least := if le(x, rest) then x else rest;
      forall y | y in s ensures le(least, y) {
        if y != x { assert y in s - {x}; }
      }
    }
  }

  lemma SortedCons<T(!new)>(least: T, rest: seq<T>, s: set<T>, le: (T, T) -> bool)
    requires TotalOrder(le) && Distinct(rest) && SortedBy(rest, le)
    requires least in s && Elements(rest) == s - {least} && forall y :: y in s ==> le(least, y)
    ensures Elements([least] + rest) == s && Distinct([least] + rest) && SortedBy([least] + rest, le)
  {
    assert forall x :: x in rest ==> x in Elements(rest);
    DistinctCons(least, rest);
    forall x | x in s ensures x in [least] + rest {
      if x != least { assert x in Elements(rest); }
    }
  }

  /** The elements of a set, least first. */
  function Sorted<T(==, !new)>(s: set<T>, le: (T, T) -> bool): (r: seq<T>)
    requires TotalOrder(le)
    ensures Elements(r) == s && Distinct(r) && SortedBy(r, le) && |r| == |s|
  {
    if s == {} then []
    else
      var least := Least(s, le);
      var rest := Sorted(s - {least}, le);
      SortedCons(least, rest, s, le);
      [least] + rest
  }

  function Least<T(==, !new)>(s: set<T>, le: (T, T) -> bool): (least: T)
    requires TotalOrder(le) && s != {}
    ensures least in s && forall y :: y in s ==> le(least, y)
  {
    LeastWitness(s, le);
    var x :| x in s && forall y :: y in s ==> le(x, y);
    x
  }

  lemma LeastWitness<T(!new)>(s: set<T>, le: (T, T) -> bool)
    requires TotalOrder(le) && s != {}
    ensures exists x :: x in s && forall y :: y in s ==> le(x, y)
  {
    var least := LeastExists(s, le);
  }
}
