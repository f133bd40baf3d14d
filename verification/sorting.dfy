/** Sorting a list of names with a fixed total order, as Array.prototype.toSorted does. */
module Sorting {
  import opened Prelude

  type Order = (string, string) -> bool

  ghost predicate TotalOrder(le: Order) {
    && (forall a, b :: le(a, b) || le(b, a))
    && (forall a, b :: le(a, b) && le(b, a) ==> a == b)
    && (forall a, b, c :: le(a, b) && le(b, c) ==> le(a, c))
  }

  ghost predicate Ascending(le: Order, xs: seq<string>) {
    forall i, j :: 0 <= i < j < |xs| ==> le(xs[i], xs[j])
  }

  function Insert(le: Order, x: string, xs: seq<string>): seq<string> {
    if xs == [] then [x]
    else if le(x, xs[0]) then [x] + xs
    else [xs[0]] + Insert(le, x, xs[1..])
  }

  function Sort(le: Order, xs: seq<string>): seq<string> {
    if xs == [] then [] else Insert(le, xs[0], Sort(le, xs[1..]))
  }

  lemma {:induction false} InsertMultiset(le: Order, x: string, xs: seq<string>)
    ensures multiset(Insert(le, x, xs)) == multiset(xs) + multiset{x}
  {
    if xs != [] {
      assert xs == [xs[0]] + xs[1..];
      InsertMultiset(le, x, xs[1..]);
    }
  }

  lemma AscendingCons(le: Order, x: string, xs: seq<string>)
    requires Ascending(le, xs) && forall y :: y in xs ==> le(x, y)
    ensures Ascending(le, [x] + xs)
  {
  }

  lemma {:induction false} InsertSorted(le: Order, x: string, xs: seq<string>)
    requires TotalOrder(le) && Ascending(le, xs)
    ensures Ascending(le, Insert(le, x, xs))
  {
    if xs == [] {
    } else if le(x, xs[0]) {
      forall y | y in xs
        ensures le(x, y)
      {
        var j :| 0 <= j < |xs| && xs[j] == y;
        assert j == 0 || le(xs[0], xs[j]);
      }
      AscendingCons(le, x, xs);
    } else {
      InsertSorted(le, x, xs[1..]);
      InsertMultiset(le, x, xs[1..]);
      var tail := Insert(le, x, xs[1..]);
      forall y | y in tail
        ensures le(xs[0], y)
      {
        assert y in multiset(tail);
        assert y == x || y in xs[1..];
      }
      AscendingCons(le, xs[0], tail);
    }
  }

  /** The result is in order and is a rearrangement of the input. */
  lemma {:induction false} SortSorts(le: Order, xs: seq<string>)
    requires TotalOrder(le)
    ensures Ascending(le, Sort(le, xs)) && multiset(Sort(le, xs)) == multiset(xs)
  {
    if xs != [] {
      SortSorts(le, xs[1..]);
      InsertSorted(le, xs[0], Sort(le, xs[1..]));
      InsertMultiset(le, xs[0], Sort(le, xs[1..]));
      assert xs == [xs[0]] + xs[1..];
    }
  }

  lemma WithoutFirst(xs: seq<string>)
    requires xs != []
    ensures multiset(xs[1..]) == multiset(xs) - multiset{xs[0]}
  {
    assert xs == [xs[0]] + xs[1..];
  }

  lemma FirstIsLeast(le: Order, xs: seq<string>, y: string)
    requires TotalOrder(le) && Ascending(le, xs) && xs != [] && y in multiset(xs)
    ensures le(xs[0], y)
  {
    var j :| 0 <= j < |xs| && xs[j] == y;
    assert j == 0 || le(xs[0], xs[j]);
  }

  lemma {:induction false} AscendingUnique(le: Order, xs: seq<string>, ys: seq<string>)
    requires TotalOrder(le) && Ascending(le, xs) && Ascending(le, ys) && multiset(xs) == multiset(ys)
    ensures xs == ys
  {
    assert |multiset(xs)| == |xs| && |multiset(ys)| == |ys|;
    if xs != [] {
      FirstIsLeast(le, xs, ys[0]);
      FirstIsLeast(le, ys, xs[0]);
      assert xs == [xs[0]] + xs[1..] && ys == [ys[0]] + ys[1..];
      WithoutFirst(xs);
      WithoutFirst(ys);
      AscendingUnique(le, xs[1..], ys[1..]);
    }
  }

  lemma {:induction false} DistinctMultiset(xs: seq<string>, x: string)
    requires Distinct(xs)
    ensures multiset(xs)[x] == if x in xs then 1 else 0
  {
    if xs != [] {
      assert xs == [xs[0]] + xs[1..];
      DistinctMultiset(xs[1..], x);
    }
  }

  /** The order in which distinct names were listed does not show in the sorted list. */
  lemma {:induction false} SortForgetsOrder(le: Order, xs: seq<string>, ys: seq<string>)
    requires TotalOrder(le) && Distinct(xs) && Distinct(ys) && forall x :: x in xs <==> x in ys
    ensures Sort(le, xs) == Sort(le, ys)
  {
    forall x | x in multiset(xs) || x in multiset(ys)
      ensures multiset(xs)[x] == multiset(ys)[x]
    {
      DistinctMultiset(xs, x);
      DistinctMultiset(ys, x);
    }
    SortSorts(le, xs);
    SortSorts(le, ys);
    AscendingUnique(le, Sort(le, xs), Sort(le, ys));
  }

  lemma {:induction false} SortKeepsDistinct(le: Order, xs: seq<string>)
    requires TotalOrder(le) && Distinct(xs)
    ensures Distinct(Sort(le, xs)) && |Sort(le, xs)| == |xs|
    ensures forall x :: x in Sort(le, xs) <==> x in xs
  {
    SortSorts(le, xs);
    var ys := Sort(le, xs);
    assert |multiset(ys)| == |ys| && |multiset(xs)| == |xs|;
    assert forall x :: x in ys <==> x in multiset(ys);
    forall i, j | 0 <= i < j < |ys|
      ensures ys[i] != ys[j]
    {
      DistinctMultiset(xs, ys[i]);
      if ys[i] == ys[j] {
        TwiceCounted(ys, i, j);
      }
    }
  }

  lemma TwiceCounted(ys: seq<string>, i: nat, j: nat)
    requires i < j < |ys| && ys[i] == ys[j]
    ensures multiset(ys)[ys[i]] >= 2
  {
    assert ys == ys[..j] + [ys[j]] + ys[j + 1..];
    assert ys[i] in ys[..j];
  }

  /** `[...new Set(xs)]` */
  function Dedupe(xs: seq<string>): seq<string> {
    if xs == [] then []
    else
      var before := Dedupe(xs[..|xs| - 1]);
      if xs[|xs| - 1] in before then before else before + [xs[|xs| - 1]]
  }

  lemma {:induction false} DedupeDistinct(xs: seq<string>)
    requires Distinct(xs)
    ensures Dedupe(xs) == xs
  {
    if xs != [] {
      DedupeDistinct(xs[..|xs| - 1]);
      assert xs == xs[..|xs| - 1] + [xs[|xs| - 1]];
    }
  }
}
