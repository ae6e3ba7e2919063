/** Sorting by a total order: what Python's `sorted` and `list.sort` promise. */
module Sorting {

  ghost predicate IsTotalOrder<T(!new)>(leq: (T, T) -> bool) {
    && (forall x, y :: leq(x, y) || leq(y, x))
    && (forall x, y, z :: leq(x, y) && leq(y, z) ==> leq(x, z))
  }

  ghost predicate IsSorted<T>(s: seq<T>, leq: (T, T) -> bool) {
    forall i, j :: 0 <= i < j < |s| ==> leq(s[i], s[j])
  }

  lemma SortedBehind<T>(x: T, s: seq<T>, leq: (T, T) -> bool)
    requires IsSorted(s, leq) && forall y :: y in s ==> leq(x, y)
    ensures IsSorted([x] + s, leq)
  {
    var r := [x] + s;
    assert forall j :: 0 < j < |r| ==> r[j] == s[j - 1];
  }

  /** What comes after the first of a sorted list is no smaller, and stays so with `x` among it. */
  lemma FirstIsLeast<T(!new)>(x: T, s: seq<T>, rest: seq<T>, leq: (T, T) -> bool)
    requires IsTotalOrder(leq) && IsSorted(s, leq) && |s| > 0 && !leq(x, s[0])
    requires multiset(rest) == multiset(s[1..]) + multiset{x}
    ensures forall y :: y in rest ==> leq(s[0], y)
  {
    forall y | y in rest
      ensures leq(s[0], y)
    {
      assert y in multiset(rest);
    }
  }

  lemma LeastOfAll<T(!new)>(x: T, s: seq<T>, leq: (T, T) -> bool)
    requires IsTotalOrder(leq) && IsSorted(s, leq) && |s| > 0 && leq(x, s[0])
    ensures forall y :: y in s ==> leq(x, y)
  {
  }

  function Insert<T(!new)>(x: T, s: seq<T>, leq: (T, T) -> bool): (r: seq<T>)
    requires IsTotalOrder(leq) && IsSorted(s, leq)
    ensures IsSorted(r, leq) && multiset(r) == multiset(s) + multiset{x} && |r| == |s| + 1
  {
    if |s| == 0 then [x]
    else if leq(x, s[0]) then
      LeastOfAll(x, s, leq);
      SortedBehind(x, s, leq);
      [x] + s
    else
      var rest := Insert(x, s[1..], leq);
      assert s == [s[0]] + s[1..];
      FirstIsLeast(x, s, rest, leq);
      SortedBehind(s[0], rest, leq);
      [s[0]] + rest
  }

  function Sort<T(!new)>(s: seq<T>, leq: (T, T) -> bool): (r: seq<T>)
    requires IsTotalOrder(leq)
    ensures IsSorted(r, leq) && multiset(r) == multiset(s) && |r| == |s|
  {
    if |s| == 0 then []
    else
      assert s == [s[0]] + s[1..];
      Insert(s[0], Sort(s[1..], leq), leq)
  }

  /** Sorting keeps exactly the elements. */
  lemma {:induction false} SameElements<T>(r: seq<T>, s: seq<T>)
    requires multiset(r) == multiset(s)
    ensures forall x :: x in r <==> x in s
  {
    assert forall x :: x in r <==> x in multiset(r);
    assert forall x :: x in s <==> x in multiset(s);
  }

  ghost predicate Distinct<T>(q: seq<T>) {
    forall i, j :: 0 <= i < j < |q| ==> q[i] != q[j]
  }

  lemma {:induction false} DistinctCounts<T>(q: seq<T>)
    requires Distinct(q)
    ensures forall v :: multiset(q)[v] <= 1
  {
    if |q| > 0 {
      var n := |q| - 1;
      DistinctCounts(q[..n]);
      assert q == q[..n] + [q[n]];
      assert q[n] !in q[..n];
    }
  }

  lemma {:induction false} RepeatCounts<T>(q: seq<T>, i: nat, j: nat)
    requires i < j < |q|
    ensures q[i] == q[j] ==> multiset(q)[q[i]] >= 2
  {
    assert q == q[..j] + [q[j]] + q[j + 1..];
    assert q[i] in q[..j];
    assert q[i] in multiset(q[..j]);
  }

  /** Reordering distinct elements keeps them distinct. */
  lemma {:induction false} DistinctStays<T>(r: seq<T>, s: seq<T>)
    requires multiset(r) == multiset(s) && Distinct(s)
    ensures Distinct(r)
  {
    DistinctCounts(s);
    forall i, j | 0 <= i < j < |r|
      ensures r[i] != r[j]
    {
      RepeatCounts(r, i, j);
    }
  }

  // --- distinct integers, ascending --------------------------------------------------

  predicate IntLeq(a: int, b: int) {
    a <= b
  }

  ghost predicate Ascending(xs: seq<int>) {
    forall i, j :: 0 <= i < j < |xs| ==> xs[i] < xs[j]
  }

  function InsertDistinct(x: int, xs: seq<int>): (r: seq<int>)
    requires Ascending(xs)
    ensures Ascending(r) && forall v :: v in r <==> v == x || v in xs
  {
    if |xs| == 0 then [x]
    else if x == xs[0] then xs
    else if x < xs[0] then [x] + xs
    else
      var rest := InsertDistinct(x, xs[1..]);
      TailIsLater(xs);
      PutFirst(xs[0], rest);
      [xs[0]] + rest
  }

  lemma TailIsLater(xs: seq<int>)
    requires Ascending(xs) && |xs| > 0
    ensures forall v :: v in xs <==> v == xs[0] || v in xs[1..]
    ensures forall v :: v in xs[1..] ==> xs[0] < v
  {
    assert xs == [xs[0]] + xs[1..];
  }

  lemma PutFirst(x: int, xs: seq<int>)
    requires Ascending(xs) && forall v :: v in xs ==> x < v
    ensures Ascending([x] + xs) && forall v :: v in [x] + xs <==> v == x || v in xs
  {
    var r := [x] + xs;
    forall i, j | 0 <= i < j < |r|
      ensures r[i] < r[j]
    {
      assert r[j] == xs[j - 1] && r[j] in xs;
      if i > 0 { assert r[i] == xs[i - 1]; }
    }
  }

  method Elements<T>(s: set<T>) returns (q: seq<T>)
    ensures forall x :: x in q <==> x in s
  {
    q := [];
    var rest := s;
    while rest != {}
      invariant rest <= s
      invariant forall x :: x in s <==> x in q || x in rest
      decreases rest
    {
      var x :| x in rest;
      q, rest := q + [x], rest - {x};
    }
  }

  method SortedSet(keys: set<int>) returns (ys: seq<int>)
    ensures Ascending(ys)
    ensures forall y :: y in ys <==> y in keys
  {
    var unsorted := Elements(keys);
    ys := [];
    for i := 0 to |unsorted|
      invariant Ascending(ys)
      invariant forall y :: y in ys <==> y in unsorted[..i]
    {
      ys := InsertDistinct(unsorted[i], ys);
      assert unsorted[..i + 1] == unsorted[..i] + [unsorted[i]];
    }
    assert unsorted[..|unsorted|] == unsorted;
  }

  predicate SameValues(xs: seq<int>, ys: seq<int>) {
    && (forall k :: 0 <= k < |xs| ==> xs[k] in ys) && (forall k :: 0 <= k < |ys| ==> ys[k] in xs)
    && (|xs| == 0 <==> |ys| == 0)
  }

  lemma TailsAgree(xs: seq<int>, ys: seq<int>)
    requires Ascending(xs) && Ascending(ys) && SameValues(xs, ys) && |xs| > 0 && |ys| > 0
    ensures xs[0] == ys[0] && SameValues(xs[1..], ys[1..])
  {
    TailIsLater(xs);
    TailIsLater(ys);
    if |ys| > 1 { assert ys[1] in xs; }
    if |xs| > 1 { assert xs[1] in ys; }
  }

  /** Ascending lists of the same values are one list. */
  lemma {:induction false} AscendingSame(xs: seq<int>, ys: seq<int>)
    requires Ascending(xs) && Ascending(ys) && SameValues(xs, ys)
    ensures xs == ys
  {
    if |xs| > 0 && |ys| > 0 {
      TailsAgree(xs, ys);
      AscendingSame(xs[1..], ys[1..]);
      assert xs == [xs[0]] + xs[1..] && ys == [ys[0]] + ys[1..];
    }
  }
}
