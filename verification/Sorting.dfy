/** JavaScript's stable `Array.prototype.sort` and `filter`, over any comparison, and the facts the models need. */
module Sorting {
  /** A total preorder: what a consistent comparison function `compare(a, b) <= 0` is. */
  ghost predicate TotalPreorder<T(!new)>(leq: (T, T) -> bool) {
    && (forall a, b :: leq(a, b) || leq(b, a))
    && (forall a, b, c :: leq(a, b) && leq(b, c) ==> leq(a, c))
  }

  ghost predicate Sorted<T>(xs: seq<T>, leq: (T, T) -> bool) {
    forall i, j :: 0 <= i < j < |xs| ==> leq(xs[i], xs[j])
  }

  /** Before the first element it may precede, so that of two equal elements the earlier one stays in front. */
  function Insert<T>(x: T, xs: seq<T>, leq: (T, T) -> bool): (r: seq<T>)
    ensures multiset(r) == multiset{x} + multiset(xs)
    ensures |r| == |xs| + 1
    ensures forall y :: y in r ==> y == x || y in xs
  {
    if xs == [] || leq(x, xs[0]) then [x] + xs else
      assert xs == [xs[0]] + xs[1..];
      [xs[0]] + Insert(x, xs[1..], leq)
  }

  function Sort<T>(xs: seq<T>, leq: (T, T) -> bool): (r: seq<T>)
    ensures multiset(r) == multiset(xs)
    ensures |r| == |xs|
    ensures forall x :: x in r ==> x in xs
  {
    if xs == [] then [] else
      assert xs == [xs[0]] + xs[1..];
      Insert(xs[0], Sort(xs[1..], leq), leq)
  }

  function Filter<T>(xs: seq<T>, keep: T -> bool): seq<T> {
    if xs == [] then []
    else if keep(xs[0]) then [xs[0]] + Filter(xs[1..], keep)
    else Filter(xs[1..], keep)
  }

  lemma {:induction false} FilterMembers<T(!new)>(xs: seq<T>, keep: T -> bool)
    ensures forall x :: x in Filter(xs, keep) <==> x in xs && keep(x)
  {
    if xs != [] {
      FilterMembers(xs[1..], keep);
      assert xs == [xs[0]] + xs[1..];
    }
  }

  lemma {:induction false} InsertSorted<T(!new)>(x: T, xs: seq<T>, leq: (T, T) -> bool)
    requires TotalPreorder(leq) && Sorted(xs, leq)
    ensures Sorted(Insert(x, xs, leq), leq)
  {
    if xs != [] && !leq(x, xs[0]) {
      InsertSorted(x, xs[1..], leq);
      assert forall y :: y in Insert(x, xs[1..], leq) ==> leq(xs[0], y);
    }
  }

  lemma {:induction false} SortSorted<T(!new)>(xs: seq<T>, leq: (T, T) -> bool)
    requires TotalPreorder(leq)
    ensures Sorted(Sort(xs, leq), leq)
  {
    if xs != [] {
      SortSorted(xs[1..], leq);
      InsertSorted(xs[0], Sort(xs[1..], leq), leq);
    }
  }

  lemma {:induction false} SortOfSorted<T(!new)>(xs: seq<T>, leq: (T, T) -> bool)
    requires Sorted(xs, leq)
    ensures Sort(xs, leq) == xs
  {
    if xs != [] {
      SortOfSorted(xs[1..], leq);
      assert xs == [xs[0]] + xs[1..];
    }
  }

  lemma SortInFront<T>(x: T, xs: seq<T>, leq: (T, T) -> bool)
    requires Sort(xs, leq) == [] || leq(x, Sort(xs, leq)[0])
    ensures Sort([x] + xs, leq) == [x] + Sort(xs, leq)
  {
    assert ([x] + xs)[1..] == xs;
  }

  lemma HeadIn<T>(xs: seq<T>)
    requires xs != []
    ensures multiset(xs) == multiset{xs[0]} + multiset(xs[1..])
  {
    assert xs == [xs[0]] + xs[1..];
  }

  lemma HeadIsLeast<T(!new)>(xs: seq<T>, x: T, leq: (T, T) -> bool)
    requires Sorted(xs, leq) && x in xs
    ensures x == xs[0] || leq(xs[0], x)
  {
  }

  /** One multiset has one sorted arrangement, when no two different elements of it compare equal. */
  lemma {:induction false} SortedUnique<T(!new)>(a: seq<T>, b: seq<T>, leq: (T, T) -> bool)
    requires Sorted(a, leq) && Sorted(b, leq) && multiset(a) == multiset(b)
    requires forall x, y :: x in a && y in a && leq(x, y) && leq(y, x) ==> x == y
    ensures a == b
  {
    SameMembers(a, b);
    if a != [] {
      HeadIsLeast(a, b[0], leq);
      HeadIsLeast(b, a[0], leq);
      assert a[0] in a && b[0] in a;
      TailsPermuted(a, b);
      SortedUnique(a[1..], b[1..], leq);
      assert a == [a[0]] + a[1..] && b == [b[0]] + b[1..];
    }
  }

  lemma TailsPermuted<T>(a: seq<T>, b: seq<T>)
    requires multiset(a) == multiset(b) && a != [] && b != [] && a[0] == b[0]
    ensures multiset(a[1..]) == multiset(b[1..])
  {
    HeadIn(a);
    HeadIn(b);
    assert multiset(a[1..]) == multiset(a) - multiset{a[0]};
  }

  lemma {:induction false} InsertFilter<T(!new)>(x: T, xs: seq<T>, leq: (T, T) -> bool, keep: T -> bool)
    requires TotalPreorder(leq) && Sorted(xs, leq)
    ensures Filter(Insert(x, xs, leq), keep) == if keep(x) then Insert(x, Filter(xs, keep), leq) else Filter(xs, keep)
  {
    if xs == [] || leq(x, xs[0]) {
      FilterCons(x, xs, keep);
      FirstKept(x, xs, leq, keep);
    } else {
      var rest := xs[1..];
      InsertFilter(x, rest, leq, keep);
      FilterCons(xs[0], Insert(x, rest, leq), keep);
      if keep(xs[0]) {
        assert Filter(xs, keep)[1..] == Filter(rest, keep);
      }
    }
  }

  lemma FirstKept<T(!new)>(x: T, xs: seq<T>, leq: (T, T) -> bool, keep: T -> bool)
    requires TotalPreorder(leq) && Sorted(xs, leq) && (xs == [] || leq(x, xs[0]))
    ensures Filter(xs, keep) == [] || leq(x, Filter(xs, keep)[0])
  {
    var f := Filter(xs, keep);
    if f != [] {
      FilterMembers(xs, keep);
      assert f[0] in f;
      var k :| 0 <= k < |xs| && xs[k] == f[0];
      assert k == 0 || leq(xs[0], xs[k]);
    }
  }

  lemma FilterCons<T>(x: T, xs: seq<T>, keep: T -> bool)
    ensures Filter([x] + xs, keep) == (if keep(x) then [x] else []) + Filter(xs, keep)
  {
    assert ([x] + xs)[1..] == xs;
  }

  /** A stable sort keeps the kept elements in the order they get when sorted alone. */
  lemma {:induction false} SortFilter<T(!new)>(xs: seq<T>, leq: (T, T) -> bool, keep: T -> bool)
    requires TotalPreorder(leq)
    ensures Filter(Sort(xs, leq), keep) == Sort(Filter(xs, keep), leq)
  {
    if xs != [] {
      SortFilter(xs[1..], leq, keep);
      SortSorted(xs[1..], leq);
      InsertFilter(xs[0], Sort(xs[1..], leq), leq, keep);
      if keep(xs[0]) {
        assert Filter(xs, keep)[1..] == Filter(xs[1..], keep);
      }
    }
  }

  lemma {:induction false} FilterConcat<T>(a: seq<T>, b: seq<T>, keep: T -> bool)
    ensures Filter(a + b, keep) == Filter(a, keep) + Filter(b, keep)
  {
    if a == [] {
      assert a + b == b;
    } else {
      FilterConcat(a[1..], b, keep);
      FilterCons(a[0], a[1..] + b, keep);
      assert a + b == [a[0]] + (a[1..] + b);
    }
  }

  lemma {:induction false} FilterAll<T(!new)>(xs: seq<T>, keep: T -> bool)
    ensures (forall x :: x in xs ==> keep(x)) ==> Filter(xs, keep) == xs
    ensures (forall x :: x in xs ==> !keep(x)) ==> Filter(xs, keep) == []
  {
    if xs != [] {
      FilterAll(xs[1..], keep);
      assert xs == [xs[0]] + xs[1..];
    }
  }

  lemma {:induction false} FilterCount<T(!new)>(xs: seq<T>, keep: T -> bool)
    ensures forall x :: multiset(Filter(xs, keep))[x] == if keep(x) then multiset(xs)[x] else 0
  {
    if xs != [] {
      FilterCount(xs[1..], keep);
      HeadIn(xs);
    }
  }

  lemma FilterPermuted<T(!new)>(a: seq<T>, b: seq<T>, keep: T -> bool)
    requires multiset(a) == multiset(b)
    ensures multiset(Filter(a, keep)) == multiset(Filter(b, keep))
  {
    FilterCount(a, keep);
    FilterCount(b, keep);
  }

  lemma SameMembers<T(!new)>(a: seq<T>, b: seq<T>)
    requires multiset(a) == multiset(b)
    ensures |a| == |b| && forall x :: x in a <==> x in b
  {
    assert |multiset(a)| == |a| && |multiset(b)| == |b|;
    assert forall x :: x in a <==> x in multiset(a);
    assert forall x :: x in b <==> x in multiset(b);
  }

  lemma FilterSnoc<T(!new)>(xs: seq<T>, keep: T -> bool)
    requires xs != []
    ensures Filter(xs, keep) == Filter(xs[..|xs| - 1], keep) + if keep(xs[|xs| - 1]) then [xs[|xs| - 1]] else []
  {
    FilterConcat(xs[..|xs| - 1], [xs[|xs| - 1]], keep);
    assert xs == xs[..|xs| - 1] + [xs[|xs| - 1]];
  }

  /** Dropping elements that would not be kept anyway. */
  lemma {:induction false} FilterTwice<T(!new)>(xs: seq<T>, first: T -> bool, keep: T -> bool)
    requires forall x :: x in xs && keep(x) ==> first(x)
    ensures Filter(Filter(xs, first), keep) == Filter(xs, keep)
  {
    if xs != [] {
      FilterTwice(xs[1..], first, keep);
      if first(xs[0]) {
        FilterCons(xs[0], Filter(xs[1..], first), keep);
      }
    }
  }

  /** The first of the least elements, which a stable sort puts at its head. */
  ghost predicate FirstLeast<T(!new)>(xs: seq<T>, leq: (T, T) -> bool, k: nat) {
    && k < |xs| && (forall j :: 0 <= j < |xs| ==> leq(xs[k], xs[j]))
    && (forall j :: 0 <= j < k ==> !leq(xs[j], xs[k]))
  }

  lemma {:induction false} HeadIsFirstLeast<T(!new)>(xs: seq<T>, leq: (T, T) -> bool)
    requires xs != [] && TotalPreorder(leq)
    ensures Sort(xs, leq) != [] && exists k: nat :: FirstLeast(xs, leq, k) && Sort(xs, leq)[0] == xs[k]
  {
    if |xs| == 1 {
      assert FirstLeast(xs, leq, 0);
    } else {
      HeadIsFirstLeast(xs[1..], leq);
      var k: nat :| FirstLeast(xs[1..], leq, k) && Sort(xs[1..], leq)[0] == xs[1..][k];
      FirstLeastCons(xs, leq, k);
    }
  }

  lemma FirstLeastCons<T(!new)>(xs: seq<T>, leq: (T, T) -> bool, k: nat)
    requires xs != [] && TotalPreorder(leq) && FirstLeast(xs[1..], leq, k)
    ensures FirstLeast(xs, leq, if leq(xs[0], xs[k + 1]) then 0 else k + 1)
  {
    assert forall j :: 0 < j < |xs| ==> xs[j] == xs[1..][j - 1];
    assert forall j :: 0 < j < |xs| ==> leq(xs[k + 1], xs[j]);
  }
}
