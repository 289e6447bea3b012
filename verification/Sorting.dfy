/** Python's `sorted`/`list.sort`: a stable sort by a total order, and why its result is canonical. */
module Sorting {
  import opened Prelude
  import opened Text

  /** `le` is a total preorder: what a sort key induces. */
  ghost predicate TotalPreorder<T(!new)>(le: (T, T) -> bool) {
    && (forall a, b :: le(a, b) || le(b, a))
    && (forall a, b, c :: le(a, b) && le(b, c) ==> le(a, c))
  }

  ghost predicate Sorted<T>(le: (T, T) -> bool, xs: seq<T>) {
    forall i, j :: 0 <= i < j < |xs| ==> le(xs[i], xs[j])
  }

  lemma StringLeIsTotalPreorder()
    ensures TotalPreorder(StringLe)
  {
    forall a: string, b: string ensures StringLe(a, b) || StringLe(b, a) {
      LexTotal(Codes(a), Codes(b));
    }
    forall a: string, b: string, c: string | StringLe(a, b) && StringLe(b, c) ensures StringLe(a, c) {
      LexTransitive(Codes(a), Codes(b), Codes(c));
    }
  }

  /** Insert `x` before the first element it is not after; equal elements already there stay behind it. */
  function Insert<T>(le: (T, T) -> bool, x: T, xs: seq<T>): (r: seq<T>)
    ensures multiset(r) == multiset([x] + xs)
    ensures |r| == |xs| + 1
  {
    if xs == [] then [x]
    else if le(x, xs[0]) then [x] + xs
    else
      assert xs == [xs[0]] + xs[1..];
      [xs[0]] + Insert(le, x, xs[1..])
  }

  /** Stable sort: elements that `le` does not separate keep their order. */
  function SortBy<T>(le: (T, T) -> bool, xs: seq<T>): (r: seq<T>)
    ensures multiset(r) == multiset(xs)
    ensures |r| == |xs|
  {
    if xs == [] then []
    else
      assert xs == [xs[0]] + xs[1..];
      Insert(le, xs[0], SortBy(le, xs[1..]))
  }

  lemma InsertElements<T>(le: (T, T) -> bool, x: T, xs: seq<T>)
    ensures forall y :: y in Insert(le, x, xs) ==> y == x || y in xs
  {
    forall y | y in Insert(le, x, xs) ensures y == x || y in xs {
      assert y in multiset(Insert(le, x, xs));
      assert y in [x] + xs;
    }
  }

  lemma SortedCons<T>(le: (T, T) -> bool, x: T, xs: seq<T>)
    requires Sorted(le, xs) && forall y :: y in xs ==> le(x, y)
    ensures Sorted(le, [x] + xs)
  {}

  lemma {:induction false} InsertSorted<T(!new)>(le: (T, T) -> bool, x: T, xs: seq<T>)
    requires TotalPreorder(le) && Sorted(le, xs)
    ensures Sorted(le, Insert(le, x, xs))
  {
    if xs == [] {
    } else if le(x, xs[0]) {
      forall y | y in xs ensures le(x, y) {
        var k :| 0 <= k < |xs| && xs[k] == y;
        assert k > 0 ==> le(xs[0], xs[k]);
      }
      SortedCons(le, x, xs);
    } else {
      var rest := Insert(le, x, xs[1..]);
      InsertSorted(le, x, xs[1..]);
      InsertElements(le, x, xs[1..]);
      forall y | y in rest ensures le(xs[0], y) {
        assert y == x || y in xs[1..];
      }
      SortedCons(le, xs[0], rest);
    }
  }

  lemma {:induction false} SortBySorted<T(!new)>(le: (T, T) -> bool, xs: seq<T>)
    requires TotalPreorder(le)
    ensures Sorted(le, SortBy(le, xs))
  {
    if xs != [] {
      SortBySorted(le, xs[1..]);
      InsertSorted(le, xs[0], SortBy(le, xs[1..]));
    }
  }

  lemma SortByElements<T>(le: (T, T) -> bool, xs: seq<T>)
    ensures forall x :: x in SortBy(le, xs) <==> x in xs
  {
    forall x ensures x in SortBy(le, xs) <==> x in xs {
      assert x in SortBy(le, xs) <==> x in multiset(SortBy(le, xs));
      assert x in xs <==> x in multiset(xs);
    }
  }

  lemma DistinctCounts<T>(xs: seq<T>)
    requires Distinct(xs)
    ensures forall x :: multiset(xs)[x] <= 1
  {
    if xs != [] {
      assert Distinct(xs[1..]);
      DistinctCounts(xs[1..]);
      assert xs == [xs[0]] + xs[1..];
      assert xs[0] !in xs[1..];
      assert xs[0] !in multiset(xs[1..]);
    }
  }

  lemma CountsDistinct<T>(xs: seq<T>)
    requires forall x :: multiset(xs)[x] <= 1
    ensures Distinct(xs)
  {
    forall i, j | 0 <= i < j < |xs| ensures xs[i] != xs[j] {
      assert xs == xs[..j] + xs[j..];
      assert multiset(xs) == multiset(xs[..j]) + multiset(xs[j..]);
      assert multiset(xs[..j])[xs[..j][i]] >= 1 && multiset(xs[j..])[xs[j..][0]] >= 1;
      assert multiset(xs)[xs[i]] <= 1;
    }
  }

  lemma SortByDistinct<T>(le: (T, T) -> bool, xs: seq<T>)
    requires Distinct(xs)
    ensures Distinct(SortBy(le, xs))
  {
    DistinctCounts(xs);
    CountsDistinct(SortBy(le, xs));
  }

  /** Two sorted, duplicate-free sequences with the same elements are the same sequence,
      when `le` separates the elements. */
  lemma {:induction false} SortedUnique<T(!new)>(le: (T, T) -> bool, xs: seq<T>, ys: seq<T>)
    requires Sorted(le, xs) && Sorted(le, ys) && Distinct(xs) && Distinct(ys)
    requires forall x :: x in xs <==> x in ys
    requires forall a, b :: a in xs && b in xs && le(a, b) && le(b, a) ==> a == b
    ensures xs == ys
    decreases |xs|
  {
    assert ys != [] ==> ys[0] in ys;
    if xs == [] {
    } else {
      assert xs[0] in ys;
      assert ys[0] in xs;
      assert xs[0] == ys[0];
      assert Sorted(le, xs[1..]) && Sorted(le, ys[1..]) && Distinct(xs[1..]) && Distinct(ys[1..]);
      forall x ensures x in xs[1..] <==> x in ys[1..] {
        if x in xs[1..] {
          assert x in xs && x != xs[0];
          assert x in ys;
        }
        if x in ys[1..] {
          assert x in ys && x != ys[0];
          assert x in xs;
        }
      }
      SortedUnique(le, xs[1..], ys[1..]);
    }
  }

  /** Sorting forgets the order of its input and nothing else, when `le` separates the elements. */
  lemma {:induction false} SortedPermutation<T(!new)>(le: (T, T) -> bool, xs: seq<T>, ys: seq<T>)
    requires Sorted(le, xs) && Sorted(le, ys) && multiset(xs) == multiset(ys)
    requires forall a, b :: le(a, b) && le(b, a) ==> a == b
    ensures xs == ys
    decreases |xs|
  {
    assert |xs| == |multiset(xs)| && |ys| == |multiset(ys)|;
    if xs != [] {
      SameLeast(le, xs, ys);
      WithoutFirst(xs);
      WithoutFirst(ys);
      SortedPermutation(le, xs[1..], ys[1..]);
    }
  }

  lemma WithoutFirst<T>(xs: seq<T>)
    requires xs != []
    ensures multiset(xs[1..]) == multiset(xs) - multiset{xs[0]}
    ensures xs == [xs[0]] + xs[1..]
  {
    assert xs == [xs[0]] + xs[1..];
  }

  lemma SameLeast<T(!new)>(le: (T, T) -> bool, xs: seq<T>, ys: seq<T>)
    requires Sorted(le, xs) && Sorted(le, ys) && multiset(xs) == multiset(ys) && xs != [] && ys != []
    requires forall a, b :: le(a, b) && le(b, a) ==> a == b
    ensures xs[0] == ys[0]
  {
    assert xs[0] in multiset(ys) && ys[0] in multiset(xs);
    var j :| 0 <= j < |xs| && xs[j] == ys[0];
    var k :| 0 <= k < |ys| && ys[k] == xs[0];
    assert (j > 0 ==> le(xs[0], ys[0])) && (k > 0 ==> le(ys[0], xs[0]));
  }

  lemma InsertFirst<T>(le: (T, T) -> bool, x: T, xs: seq<T>)
    requires xs == [] || le(x, xs[0])
    ensures Insert(le, x, xs) == [x] + xs
  {}

  lemma {:induction false} SortOfSorted<T(!new)>(le: (T, T) -> bool, xs: seq<T>)
    requires Sorted(le, xs)
    ensures SortBy(le, xs) == xs
  {
    hide Insert;
    if xs != [] {
      SortOfSorted(le, xs[1..]);
      InsertFirst(le, xs[0], xs[1..]);
      assert xs == [xs[0]] + xs[1..];
    }
  }
}
