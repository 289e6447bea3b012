/** Values shared by every module: optional values, and results that may be an error. */
module Prelude {

  datatype Option<+T> = None | Some(value: T)

  datatype Result<+T, +E> = Success(value: T) | Failure(error: E)

  function Max(a: int, b: int): int {
    if a >= b then a else b
  }

  /** The elements of `xs` that satisfy `p`, in order: a list comprehension with a condition. */
  function Filter<T(!new)>(p: T -> bool, xs: seq<T>): (r: seq<T>)
    ensures forall x :: x in r <==> x in xs && p(x)
    ensures |r| <= |xs|
  {
    if xs == [] then []
    else if p(xs[0]) then [xs[0]] + Filter(p, xs[1..])
    else Filter(p, xs[1..])
  }

  /** `f` applied to each element of `xs`: a list comprehension. */
  function Map<T, U>(f: T -> U, xs: seq<T>): (r: seq<U>)
    ensures |r| == |xs|
    ensures forall i :: 0 <= i < |xs| ==> r[i] == f(xs[i])
  {
    seq(|xs|, i requires 0 <= i < |xs| => f(xs[i]))
  }

  ghost predicate Distinct<T>(xs: seq<T>) {
    forall i, j :: 0 <= i < j < |xs| ==> xs[i] != xs[j]
  }

  lemma FilterStep<T(!new)>(p: T -> bool, x: T, rest: seq<T>)
    ensures Filter(p, [x] + rest) == (if p(x) then [x] else []) + Filter(p, rest)
  {
    assert ([x] + rest)[1..] == rest;
  }

  lemma {:induction false} FilterConcat<T(!new)>(p: T -> bool, xs: seq<T>, ys: seq<T>)
    ensures Filter(p, xs + ys) == Filter(p, xs) + Filter(p, ys)
  {
    if xs == [] {
      assert xs + ys == ys;
    } else {
      var rest := xs[1..] + ys;
      assert xs + ys == [xs[0]] + rest;
      FilterStep(p, xs[0], rest);
      FilterConcat(p, xs[1..], ys);
    }
  }

  lemma FilterAppend<T(!new)>(p: T -> bool, xs: seq<T>, x: T)
    ensures Filter(p, xs + [x]) == Filter(p, xs) + if p(x) then [x] else []
  {
    FilterConcat(p, xs, [x]);
    assert [x] + [] == [x];
    FilterStep(p, x, []);
  }

  lemma MapAppend<T, U>(f: T -> U, xs: seq<T>, x: T)
    ensures Map(f, xs + [x]) == Map(f, xs) + [f(x)]
  {}

  lemma {:induction false} FilterDistinct<T(!new)>(p: T -> bool, xs: seq<T>)
    requires Distinct(xs)
    ensures Distinct(Filter(p, xs))
  {
    if xs != [] {
      assert Distinct(xs[1..]);
      FilterDistinct(p, xs[1..]);
      assert xs[0] !in Filter(p, xs[1..]);
    }
  }

  /** A sequence drawn from a finite set and longer than the set visits some element twice. */
  lemma {:induction false} Pigeonhole<T>(xs: seq<T>, pool: set<T>) returns (i: nat, j: nat)
    requires forall x :: x in xs ==> x in pool
    requires |xs| > |pool|
    ensures i < j < |xs| && xs[i] == xs[j]
    decreases |xs|
  {
    var last := |xs| - 1;
    if k :| 0 <= k < last && xs[k] == xs[last] {
      i, j := k, last;
    } else {
      assert forall x :: x in xs[..last] ==> x in pool - {xs[last]};
      i, j := Pigeonhole(xs[..last], pool - {xs[last]});
    }
  }
}
