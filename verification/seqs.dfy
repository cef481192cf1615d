/** Filtering and mapping sequences: the list comprehensions and
    append-in-a-loop patterns of the pipeline, stated once. */
module Seqs {
  import opened Wrappers

  /** The elements of `s` that satisfy `p`, in their original order. */
  function Filter<T(!new)>(s: seq<T>, p: T -> bool): (r: seq<T>)
    ensures |r| <= |s|
    ensures forall i :: 0 <= i < |r| ==> p(r[i])
    ensures forall x :: x in r <==> x in s && p(x)
  {
    if s == [] then [] else (if p(s[0]) then [s[0]] else []) + Filter(s[1..], p)
  }

  lemma {:induction false} FilterAppend<T(!new)>(a: seq<T>, b: seq<T>, p: T -> bool)
    ensures Filter(a + b, p) == Filter(a, p) + Filter(b, p)
  {
    if a == [] {
      assert a + b == b;
    } else {
      assert (a + b)[0] == a[0];
      assert (a + b)[1..] == a[1..] + b;
      FilterAppend(a[1..], b, p);
    }
  }

  /** Filtering one more element onto the end of a prefix: the step a loop takes. */
  lemma FilterSnoc<T(!new)>(s: seq<T>, i: nat, p: T -> bool)
    requires i < |s|
    ensures Filter(s[..i + 1], p) == Filter(s[..i], p) + (if p(s[i]) then [s[i]] else [])
  {
    assert s[..i + 1] == s[..i] + [s[i]];
    FilterAppend(s[..i], [s[i]], p);
    assert [s[i]][1..] == [];
  }

  /** Every element satisfies exactly one of `p` and its negation. */
  lemma {:induction false} FilterComplement<T(!new)>(s: seq<T>, p: T -> bool, q: T -> bool)
    requires forall x :: x in s ==> (p(x) <==> !q(x))
    ensures |Filter(s, p)| + |Filter(s, q)| == |s|
  {
    if s != [] {
      assert forall x :: x in s[1..] ==> x in s;
      FilterComplement(s[1..], p, q);
    }
  }

  /** Filtering with a predicate that implies another never keeps more. */
  lemma {:induction false} FilterStronger<T(!new)>(s: seq<T>, p: T -> bool, q: T -> bool)
    requires forall x :: x in s && p(x) ==> q(x)
    ensures |Filter(s, p)| <= |Filter(s, q)|
  {
    if s != [] {
      assert forall x :: x in s[1..] ==> x in s;
      FilterStronger(s[1..], p, q);
    }
  }

  /** `[f(x) for x in s]`. */
  function Map<T, U>(s: seq<T>, f: T -> U): (r: seq<U>)
    ensures |r| == |s|
    ensures forall i :: 0 <= i < |s| ==> r[i] == f(s[i])
  {
    seq(|s|, i requires 0 <= i < |s| => f(s[i]))
  }

  lemma MapAppend<T, U>(a: seq<T>, b: seq<T>, f: T -> U)
    ensures Map(a + b, f) == Map(a, f) + Map(b, f)
  {
  }

  lemma MapSnoc<T, U>(s: seq<T>, x: T, f: T -> U)
    ensures Map(s + [x], f) == Map(s, f) + [f(x)]
  {
  }

  /** What `f` yields over `s`, skipping the `None`s, in order: a loop that
      `continue`s past some elements and appends something for the rest. */
  function FilterMap<T, U>(s: seq<T>, f: T -> Option<U>): seq<U>
    decreases |s|
  {
    if s == [] then []
    else
      var n := |s| - 1;
      FilterMap(s[..n], f) + (match f(s[n]) case Some(y) => [y] case None => [])
  }

  /** One more element through the loop. */
  lemma FilterMapSnoc<T, U>(s: seq<T>, i: nat, f: T -> Option<U>)
    requires i < |s|
    ensures FilterMap(s[..i + 1], f)
         == FilterMap(s[..i], f) + (match f(s[i]) case Some(y) => [y] case None => [])
  {
    assert s[..i + 1][..i] == s[..i];
  }

  /** A step that keeps the elements `keep` accepts, as `g` of them, is a
      filter followed by a map. */
  lemma {:induction false} FilterMapAsFilter<T(!new), U>(s: seq<T>, f: T -> Option<U>,
      keep: T -> bool, g: T -> U)
    requires forall x :: f(x) == if keep(x) then Some(g(x)) else None
    ensures FilterMap(s, f) == Map(Filter(s, keep), g)
    decreases |s|
  {
    if s != [] {
      var n := |s| - 1;
      FilterMapAsFilter(s[..n], f, keep, g);
      assert s[..n + 1] == s;
      FilterSnoc(s, n, keep);
      if keep(s[n]) {
        MapSnoc(Filter(s[..n], keep), s[n], g);
      }
    }
  }

  /** `sum(f(x) for x in s)`. */
  function SumOf<T>(s: seq<T>, f: T -> real): real {
    if s == [] then 0.0 else f(s[0]) + SumOf(s[1..], f)
  }

  lemma {:induction false} SumOfAppend<T>(a: seq<T>, b: seq<T>, f: T -> real)
    ensures SumOf(a + b, f) == SumOf(a, f) + SumOf(b, f)
  {
    if a == [] {
      assert a + b == b;
    } else {
      assert (a + b)[1..] == a[1..] + b;
      SumOfAppend(a[1..], b, f);
    }
  }

  /** The first position of `x` in `s` (`s.index(x)`). */
  function Find<T(==)>(s: seq<T>, x: T): (i: nat)
    requires x in s
    ensures i < |s| && s[i] == x
  {
    if s[0] == x then 0 else Find(s[1..], x) + 1
  }

  /** Appending an element moves no earlier first position; a new element is found at the end. */
  lemma {:induction false} FindSnoc<T>(s: seq<T>, g: T, x: T)
    requires x in s + [g]
    ensures Find(s + [g], x) == if x in s then Find(s, x) else |s|
  {
    if s != [] {
      assert (s + [g])[0] == s[0];
      if s[0] != x {
        assert (s + [g])[1..] == s[1..] + [g];
        assert x in s <==> x in s[1..];
        FindSnoc(s[1..], g, x);
      }
    }
  }

  predicate Distinct<T(==)>(s: seq<T>) {
    forall i, j :: 0 <= i < j < |s| ==> s[i] != s[j]
  }
}
