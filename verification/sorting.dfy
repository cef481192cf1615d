/** Python's `sorted(..., reverse=True)` and `list.sort(reverse=True)` as a
    stable insertion sort: `ge(a, b)` says `a` may come before `b`. Elements
    that compare equal keep their input order, as Python guarantees. */
module Sorting {
  import opened Seqs

  ghost predicate Total<T(!new)>(ge: (T, T) -> bool) {
    forall a, b :: ge(a, b) || ge(b, a)
  }

  ghost predicate Transitive<T(!new)>(ge: (T, T) -> bool) {
    forall a, b, c :: ge(a, b) && ge(b, c) ==> ge(a, c)
  }

  predicate SortedBy<T>(s: seq<T>, ge: (T, T) -> bool) {
    forall i, j :: 0 <= i < j < |s| ==> ge(s[i], s[j])
  }

  /** The elements that compare equal to `v`. */
  function EquivTo<T>(ge: (T, T) -> bool, v: T): (T -> bool) {
    (y: T) => ge(y, v) && ge(v, y)
  }

  /** Puts `x` before the first element it may precede. */
  function Insert<T>(x: T, t: seq<T>, ge: (T, T) -> bool): (r: seq<T>)
    ensures |r| == |t| + 1
    ensures multiset(r) == multiset(t) + multiset{x}
  {
    if t == [] || ge(x, t[0]) then [x] + t
    else
      var rest := Insert(x, t[1..], ge);
      assert t == [t[0]] + t[1..];
      [t[0]] + rest
  }

  function Sort<T>(s: seq<T>, ge: (T, T) -> bool): (r: seq<T>)
    ensures multiset(r) == multiset(s)
  {
    if s == [] then []
    else
      assert s == [s[0]] + s[1..];
      Insert(s[0], Sort(s[1..], ge), ge)
  }

  lemma {:induction false} InsertSorted<T(!new)>(x: T, t: seq<T>, ge: (T, T) -> bool)
    requires Total(ge) && Transitive(ge) && SortedBy(t, ge)
    ensures SortedBy(Insert(x, t, ge), ge)
  {
    if t == [] || ge(x, t[0]) {
    } else {
      var rest := Insert(x, t[1..], ge);
      InsertSorted(x, t[1..], ge);
      forall j | 0 <= j < |rest|
        ensures ge(t[0], rest[j])
      {
        var y := rest[j];
        assert y in multiset(rest);
        if y != x {
          assert y in multiset(t[1..]);
          var k :| 0 <= k < |t[1..]| && t[1..][k] == y;
          assert y == t[k + 1];
        }
      }
    }
  }

  /** The result is ordered by `ge` whenever `ge` is a total preorder. */
  lemma {:induction false} SortSorted<T(!new)>(s: seq<T>, ge: (T, T) -> bool)
    requires Total(ge) && Transitive(ge)
    ensures SortedBy(Sort(s, ge), ge)
  {
    if s != [] {
      SortSorted(s[1..], ge);
      InsertSorted(s[0], Sort(s[1..], ge), ge);
    }
  }

  lemma {:induction false} InsertStable<T(!new)>(x: T, t: seq<T>, ge: (T, T) -> bool, v: T)
    requires Transitive(ge)
    ensures Filter(Insert(x, t, ge), EquivTo(ge, v))
         == (if EquivTo(ge, v)(x) then [x] else []) + Filter(t, EquivTo(ge, v))
  {
    var p := EquivTo(ge, v);
    if t == [] || ge(x, t[0]) {
      assert ([x] + t)[1..] == t;
    } else {
      InsertStable(x, t[1..], ge, v);
      var r := Insert(x, t, ge);
      assert r[1..] == Insert(x, t[1..], ge);
      NotBothEquivalent(x, t[0], ge, v);
    }
  }

  /** Two elements out of `ge` order cannot both be equivalent to the same `v`. */
  lemma NotBothEquivalent<T(!new)>(x: T, y: T, ge: (T, T) -> bool, v: T)
    requires Transitive(ge) && !ge(x, y)
    ensures !(EquivTo(ge, v)(x) && EquivTo(ge, v)(y))
  {
  }

  /** Stability: the elements equal to any `v` appear in the same relative
      order before and after sorting. */
  lemma {:induction false} SortStable<T(!new)>(s: seq<T>, ge: (T, T) -> bool, v: T)
    requires Transitive(ge)
    ensures Filter(Sort(s, ge), EquivTo(ge, v)) == Filter(s, EquivTo(ge, v))
  {
    if s != [] {
      SortStable(s[1..], ge, v);
      InsertStable(s[0], Sort(s[1..], ge), ge, v);
    }
  }

  /** Inserting an element not yet present keeps the elements distinct. */
  lemma {:induction false} InsertDistinct<T(!new)>(x: T, t: seq<T>, ge: (T, T) -> bool)
    requires Distinct(t) && x !in t
    ensures Distinct(Insert(x, t, ge))
  {
    if t == [] || ge(x, t[0]) {
    } else {
      var rest := Insert(x, t[1..], ge);
      InsertDistinct(x, t[1..], ge);
      assert t[0] !in multiset(rest) by {
        assert t[0] !in t[1..];
      }
      var r := [t[0]] + rest;
      forall i, j | 0 <= i < j < |r|
        ensures r[i] != r[j]
      {
        if i > 0 {
          assert r[i] == rest[i - 1] && r[j] == rest[j - 1];
        } else {
          assert r[j] in multiset(rest);
        }
      }
    }
  }

  /** Sorting distinct elements leaves them distinct. */
  lemma {:induction false} SortDistinct<T(!new)>(s: seq<T>, ge: (T, T) -> bool)
    requires Distinct(s)
    ensures Distinct(Sort(s, ge))
  {
    if s != [] {
      SortDistinct(s[1..], ge);
      assert s[0] !in multiset(Sort(s[1..], ge)) by {
        assert s[0] !in s[1..];
      }
      InsertDistinct(s[0], Sort(s[1..], ge), ge);
    }
  }
}
