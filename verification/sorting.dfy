/** Order-preserving filtering and stable sorting by a comparator, as used by the
    collection functions `filter`, `partition`, `sortedBy` and `sortedWith`. */
module Sorting {

  /** `filter`: the elements satisfying `p`, in their original order. */
  function Filter<T>(s: seq<T>, p: T -> bool): (r: seq<T>)
    ensures |r| <= |s|
    ensures forall i :: 0 <= i < |r| ==> p(r[i])
  {
    if |s| == 0 then []
    else
      assert s == [s[0]] + s[1..];
      (if p(s[0]) then [s[0]] else []) + Filter(s[1..], p)
  }

  /** The complement of a predicate. */
  function Not<T>(p: T -> bool): T -> bool {
    x => !p(x)
  }

  /** `partition`: the elements satisfying `p` and the rest, each in original order. */
  function Partition<T>(s: seq<T>, p: T -> bool): (r: (seq<T>, seq<T>))
    ensures multiset(r.0) + multiset(r.1) == multiset(s)
    ensures forall i :: 0 <= i < |r.0| ==> p(r.0[i])
    ensures forall i :: 0 <= i < |r.1| ==> !p(r.1[i])
  {
    FilterSplits(s, p);
    (Filter(s, p), Filter(s, Not(p)))
  }

  lemma {:induction false} FilterSplits<T>(s: seq<T>, p: T -> bool)
    ensures multiset(Filter(s, p)) + multiset(Filter(s, Not(p))) == multiset(s)
  {
    if |s| > 0 {
      var x, tail := s[0], s[1..];
      assert s == [x] + tail;
      FilterSplits(tail, p);
      FilterCons(x, tail, p);
      FilterCons(x, tail, Not(p));
      assert multiset(s) == multiset{x} + multiset(tail);
      if p(x) {
        assert multiset(Filter(s, p)) == multiset{x} + multiset(Filter(tail, p));
        assert Filter(s, Not(p)) == Filter(tail, Not(p));
      } else {
        assert Filter(s, p) == Filter(tail, p);
        assert multiset(Filter(s, Not(p))) == multiset{x} + multiset(Filter(tail, Not(p)));
      }
    }
  }

  /** Nothing is invented or lost: `x` is kept exactly when it occurs and satisfies `p`. */
  lemma {:induction false} FilterMembers<T>(s: seq<T>, p: T -> bool, x: T)
    ensures x in Filter(s, p) <==> x in s && p(x)
  {
    if |s| > 0 {
      FilterMembers(s[1..], p, x);
      assert s == [s[0]] + s[1..];
    }
  }

  lemma {:induction false} FilterConcat<T>(a: seq<T>, b: seq<T>, p: T -> bool)
    ensures Filter(a + b, p) == Filter(a, p) + Filter(b, p)
  {
    if |a| == 0 {
      assert a + b == b;
    } else {
      assert (a + b)[0] == a[0];
      assert (a + b)[1..] == a[1..] + b;
      FilterConcat(a[1..], b, p);
    }
  }

  lemma {:induction false} FilterKeepsAll<T>(s: seq<T>, p: T -> bool)
    requires forall i :: 0 <= i < |s| ==> p(s[i])
    ensures Filter(s, p) == s
  {
    if |s| > 0 {
      FilterKeepsAll(s[1..], p);
    }
  }

  lemma {:induction false} FilterDropsAll<T>(s: seq<T>, p: T -> bool)
    requires forall i :: 0 <= i < |s| ==> !p(s[i])
    ensures Filter(s, p) == []
  {
    if |s| > 0 {
      FilterDropsAll(s[1..], p);
    }
  }

  // ---------------------------------------------------------------------------
  // Comparators

  /** What `sortedWith` demands of a `Comparator`: "compares at most" (`<= 0`) is
      total and transitive, so it is a total preorder. */
  ghost predicate TotalPreorder<T(!new)>(cmp: (T, T) -> int) {
    && (forall a, b :: cmp(a, b) <= 0 || cmp(b, a) <= 0)
    && (forall a, b, c {:trigger Chain(cmp, a, b, c)} :: Chain(cmp, a, b, c) ==> cmp(a, c) <= 0)
  }

  /** `a` ranks no later than `b`, which ranks no later than `c`. Transitivity is
      stated over this term so that it is applied only where a proof asks for it. */
  ghost predicate Chain<T>(cmp: (T, T) -> int, a: T, b: T, c: T) {
    cmp(a, b) <= 0 && cmp(b, c) <= 0
  }

  lemma Transitive<T(!new)>(cmp: (T, T) -> int, a: T, b: T, c: T)
    requires TotalPreorder(cmp)
    requires cmp(a, b) <= 0 && cmp(b, c) <= 0
    ensures cmp(a, c) <= 0
  {
    assert Chain(cmp, a, b, c);
  }

  /** The elements the comparator ranks equal to `k`. */
  function EquivTo<T>(cmp: (T, T) -> int, k: T): T -> bool {
    y => cmp(y, k) <= 0 && cmp(k, y) <= 0
  }

  /** Every element is ranked no later than every element after it. */
  ghost predicate Sorted<T>(s: seq<T>, cmp: (T, T) -> int) {
    forall i, j :: 0 <= i < j < |s| ==> cmp(s[i], s[j]) <= 0
  }

  /** Stability: each class of equally ranked elements appears in `t` in exactly the
      order (and multiplicity) it has in `s`. */
  ghost predicate SameClasses<T(!new)>(t: seq<T>, s: seq<T>, cmp: (T, T) -> int) {
    forall k :: Filter(t, EquivTo(cmp, k)) == Filter(s, EquivTo(cmp, k))
  }

  // ---------------------------------------------------------------------------
  // Stable insertion sort

  /** Places `x` in front of the first element it does not rank after. */
  function Insert<T>(x: T, s: seq<T>, cmp: (T, T) -> int): (r: seq<T>)
    ensures multiset(r) == multiset(s) + multiset{x}
    ensures |r| == |s| + 1
  {
    if |s| == 0 then [x]
    else if cmp(x, s[0]) <= 0 then [x] + s
    else
      assert s == [s[0]] + s[1..];
      [s[0]] + Insert(x, s[1..], cmp)
  }

  /** `sortedWith(cmp)`: a stable sort. Kotlin's merge sort and this insertion sort
      have the same output (see `StableSortIsUnique`). */
  function Sort<T(!new)>(s: seq<T>, cmp: (T, T) -> int): (r: seq<T>)
    requires TotalPreorder(cmp)
    ensures multiset(r) == multiset(s)
    ensures |r| == |s|
    ensures Sorted(r, cmp)
    ensures SameClasses(r, s, cmp)
  {
    if |s| == 0 then []
    else
      var rest := Sort(s[1..], cmp);
      assert s == [s[0]] + s[1..];
      InsertSorted(s[0], rest, cmp);
      InsertKeepsClasses(s[0], s[1..], rest, cmp);
      Insert(s[0], rest, cmp)
  }

  /** Inserting the head in front of its ties into a stable sort of the tail gives a
      stable sort of the whole. */
  lemma InsertKeepsClasses<T(!new)>(x: T, tail: seq<T>, rest: seq<T>, cmp: (T, T) -> int)
    requires TotalPreorder(cmp)
    requires SameClasses(rest, tail, cmp)
    ensures SameClasses(Insert(x, rest, cmp), [x] + tail, cmp)
  {
    forall k
      ensures Filter(Insert(x, rest, cmp), EquivTo(cmp, k)) == Filter([x] + tail, EquivTo(cmp, k))
    {
      InsertClass(x, rest, cmp, k);
      FilterCons(x, rest, EquivTo(cmp, k));
      FilterCons(x, tail, EquivTo(cmp, k));
    }
  }

  lemma {:induction false} InsertSorted<T(!new)>(x: T, s: seq<T>, cmp: (T, T) -> int)
    requires TotalPreorder(cmp)
    requires Sorted(s, cmp)
    ensures Sorted(Insert(x, s, cmp), cmp)
  {
    if |s| == 0 {
    } else if cmp(x, s[0]) <= 0 {
      forall j | 0 <= j < |s|
        ensures cmp(x, s[j]) <= 0
      {
        if j > 0 {
          Transitive(cmp, x, s[0], s[j]);
        }
      }
      SortedCons(x, s, cmp);
    } else {
      var tail := s[1..];
      InsertSorted(x, tail, cmp);
      InsertLowerBound(s[0], x, tail, cmp);
      SortedCons(s[0], Insert(x, tail, cmp), cmp);
    }
  }

  /** An element ranked no later than `x` and than all of `s` stays so after inserting `x`. */
  lemma {:induction false} InsertLowerBound<T(!new)>(b: T, x: T, s: seq<T>, cmp: (T, T) -> int)
    requires TotalPreorder(cmp)
    requires cmp(b, x) <= 0
    requires forall j :: 0 <= j < |s| ==> cmp(b, s[j]) <= 0
    ensures forall j :: 0 <= j < |Insert(x, s, cmp)| ==> cmp(b, Insert(x, s, cmp)[j]) <= 0
  {
    if |s| > 0 && cmp(x, s[0]) > 0 {
      InsertLowerBound(b, x, s[1..], cmp);
    }
  }

  lemma SortedCons<T>(x: T, s: seq<T>, cmp: (T, T) -> int)
    requires Sorted(s, cmp)
    requires forall j :: 0 <= j < |s| ==> cmp(x, s[j]) <= 0
    ensures Sorted([x] + s, cmp)
  {
    var r := [x] + s;
    forall i, j | 0 <= i < j < |r|
      ensures cmp(r[i], r[j]) <= 0
    {
      assert r[j] == s[j - 1];
      if i > 0 {
        assert r[i] == s[i - 1];
      }
    }
  }

  /** Inserting `x` in front of the elements it ties with keeps its class in order. */
  lemma {:induction false} InsertClass<T(!new)>(x: T, s: seq<T>, cmp: (T, T) -> int, k: T)
    requires TotalPreorder(cmp)
    ensures Filter(Insert(x, s, cmp), EquivTo(cmp, k)) == Filter([x] + s, EquivTo(cmp, k))
  {
    if |s| > 0 && cmp(x, s[0]) > 0 {
      var e := EquivTo(cmp, k);
      var s0, tail := s[0], s[1..];
      var ins := Insert(x, tail, cmp);
      assert Insert(x, s, cmp) == [s0] + ins;
      assert s == [s0] + tail;
      InsertClass(x, tail, cmp, k);
      FilterCons(s0, ins, e);
      FilterCons(x, tail, e);
      FilterCons(s0, tail, e);
      FilterCons(x, s, e);
      NotBothTied(cmp, k, x, s0);
      SwapEmpty(if e(s0) then [s0] else [], if e(x) then [x] else [], Filter(tail, e));
    }
  }

  lemma FilterCons<T>(x: T, s: seq<T>, p: T -> bool)
    ensures Filter([x] + s, p) == (if p(x) then [x] else []) + Filter(s, p)
  {
    assert ([x] + s)[1..] == s;
  }

  /** Elements the comparator ranks apart are never both tied with the same `k`. */
  lemma NotBothTied<T(!new)>(cmp: (T, T) -> int, k: T, x: T, y: T)
    requires TotalPreorder(cmp)
    requires cmp(x, y) > 0
    ensures !(EquivTo(cmp, k)(x) && EquivTo(cmp, k)(y))
  {
    if cmp(x, k) <= 0 && cmp(k, y) <= 0 {
      Transitive(cmp, x, k, y);
    }
  }

  lemma SwapEmpty<T>(a: seq<T>, b: seq<T>, rest: seq<T>)
    requires |a| == 0 || |b| == 0
    ensures a + (b + rest) == b + (a + rest)
  {
    if |a| == 0 {
      assert a + (b + rest) == b + rest == b + (a + rest);
    } else {
      assert a + (b + rest) == a + rest == b + (a + rest);
    }
  }

  /** Two sorted sequences with the same classes are equal: a stable sort has exactly
      one possible output. */
  lemma {:induction false} SortedWithSameClassesEqual<T(!new)>(a: seq<T>, b: seq<T>, cmp: (T, T) -> int)
    requires TotalPreorder(cmp)
    requires Sorted(a, cmp) && Sorted(b, cmp)
    requires SameClasses(a, b, cmp)
    ensures a == b
    decreases |a| + |b|
  {
    if |a| == 0 || |b| == 0 {
      NonEmptyClasses(a, b, cmp);
      NonEmptyClasses(b, a, cmp);
    } else {
      var x, y := a[0], b[0];
      var ex := EquivTo(cmp, x);
      assert Filter(a, ex) == [x] + Filter(a[1..], ex);
      var fb := Filter(b, ex);
      assert x in fb;
      FilterMembers(b, ex, x);
      assert cmp(y, x) <= 0 by {
        var j :| 0 <= j < |b| && b[j] == x;
      }
      assert cmp(x, y) <= 0 by {
        assert y in a by {
          var ey := EquivTo(cmp, y);
          assert Filter(b, ey) == [y] + Filter(b[1..], ey);
          FilterMembers(a, ey, y);
        }
        var j :| 0 <= j < |a| && a[j] == y;
      }
      assert ex(y);
      assert fb == [y] + Filter(b[1..], ex);
      assert fb == Filter(a, ex);
      assert fb[0] == x && fb[0] == y;
      forall k
        ensures Filter(a[1..], EquivTo(cmp, k)) == Filter(b[1..], EquivTo(cmp, k))
      {
        var ek := EquivTo(cmp, k);
        assert Filter(a, ek) == (if ek(x) then [x] else []) + Filter(a[1..], ek);
        assert Filter(b, ek) == (if ek(x) then [x] else []) + Filter(b[1..], ek);
        var skip := if ek(x) then 1 else 0;
        assert Filter(a, ek) == Filter(b, ek);
        assert Filter(a[1..], ek) == Filter(a, ek)[skip..];
        assert Filter(b[1..], ek) == Filter(b, ek)[skip..];
      }
      SortedWithSameClassesEqual(a[1..], b[1..], cmp);
      assert a == [x] + a[1..] && b == [y] + b[1..];
    }
  }

  lemma NonEmptyClasses<T(!new)>(a: seq<T>, b: seq<T>, cmp: (T, T) -> int)
    requires TotalPreorder(cmp)
    requires SameClasses(a, b, cmp)
    ensures |a| > 0 ==> |b| > 0
  {
    if |a| > 0 {
      var e := EquivTo(cmp, a[0]);
      assert |Filter(a, e)| > 0;
      assert Filter(a, e) == Filter(b, e);
    }
  }

  /** Any sorted permutation of `s` that keeps every class in input order is `Sort(s)`:
      the insertion sort stands for every stable sort, Kotlin's included. */
  lemma StableSortIsUnique<T(!new)>(s: seq<T>, t: seq<T>, cmp: (T, T) -> int)
    requires TotalPreorder(cmp)
    requires Sorted(t, cmp) && SameClasses(t, s, cmp)
    ensures t == Sort(s, cmp)
  {
    SortedWithSameClassesEqual(t, Sort(s, cmp), cmp);
  }
}
