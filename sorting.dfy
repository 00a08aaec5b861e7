/**
 * `Array.prototype.sort` with a comparator, as the content utilities use it
 * (src/utils/content.ts:33, 95, 116, 165).
 *
 * The comparator is given as `le(x, y)`: "x may stay before y", i.e.
 * `compare(x, y) <= 0`. The sort is stable, as the ECMAScript specification
 * has required since 2019: an element moves in front of an earlier one only
 * when `le` does not allow the earlier one to stay before it.
 * `SortBy` is the order the sort produces, defined by insertion;
 * `SortInPlace` is the in-place algorithm, proved to produce it.
 */
module Sorting {

  /** Every element may stay before every later one. */
  predicate Sorted<T>(s: seq<T>, le: (T, T) -> bool) {
    forall i, j :: 0 <= i < j < |s| ==> le(s[i], s[j])
  }

  /** A comparator that orders every pair and is transitive. */
  ghost predicate IsTotalPreorder<T(!new)>(le: (T, T) -> bool) {
    && (forall x, y :: le(x, y) || le(y, x))
    && (forall x, y, z :: le(x, y) && le(y, z) ==> le(x, z))
  }

  /** Inserts `x` after the last element that may stay before it, scanning from the back. */
  function Insert<T>(t: seq<T>, x: T, le: (T, T) -> bool): seq<T> {
    if t == [] then [x]
    else if le(t[|t| - 1], x) then t + [x]
    else Insert(t[..|t| - 1], x, le) + [t[|t| - 1]]
  }

  /** The stable order: each element in turn inserted into the sorted prefix before it. */
  function SortBy<T>(s: seq<T>, le: (T, T) -> bool): seq<T> {
    if s == [] then [] else Insert(SortBy(s[..|s| - 1], le), s[|s| - 1], le)
  }

  // ---------------------------------------------------------------------
  // Insertion
  // ---------------------------------------------------------------------

  /**
   * Insertion puts `x` right after a prefix `p` whose last element may stay
   * before it, when every element of the rest `u` must move behind it.
   */
  lemma {:induction false} InsertSplit<T>(p: seq<T>, u: seq<T>, x: T, le: (T, T) -> bool)
    requires forall k :: 0 <= k < |u| ==> !le(u[k], x)
    requires p == [] || le(p[|p| - 1], x)
    ensures Insert(p + u, x, le) == p + [x] + u
  {
    if u == [] {
      assert p + u == p;
    } else {
      var init, last := u[..|u| - 1], u[|u| - 1];
      assert (p + u)[..|p + u| - 1] == p + init;
      assert (p + u)[|p + u| - 1] == last;
      InsertSplit(p, init, x, le);
      assert p + [x] + init + [last] == p + [x] + u;
    }
  }

  /** A sequence laid out as insertion at position `j` describes, element by element, is the insertion. */
  lemma InsertedAt<T>(r: seq<T>, t: seq<T>, x: T, le: (T, T) -> bool, j: nat)
    requires j <= |t| && |r| == |t| + 1
    requires forall k :: 0 <= k < j ==> r[k] == t[k]
    requires r[j] == x
    requires forall k :: j < k < |r| ==> r[k] == t[k - 1]
    requires forall k :: j <= k < |t| ==> !le(t[k], x)
    requires j == 0 || le(t[j - 1], x)
    ensures r == Insert(t, x, le)
  {
    var p, u := t[..j], t[j..];
    InsertSplit(p, u, x, le);
    assert p + u == t;
    forall k | 0 <= k < |r|
      ensures r[k] == (p + [x] + u)[k]
    {
      if k > j {
        assert u[k - 1 - j] == t[k - 1];
      }
    }
  }

  lemma {:induction false} InsertPermutes<T>(t: seq<T>, x: T, le: (T, T) -> bool)
    ensures multiset(Insert(t, x, le)) == multiset(t) + multiset{x}
  {
    if t != [] && !le(t[|t| - 1], x) {
      InsertPermutes(t[..|t| - 1], x, le);
      assert t == t[..|t| - 1] + [t[|t| - 1]];
    }
  }

  lemma {:induction false} InsertSorted<T(!new)>(t: seq<T>, x: T, le: (T, T) -> bool)
    requires IsTotalPreorder(le)
    requires Sorted(t, le)
    ensures Sorted(Insert(t, x, le), le)
  {
    if t == [] {
    } else if le(t[|t| - 1], x) {
      var r := t + [x];
      forall i, j | 0 <= i < j < |r| ensures le(r[i], r[j]) {
        if j == |t| && i < |t| - 1 {
          assert le(t[i], t[|t| - 1]);
        }
      }
    } else {
      var init, last := t[..|t| - 1], t[|t| - 1];
      var ins := Insert(init, x, le);
      InsertSorted(init, x, le);
      InsertPermutes(init, x, le);
      forall e | e in ins ensures le(e, last) {
        assert e in multiset(ins);
        if e != x {
          assert e in multiset(init);
          var k :| 0 <= k < |init| && init[k] == e;
          assert t[k] == e;
        }
      }
      var r := ins + [last];
      forall i, j | 0 <= i < j < |r| ensures le(r[i], r[j]) {
        if j == |ins| {
          assert r[i] in ins;
        } else {
          assert r[i] == ins[i] && r[j] == ins[j];
        }
      }
    }
  }

  // ---------------------------------------------------------------------
  // The stable order
  // ---------------------------------------------------------------------

  /** The sort rearranges its input: the same elements with the same multiplicities. */
  lemma {:induction false} SortByPermutes<T>(s: seq<T>, le: (T, T) -> bool)
    ensures multiset(SortBy(s, le)) == multiset(s)
    ensures |SortBy(s, le)| == |s|
  {
    if s != [] {
      var init := s[..|s| - 1];
      SortByPermutes(init, le);
      InsertPermutes(SortBy(init, le), s[|s| - 1], le);
      assert s == init + [s[|s| - 1]];
      assert |SortBy(s, le)| == |multiset(SortBy(s, le))|;
    }
  }

  /** With a total preorder the result is sorted. */
  lemma {:induction false} SortBySorts<T(!new)>(s: seq<T>, le: (T, T) -> bool)
    requires IsTotalPreorder(le)
    ensures Sorted(SortBy(s, le), le)
  {
    if s != [] {
      SortBySorts(s[..|s| - 1], le);
      InsertSorted(SortBy(s[..|s| - 1], le), s[|s| - 1], le);
    }
  }

  /** An input that is already sorted is left as it is. */
  lemma {:induction false} SortByKeepsSorted<T>(s: seq<T>, le: (T, T) -> bool)
    requires Sorted(s, le)
    ensures SortBy(s, le) == s
  {
    if s != [] {
      var init := s[..|s| - 1];
      assert Sorted(init, le);
      SortByKeepsSorted(init, le);
      assert s == init + [s[|s| - 1]];
      if init != [] {
        assert le(init[|init| - 1], s[|s| - 1]);
      }
    }
  }

  /** Sorting is idempotent for a total preorder. */
  lemma SortByIdempotent<T(!new)>(s: seq<T>, le: (T, T) -> bool)
    requires IsTotalPreorder(le)
    ensures SortBy(SortBy(s, le), le) == SortBy(s, le)
  {
    SortBySorts(s, le);
    SortByKeepsSorted(SortBy(s, le), le);
  }

  // ---------------------------------------------------------------------
  // Stability
  // ---------------------------------------------------------------------

  /** `x` and `y` tie: each may stay before the other, the comparator returning zero. */
  predicate Tied<T>(x: T, y: T, le: (T, T) -> bool) {
    le(x, y) && le(y, x)
  }

  /** The elements of `s` that tie with `x`, in their order in `s`. */
  function Ties<T>(s: seq<T>, x: T, le: (T, T) -> bool): seq<T> {
    if s == [] then []
    else Ties(s[..|s| - 1], x, le) + (if Tied(x, s[|s| - 1], le) then [s[|s| - 1]] else [])
  }

  /** Insertion places `e` after every element it ties with and moves no tied element past another. */
  lemma {:induction false} InsertKeepsTies<T(!new)>(t: seq<T>, e: T, le: (T, T) -> bool, x: T)
    requires IsTotalPreorder(le)
    ensures Ties(Insert(t, e, le), x, le) == Ties(t, x, le) + (if Tied(x, e, le) then [e] else [])
  {
    if t == [] {
      assert Insert(t, e, le)[..0] == [];
    } else if le(t[|t| - 1], e) {
      var r := t + [e];
      assert r[..|r| - 1] == t;
    } else {
      var init, last := t[..|t| - 1], t[|t| - 1];
      InsertKeepsTies(init, e, le, x);
      var r := Insert(init, e, le) + [last];
      assert r[..|r| - 1] == Insert(init, e, le);
      if Tied(x, e, le) {
        assert le(last, x) && le(x, e) ==> le(last, e);
      }
    }
  }

  /**
   * The sort is stable: the elements that tie with any `x` keep their input
   * order. With a total preorder the tie classes partition the input.
   */
  lemma {:induction false} SortByStable<T(!new)>(s: seq<T>, le: (T, T) -> bool, x: T)
    requires IsTotalPreorder(le)
    ensures Ties(SortBy(s, le), x, le) == Ties(s, x, le)
  {
    if s != [] {
      var init, last := s[..|s| - 1], s[|s| - 1];
      SortByStable(init, le, x);
      InsertKeepsTies(SortBy(init, le), last, le, x);
    }
  }

  // ---------------------------------------------------------------------
  // The in-place algorithm
  // ---------------------------------------------------------------------

  /** Sorts `a` in place, stably, into the order `SortBy` defines. */
  method SortInPlace<T>(a: array<T>, le: (T, T) -> bool)
    modifies a
    ensures a[..] == SortBy(old(a[..]), le)
  {
    ghost var orig := a[..];
    var i := 0;
    while i < a.Length
      invariant 0 <= i <= a.Length
      invariant a[..i] == SortBy(orig[..i], le)
      invariant a[i..] == orig[i..]
    {
      assert a[i] == orig[i] && a[i + 1..] == orig[i + 1..];
      InsertInPlace(a, i, le);
      assert orig[..i + 1][..i] == orig[..i];
      i := i + 1;
    }
    assert orig[..a.Length] == orig;
  }

  /** Moves `a[i]` back into the prefix `a[..i]`, past every element that may not stay before it. */
  method InsertInPlace<T>(a: array<T>, i: nat, le: (T, T) -> bool)
    requires i < a.Length
    modifies a
    ensures a[..i + 1] == Insert(old(a[..i]), old(a[i]), le)
    ensures a[i + 1..] == old(a[i + 1..])
  {
    ghost var sorted := a[..i];
    var x := a[i];
    var j := i;
    while j > 0 && !le(a[j - 1], x)
      invariant 0 <= j <= i
      invariant forall k :: 0 <= k < j ==> a[k] == sorted[k]
      invariant forall k :: j < k <= i ==> a[k] == sorted[k - 1]
      invariant forall k :: j <= k < i ==> !le(sorted[k], x)
      invariant forall k :: i < k < a.Length ==> a[k] == old(a[k])
    {
      a[j] := a[j - 1];
      j := j - 1;
    }
    a[j] := x;
    InsertedAt(a[..i + 1], sorted, x, le, j);
  }
}
