/** `segments.sort(key=lambda x: x["start"])`: Python's list sort, which
    works in place and is stable. The model sorts the plan's array by
    insertion and proves that it computes `StableSort`, the functional
    insertion sort; the lemmas show that `StableSort` orders by start, is a
    permutation and keeps segments with equal starts in their input order. */
module SegmentSort {
  import opened Plan

  predicate SortedByStart(s: seq<RawSegment>) {
    forall i, j :: 0 <= i < j < |s| ==> s[i].start <= s[j].start
  }

  /** Places `x` after every element of `t` whose start is not greater than its own. */
  function Insert(t: seq<RawSegment>, x: RawSegment): seq<RawSegment>
    decreases |t|
  {
    if t == [] || t[|t| - 1].start <= x.start then t + [x]
    else Insert(t[..|t| - 1], x) + [t[|t| - 1]]
  }

  function StableSort(s: seq<RawSegment>): seq<RawSegment>
    decreases |s|
  {
    if s == [] then [] else Insert(StableSort(s[..|s| - 1]), s[|s| - 1])
  }

  /** The segments of `s` whose start is exactly `k`, in the order of `s`. */
  function WithStart(s: seq<RawSegment>, k: real): seq<RawSegment>
    decreases |s|
  {
    if s == [] then []
    else WithStart(s[..|s| - 1], k) + (if s[|s| - 1].start == k then [s[|s| - 1]] else [])
  }

  lemma {:induction false} InsertLength(t: seq<RawSegment>, x: RawSegment)
    ensures |Insert(t, x)| == |t| + 1
    ensures multiset(Insert(t, x)) == multiset(t) + multiset{x}
    decreases |t|
  {
    if t == [] || t[|t| - 1].start <= x.start {
    } else {
      var u := t[..|t| - 1];
      InsertLength(u, x);
      assert t == u + [t[|t| - 1]];
    }
  }

  lemma {:induction false} InsertSorted(t: seq<RawSegment>, x: RawSegment)
    requires SortedByStart(t)
    ensures SortedByStart(Insert(t, x))
    ensures forall i :: 0 <= i < |Insert(t, x)| ==> Insert(t, x)[i] == x || Insert(t, x)[i] in t
    decreases |t|
  {
    InsertLength(t, x);
    if t == [] || t[|t| - 1].start <= x.start {
    } else {
      var u := t[..|t| - 1];
      var last := t[|t| - 1];
      InsertSorted(u, x);
      InsertLength(u, x);
      var r := Insert(u, x);
      assert Insert(t, x) == r + [last];
      forall i | 0 <= i < |r| ensures r[i].start <= last.start {
        if r[i] != x {
          var m :| 0 <= m < |u| && u[m] == r[i];
          assert t[m] == u[m];
        }
      }
    }
  }

  lemma {:induction false} WithStartAppend(a: seq<RawSegment>, b: seq<RawSegment>, k: real)
    ensures WithStart(a + b, k) == WithStart(a, k) + WithStart(b, k)
    decreases |b|
  {
    if b == [] {
      assert a + b == a;
    } else {
      var b' := b[..|b| - 1];
      assert (a + b)[..|a + b| - 1] == a + b';
      WithStartAppend(a, b', k);
    }
  }

  lemma WithStartSingle(x: RawSegment, k: real)
    ensures WithStart([x], k) == (if x.start == k then [x] else [])
  {
    assert [x][..0] == [];
  }

  lemma {:induction false} InsertWithStart(t: seq<RawSegment>, x: RawSegment, k: real)
    ensures WithStart(Insert(t, x), k) == WithStart(t, k) + WithStart([x], k)
    decreases |t|
  {
    if t == [] || t[|t| - 1].start <= x.start {
      assert Insert(t, x) == t + [x];
      WithStartAppend(t, [x], k);
    } else {
      var u := t[..|t| - 1];
      var last := t[|t| - 1];
      var r := Insert(u, x);
      assert t == u + [last];
      assert Insert(t, x) == r + [last];
      var wu, wx, wl := WithStart(u, k), WithStart([x], k), WithStart([last], k);
      InsertWithStart(u, x, k);
      assert WithStart(r, k) == wu + wx;
      WithStartAppend(r, [last], k);
      assert WithStart(Insert(t, x), k) == wu + wx + wl;
      WithStartAppend(u, [last], k);
      assert WithStart(t, k) == wu + wl;
      WithStartSingle(x, k);
      WithStartSingle(last, k);
      // last.start > x.start, so at most one of the two singletons is kept
      assert wx == [] || wl == [];
      assert wx + wl == wl + wx;
      assert wu + wx + wl == wu + (wx + wl);
    }
  }

  /** The stable sort orders by start, permutes its input and, for every
      start value, keeps the segments with that start in input order. */
  lemma {:induction false} StableSortCorrect(s: seq<RawSegment>)
    ensures |StableSort(s)| == |s|
    ensures SortedByStart(StableSort(s))
    ensures multiset(StableSort(s)) == multiset(s)
    ensures forall k :: WithStart(StableSort(s), k) == WithStart(s, k)
    decreases |s|
  {
    if s != [] {
      var p := s[..|s| - 1];
      var x := s[|s| - 1];
      StableSortCorrect(p);
      InsertLength(StableSort(p), x);
      InsertSorted(StableSort(p), x);
      assert s == p + [x];
      forall k ensures WithStart(StableSort(s), k) == WithStart(s, k) {
        InsertWithStart(StableSort(p), x, k);
        WithStartAppend(p, [x], k);
      }
    }
  }

  /** `Insert` puts `x` right after the last element whose start is not
      greater than its own. */
  lemma {:induction false} InsertSplit(t: seq<RawSegment>, x: RawSegment, j: nat)
    requires j <= |t|
    requires j == 0 || t[j - 1].start <= x.start
    requires forall m :: j <= m < |t| ==> t[m].start > x.start
    ensures Insert(t, x) == t[..j] + [x] + t[j..]
    decreases |t|
  {
    if j == |t| {
      assert t[..j] == t && t[j..] == [];
    } else {
      var u := t[..|t| - 1];
      var last := t[|t| - 1];
      InsertSplit(u, x, j);
      assert u[..j] == t[..j];
      assert t[j..] == u[j..] + [last];
    }
  }

  /** A sequence that agrees pointwise with `t[..j] + [x] + t[j..]` equals it. */
  lemma ShiftedEquals(b: seq<RawSegment>, t: seq<RawSegment>, j: nat, x: RawSegment)
    requires j <= |t| && |b| == |t| + 1
    requires forall m :: 0 <= m < j ==> b[m] == t[m]
    requires b[j] == x
    requires forall m :: j < m < |b| ==> b[m] == t[m - 1]
    ensures b == t[..j] + [x] + t[j..]
  {
    var r := t[..j] + [x] + t[j..];
    forall m | 0 <= m < |b| ensures b[m] == r[m] {
      if m > j {
        assert r[m] == t[m - 1];
      }
    }
  }

  /** One pass of the insertion sort: moves `a[i]` left past every earlier
      element with a greater start. */
  method InsertAt(a: array<RawSegment>, i: nat)
    requires i < a.Length
    modifies a
    ensures a[..i + 1] == Insert(old(a[..i]), old(a[i]))
    ensures forall m :: i < m < a.Length ==> a[m] == old(a[m])
  {
    ghost var t := a[..i];
    var x := a[i];
    var j := i;
    while j > 0 && a[j - 1].start > x.start
      invariant 0 <= j <= i
      invariant forall m :: 0 <= m < j ==> a[m] == t[m]
      invariant forall m :: j < m <= i ==> a[m] == t[m - 1]
      invariant forall m :: i < m < a.Length ==> a[m] == old(a[m])
      invariant forall m :: j <= m < i ==> t[m].start > x.start
    {
      a[j] := a[j - 1];
      j := j - 1;
    }
    a[j] := x;
    InsertSplit(t, x, j);
    ShiftedEquals(a[..i + 1], t, j, x);
  }

  /** Sorts `a` in place; the result is `StableSort` of the old contents. */
  method SortByStart(a: array<RawSegment>)
    modifies a
    ensures a[..] == StableSort(old(a[..]))
  {
    ghost var input := a[..];
    var i := 0;
    while i < a.Length
      invariant 0 <= i <= a.Length
      invariant a[..i] == StableSort(input[..i])
      invariant forall m :: i <= m < a.Length ==> a[m] == input[m]
    {
      InsertAt(a, i);
      assert input[..i + 1][..i] == input[..i];
      i := i + 1;
    }
    assert input[..a.Length] == input;
  }
}
