/** The insertion passes on an array range `[lo, hi)`. Each is proved to leave the insertion sort of
    the range and to make exactly one shift per inversion; the unguarded ones are allowed to run
    only where the elements in front stop every walk. */
module Insertion {
  import opened Ranges

  /** The positions `[lo, it)` of the original array `was` have been inserted, with `shifts` shifts. */
  ghost predicate Inserted(was: seq<int>, a: seq<int>, lo: nat, it: nat, shifts: nat)
    requires lo <= it <= |a|
  {
    && SameOutside(was, a, lo, it)
    && a[lo..it] == InsertionSorted(was[lo..it])
    && shifts == Inversions(was[lo..it])
  }

  /** The element at `it` taken out and put back at `cur`. */
  function Moved(a: seq<int>, cur: nat, it: nat): (r: seq<int>)
    requires cur <= it < |a|
    ensures |r| == |a|
  {
    a[..cur] + [a[it]] + a[cur..it] + a[it + 1..]
  }

  /** The array while the moving element is held aside and the gap is at `cur`. */
  function Gap(a: seq<int>, cur: nat, it: nat): (r: seq<int>)
    requires cur <= it < |a|
    ensures |r| == |a|
  {
    a[..cur + 1] + a[cur..it] + a[it + 1..]
  }

  lemma NothingInserted(a: seq<int>, lo: nat)
    requires lo <= |a|
    ensures Inserted(a, a, lo, lo, 0)
    ensures lo < |a| ==> Inserted(a, a, lo, lo + 1, 0)
  {
    assert a[lo..lo] == [];
    if lo < |a| {
      assert a[lo..lo + 1][..0] == [];
      assert a[lo..lo + 1] == [a[lo]];
    }
  }

  lemma MovedSlices(a: seq<int>, lo: nat, cur: nat, it: nat)
    requires lo <= cur <= it < |a|
    ensures var t, p := Moved(a, cur, it), a[lo..it];
      && t[lo..it + 1] == p[..cur - lo] + [a[it]] + p[cur - lo..]
      && t[..lo] == a[..lo]
      && t[it + 1..] == a[it + 1..]
  {
  }

  /** A walk that stopped at `cur` has inserted the element at `it`. */
  lemma WalkDone(was: seq<int>, a: seq<int>, lo: nat, cur: nat, it: nat, shifts: nat)
    requires lo <= cur <= it < |a|
    requires Inserted(was, a, lo, it, shifts)
    requires cur == lo || a[cur - 1] <= a[it]
    requires forall i :: cur <= i < it ==> a[i] > a[it]
    ensures Inserted(was, Moved(a, cur, it), lo, it + 1, shifts + it - cur)
  {
    hide InsertionSorted, Inversions, Moved;
    var x, p := a[it], a[lo..it];
    assert was[it..] == a[it..];
    assert was[it] == was[it..][0] == x;
    assert was[lo..it + 1] == was[lo..it] + [x];
    InsertionStep(was[lo..it], p, x, cur - lo);
    MovedSlices(a, lo, cur, it);
    assert a[it + 1..] == a[it..][1..] && was[it + 1..] == was[it..][1..];
  }

  lemma MovedAt(a: seq<int>, cur: nat, it: nat)
    requires cur <= it < |a|
    ensures Moved(a, it, it) == a && Moved(a, cur, it)[cur] == a[it]
    ensures cur > 0 ==> Moved(a, cur, it)[cur - 1] == a[cur - 1]
  {
  }

  lemma SwapInWalk(a: seq<int>, cur: nat, it: nat)
    requires 0 < cur <= it < |a|
    ensures Swap(Moved(a, cur, it), cur, cur - 1) == Moved(a, cur - 1, it)
  {
    var m := Moved(a, cur, it);
    assert m[cur] == a[it] && m[cur - 1] == a[cur - 1];
  }

  lemma GapMoves(a: seq<int>, cur: nat, it: nat)
    requires cur <= it < |a|
    ensures Gap(a, it, it) == a
    ensures Gap(a, cur, it)[cur := a[it]] == Moved(a, cur, it)
    ensures cur > 0 ==> Gap(a, cur, it)[cur - 1] == a[cur - 1]
    ensures cur > 0 ==> Gap(a, cur, it)[cur := a[cur - 1]] == Gap(a, cur - 1, it)
  {
    var g := Gap(a, cur, it);
    assert forall i :: 0 <= i <= cur ==> g[i] == a[i];
    assert forall i :: cur < i <= it ==> g[i] == a[i - 1];
  }

  // ---- one walk ----

  /** Exchanges the element at `it` with its left neighbour while that one is greater. */
  method WalkSwapping(a: array<int>, lo: nat, it: nat, ghost was: seq<int>, ghost shifts: nat)
    returns (ghost newShifts: nat)
    requires lo <= it < a.Length && Inserted(was, a[..], lo, it, shifts)
    modifies a
    ensures Inserted(was, a[..], lo, it + 1, newShifts)
  {
    hide Inserted, Moved;
    ghost var s := a[..];
    var cur := it;
    MovedAt(s, it, it);
    while lo != cur && a[cur] < a[cur - 1]
      invariant lo <= cur <= it && a[..] == Moved(s, cur, it)
      invariant forall i :: cur <= i < it ==> s[i] > s[it]
    {
      MovedAt(s, cur, it);
      SwapInWalk(s, cur, it);
      a[cur], a[cur - 1] := a[cur - 1], a[cur];
      cur := cur - 1;
    }
    MovedAt(s, cur, it);
    WalkDone(was, s, lo, cur, it, shifts);
    newShifts := shifts + it - cur;
  }

  /** Holds the element at `it` aside and shifts greater left neighbours up by one. */
  method WalkMoving(a: array<int>, lo: nat, it: nat, ghost was: seq<int>, ghost shifts: nat)
    returns (ghost newShifts: nat)
    requires lo < it < a.Length && Inserted(was, a[..], lo, it, shifts)
    modifies a
    ensures Inserted(was, a[..], lo, it + 1, newShifts)
  {
    hide Inserted, Moved, Gap;
    ghost var s := a[..];
    var cur := it;
    MovedAt(s, it, it);
    if a[it] < a[it - 1] {
      var tmp := a[cur];
      GapMoves(s, cur, it);
      a[cur] := a[cur - 1];
      cur := cur - 1;
      GapMoves(s, cur, it);
      while lo != cur && tmp < a[cur - 1]
        invariant lo <= cur < it && a[..] == Gap(s, cur, it)
        invariant forall i :: cur <= i < it ==> s[i] > tmp
        invariant cur > 0 ==> a[cur - 1] == s[cur - 1]
      {
        GapMoves(s, cur, it);
        a[cur] := a[cur - 1];
        cur := cur - 1;
        GapMoves(s, cur, it);
      }
      GapMoves(s, cur, it);
      a[cur] := tmp;
    }
    WalkDone(was, s, lo, cur, it, shifts);
    newShifts := shifts + it - cur;
  }

  lemma FrontStays(a: seq<int>, lo: nat, cur: nat, it: nat)
    requires lo < cur <= it < |a|
    ensures Moved(a, cur, it)[lo] == a[lo]
  {
  }

  /** Like `WalkSwapping`, without comparing against the start of the range. */
  method UnguardedWalkSwapping(a: array<int>, ghost lo: nat, it: nat, ghost was: seq<int>, ghost shifts: nat)
    returns (ghost newShifts: nat)
    requires lo < it < a.Length && Inserted(was, a[..], lo, it, shifts)
    requires a[lo] <= a[it]
    modifies a
    ensures Inserted(was, a[..], lo, it + 1, newShifts) && a[lo] == old(a[lo])
  {
    hide Inserted, Moved, InsertionSorted, Inversions;
    ghost var s := a[..];
    var cur := it;
    MovedAt(s, it, it);
    while a[cur] < a[cur - 1]
      invariant lo < cur <= it && a[..] == Moved(s, cur, it)
      invariant a[cur] == s[it] && a[cur - 1] == s[cur - 1]
      invariant forall i :: cur <= i < it ==> s[i] > s[it]
      decreases cur
    {
      SwapInWalk(s, cur, it);
      a[cur], a[cur - 1] := a[cur - 1], a[cur];
      cur := cur - 1;
      MovedAt(s, cur, it);
    }
    WalkDone(was, s, lo, cur, it, shifts);
    FrontStays(s, lo, cur, it);
    assert a[lo] == a[..][lo];
    newShifts := shifts + it - cur;
  }

  /** Like `WalkMoving`, without comparing against the start of the range. */
  method UnguardedWalkMoving(a: array<int>, ghost lo: nat, it: nat, ghost was: seq<int>, ghost shifts: nat)
    returns (ghost newShifts: nat)
    requires lo < it < a.Length && Inserted(was, a[..], lo, it, shifts)
    requires a[lo] <= a[it]
    modifies a
    ensures Inserted(was, a[..], lo, it + 1, newShifts) && a[lo] == old(a[lo])
  {
    hide *;
    ghost var s := a[..];
    var cur := it;
    MovedAt(s, it, it);
    if a[it] < a[it - 1] {
      var tmp := a[cur];
      GapMoves(s, cur, it);
      a[cur] := a[cur - 1];
      cur := cur - 1;
      GapMoves(s, cur, it);
      while tmp < a[cur - 1]
        invariant lo < cur < it && a[..] == Gap(s, cur, it)
        invariant forall i :: cur <= i < it ==> s[i] > tmp
        invariant a[cur - 1] == s[cur - 1]
        decreases cur
      {
        GapMoves(s, cur, it);
        a[cur] := a[cur - 1];
        cur := cur - 1;
        GapMoves(s, cur, it);
      }
      GapMoves(s, cur, it);
      a[cur] := tmp;
    }
    WalkDone(was, s, lo, cur, it, shifts);
    FrontStays(s, lo, cur, it);
    assert a[lo] == a[..][lo];
    newShifts := shifts + it - cur;
  }

  // ---- whole passes ----

  /** The range was sorted in place and the pass made one shift per inversion. */
  ghost predicate SortedInPlace(was: seq<int>, a: seq<int>, lo: nat, hi: nat, shifts: nat)
    requires lo <= hi <= |a|
  {
    && SameOutside(was, a, lo, hi)
    && a[lo..hi] == InsertionSorted(was[lo..hi])
    && shifts == Inversions(was[lo..hi])
  }

  ghost predicate HasFloor(s: seq<int>, m: nat, x: int)
    requires m <= |s|
  {
    exists i :: 0 <= i < m && s[i] <= x
  }

  /** Every element from `m` on has one in front of `m` that is not greater, so a walk that ignores
      the start of the range stops there at the latest. */
  ghost predicate FloorInFront(s: seq<int>, m: nat)
    requires m <= |s|
  {
    forall k :: m <= k < |s| ==> HasFloor(s, m, s[k])
  }

  lemma FirstIsFloor(s: seq<int>, m: nat)
    requires 0 < m <= |s| && FloorInFront(s, m)
    ensures forall k :: m <= k < |s| ==> InsertionSorted(s[..m])[0] <= s[k]
  {
    var p := s[..m];
    var q := InsertionSorted(p);
    InsertionSortSorts(p);
    forall k | m <= k < |s| ensures q[0] <= s[k] {
      var i :| 0 <= i < m && s[i] <= s[k];
      assert p[i] in multiset(q);
    }
  }

  lemma PassDone(was: seq<int>, a: seq<int>, lo: nat, hi: nat, shifts: nat)
    requires lo <= hi <= |a| && Inserted(was, a, lo, hi, shifts)
    ensures SortedInPlace(was, a, lo, hi, shifts)
  {
  }

  /** Insertion by exchanging neighbours, from the first element on. */
  method InsertionSort(a: array<int>, lo: nat, hi: nat) returns (ghost shifts: nat)
    requires lo <= hi <= a.Length
    modifies a
    ensures SortedInPlace(old(a[..]), a[..], lo, hi, shifts)
  {
    hide Inserted, SortedInPlace, InsertionSorted, Inversions;
    ghost var was := a[..];
    var it := lo;
    shifts := 0;
    NothingInserted(was, lo);
    while it != hi
      invariant lo <= it <= hi && Inserted(was, a[..], lo, it, shifts)
      decreases hi - it
    {
      shifts := WalkSwapping(a, lo, it, was, shifts);
      it := it + 1;
    }
    PassDone(was, a[..], lo, hi, shifts);
  }

  /** The checked pass over `[lo, hi)`, by exchanges or by moves. */
  method CheckedPass(a: array<int>, lo: nat, hi: nat, moving: bool) returns (ghost shifts: nat)
    requires lo < hi <= a.Length
    modifies a
    ensures Inserted(old(a[..]), a[..], lo, hi, shifts)
  {
    hide Inserted, InsertionSorted, Inversions;
    ghost var was := a[..];
    NothingInserted(was, lo);
    var it := lo + 1;
    shifts := 0;
    while it != hi
      invariant lo < it <= hi && Inserted(was, a[..], lo, it, shifts)
      decreases hi - it
    {
      if moving {
        shifts := WalkMoving(a, lo, it, was, shifts);
      } else {
        shifts := WalkSwapping(a, lo, it, was, shifts);
      }
      it := it + 1;
    }
  }

  method Insertion(a: array<int>, lo: nat, hi: nat) returns (ghost shifts: nat)
    requires lo <= hi <= a.Length
    modifies a
    ensures SortedInPlace(old(a[..]), a[..], lo, hi, shifts)
  {
    hide Inserted, SortedInPlace, InsertionSorted, Inversions;
    ghost var was := a[..];
    NothingInserted(was, lo);
    shifts := 0;
    if lo != hi {
      shifts := CheckedPass(a, lo, hi, false);
    }
    PassDone(was, a[..], lo, hi, shifts);
  }

  method MoveInsertion(a: array<int>, lo: nat, hi: nat) returns (ghost shifts: nat)
    requires lo <= hi <= a.Length
    modifies a
    ensures SortedInPlace(old(a[..]), a[..], lo, hi, shifts)
  {
    hide Inserted, SortedInPlace, InsertionSorted, Inversions;
    ghost var was := a[..];
    NothingInserted(was, lo);
    shifts := 0;
    if lo != hi {
      shifts := CheckedPass(a, lo, hi, true);
    }
    PassDone(was, a[..], lo, hi, shifts);
  }

  /** The unguarded pass over `[begin, end)`: its walks may go left past `begin`, never past `lo`. */
  method UnguardedPass(a: array<int>, ghost lo: nat, begin: nat, end: nat, moving: bool,
                       ghost was: seq<int>, ghost before: nat)
    returns (ghost shifts: nat)
    requires lo < begin <= end <= a.Length && Inserted(was, a[..], lo, begin, before)
    requires forall k :: begin <= k < end ==> a[lo] <= a[k]
    modifies a
    ensures Inserted(was, a[..], lo, end, shifts)
  {
    var it := begin;
    shifts := before;
    ghost var floor := a[lo];
    while it != end
      invariant begin <= it <= end && Inserted(was, a[..], lo, it, shifts)
      invariant a[lo] == floor && forall k :: it <= k < end ==> floor <= a[k]
      decreases end - it
    {
      ghost var rest := a[it..];
      assert a[it..] == was[it..];
      if moving {
        shifts := UnguardedWalkMoving(a, lo, it, was, shifts);
      } else {
        shifts := UnguardedWalkSwapping(a, lo, it, was, shifts);
      }
      it := it + 1;
      assert a[it..] == was[it..] == rest[1..];
      forall k | it <= k < end ensures floor <= a[k] { assert a[k] == a[it..][k - it] == rest[1..][k - it]; }
    }
  }

  /** The first `2 * size` elements with the bounds checked, the rest without. */
  method SentinelPass(a: array<int>, lo: nat, hi: nat, size: nat, moving: bool) returns (ghost shifts: nat)
    requires lo <= hi <= a.Length && size > 0
    requires var n := hi - lo; FloorInFront(a[lo..hi], if n < 2 * size then n else 2 * size)
    modifies a
    ensures SortedInPlace(old(a[..]), a[..], lo, hi, shifts)
  {
    ghost var was := a[..];
    NothingInserted(was, lo);
    shifts := 0;
    if lo == hi { return; }
    var presize := if hi - lo < 2 * size then hi - lo else 2 * size;
    var preend := lo + presize;
    shifts := CheckedPass(a, lo, preend, moving);
    FirstIsFloor(was[lo..hi], presize);
    assert was[lo..hi][..presize] == was[lo..preend];
    forall k | preend <= k < hi ensures a[lo] <= a[k] {
      assert a[lo] == a[lo..preend][0];
      assert a[k] == a[preend..][k - preend] == was[preend..][k - preend] == was[lo..hi][k - lo];
    }
    shifts := UnguardedPass(a, lo, preend, hi, moving, was, shifts);
  }
}
