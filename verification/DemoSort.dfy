/** The demonstration sorts with a depth limit: recursive ones, and loops that call themselves on
    the shorter side only. */
module DemoSort {
  import opened Powers
  import opened Ranges
  import opened Slices
  import opened Partition
  import opened DemoPartitions
  import PartitionLoops
  import Ins = Insertion
  import SmallSort
  import Cutoff = CutoffQuickSort
  import PolicyLoops = PolicyQuickSortLoops

  // ---- one division ----

  /** `[lo, hi)` was rearranged around the element now at `mid`. */
  ghost predicate Divides(was: seq<int>, s: seq<int>, lo: nat, mid: nat, hi: nat)
    requires lo <= mid < hi <= |s| == |was|
  {
    && SameOutside(was, s, lo, hi)
    && multiset(s[lo..hi]) == multiset(was[lo..hi])
    && AllBelow(s[lo..mid], s[mid])
    && AllAtLeast(s[mid + 1..hi], s[mid])
  }

  /** Middle element to the end, partition in front of it, and back to where the parts meet. */
  lemma Divided(s0: seq<int>, s1: seq<int>, s2: seq<int>, lo: nat, k: nat, mid: nat, hi: nat)
    requires lo <= k < hi <= |s0| == |s1| == |s2| && lo <= mid < hi
    requires s1 == Swap(s0, k, hi - 1)
    requires SameOutside(s1, s2, lo, hi - 1) && s2[hi - 1] == s1[hi - 1]
    requires IsPartition(s1[lo..hi - 1], Below(s1[hi - 1]), (s2[lo..hi - 1], mid - lo))
    ensures Divides(s0, Swap(s2, mid, hi - 1), lo, mid, hi)
  {
    hide Swap, SameOutside, Below;
    var p, t := s1[hi - 1], Swap(s2, mid, hi - 1);
    SwapInside(s0, lo, k, hi);
    OneMore(s1, s2, lo, hi);
    SwapInside(s2, lo, mid, hi);
    SameOutsideTwice(s0, s1, s2, lo, hi);
    SameOutsideTwice(s0, s2, t, lo, hi);
    assert s1[lo..hi] == s1[lo..hi - 1] + [p] && s2[lo..hi] == s2[lo..hi - 1] + [p];
    SidesOf(s2, lo, mid, hi, p);
  }

  lemma SwapInside(s: seq<int>, lo: nat, k: nat, hi: nat)
    requires lo <= k < hi <= |s|
    ensures var t := Swap(s, k, hi - 1);
      SameOutside(s, t, lo, hi) && multiset(t[lo..hi]) == multiset(s[lo..hi])
  {
    var t := Swap(s, k, hi - 1);
    assert t[lo..hi] == Swap(s[lo..hi], k - lo, hi - 1 - lo);
  }

  lemma SidesOf(s: seq<int>, lo: nat, mid: nat, hi: nat, p: int)
    requires lo <= mid < hi <= |s| && s[hi - 1] == p
    requires AllSatisfy(s[lo..hi - 1][..mid - lo], Below(p)) && NoneSatisfy(s[lo..hi - 1][mid - lo..], Below(p))
    ensures var t := Swap(s, mid, hi - 1);
      t[mid] == p && AllBelow(t[lo..mid], p) && AllAtLeast(t[mid + 1..hi], p)
  {
    var t, r := Swap(s, mid, hi - 1), s[lo..hi - 1];
    forall i | lo <= i < mid ensures t[i] < p { assert s[i] == r[..mid - lo][i - lo]; }
    forall i | mid <= i < hi - 1 ensures s[i] >= p { assert s[i] == r[mid - lo..][i - mid]; }
  }

  /** A side may be rearranged without harm. */
  lemma SideRearranged(was: seq<int>, s: seq<int>, t: seq<int>, lo: nat, mid: nat, hi: nat, low: bool)
    requires lo <= mid < hi <= |s| == |was| == |t| && Divides(was, s, lo, mid, hi)
    requires low ==> SameOutside(s, t, lo, mid) && multiset(t[lo..mid]) == multiset(s[lo..mid])
    requires !low ==> SameOutside(s, t, mid + 1, hi) && multiset(t[mid + 1..hi]) == multiset(s[mid + 1..hi])
    ensures Divides(was, t, lo, mid, hi)
  {
    hide SameOutside, AllBelow, AllAtLeast;
    Recombined(s, lo, mid, hi);
    Recombined(t, lo, mid, hi);
    if low {
      SameOutsideItself(t, mid + 1, hi);
      SidesApart(s, t, t, lo, mid, hi);
      Members(s[lo..mid], t[lo..mid]);
    } else {
      SameOutsideItself(t, lo, mid);
      SidesApartHighFirst(s, t, t, lo, mid, hi);
      Members(s[mid + 1..hi], t[mid + 1..hi]);
    }
    SameOutsideTwice(was, s, t, lo, hi);
    assert multiset(t[lo..mid] + [t[mid]] + t[mid + 1..hi]) == multiset(s[lo..mid] + [s[mid]] + s[mid + 1..hi]);
  }

  /** What sorting a divided range comes to. */
  lemma DividedSorted(was: seq<int>, s: seq<int>, lo: nat, mid: nat, hi: nat)
    requires lo <= mid < hi <= |s| == |was| && Divides(was, s, lo, mid, hi)
    ensures InsertionSorted(was[lo..hi])
      == InsertionSorted(s[lo..mid]) + [s[mid]] + InsertionSorted(s[mid + 1..hi])
  {
    hide InsertionSorted, SameOutside, AllBelow, AllAtLeast;
    Recombined(s, lo, mid, hi);
    SortedAroundPivot(s[lo..mid], s[mid], s[mid + 1..hi]);
    SamePermutation(s[lo..hi], was[lo..hi]);
  }

  // ---- the loop over a shrinking range ----

  /** `[first, last)` is sorted once `[lo, hi)` is. */
  ghost predicate LeftToSort(s0: seq<int>, s: seq<int>, first: nat, lo: nat, hi: nat, last: nat)
    requires first <= lo <= hi <= last <= |s| == |s0|
  {
    && SameOutside(s0, s, first, last)
    && Pending(InsertionSorted(s0[first..last]), s, first, lo, hi, last, InsertionSorted(s[lo..hi]))
  }

  lemma StartSorting(s: seq<int>, lo: nat, hi: nat)
    requires lo <= hi <= |s|
    ensures LeftToSort(s, s, lo, lo, hi, hi)
  {
    PendingStart(s, lo, hi, InsertionSorted(s[lo..hi]));
  }

  lemma AllSorted(s0: seq<int>, s: seq<int>, t: seq<int>, first: nat, lo: nat, hi: nat, last: nat)
    requires first <= lo <= hi <= last <= |s| == |s0| == |t| && LeftToSort(s0, s, first, lo, hi, last)
    requires SameOutside(s, t, lo, hi) && t[lo..hi] == InsertionSorted(s[lo..hi])
    ensures SameOutside(s0, t, first, last) && t[first..last] == InsertionSorted(s0[first..last])
  {
    hide InsertionSorted, SameOutside, Pending;
    PendingDone(InsertionSorted(s0[first..last]), s, t, first, lo, hi, last, InsertionSorted(s[lo..hi]));
    SameOutsideTwice(s0, s, t, first, last);
  }

  /** The low side is sorted; the loop goes on behind the pivot. */
  lemma LowSorted(s0: seq<int>, s: seq<int>, s1: seq<int>, s2: seq<int>, first: nat, lo: nat, mid: nat, hi: nat,
                  last: nat)
    requires first <= lo <= mid < hi <= last <= |s| == |s0| == |s1| == |s2|
    requires LeftToSort(s0, s, first, lo, hi, last) && Divides(s, s1, lo, mid, hi)
    requires SameOutside(s1, s2, lo, mid) && s2[lo..mid] == InsertionSorted(s1[lo..mid])
    ensures LeftToSort(s0, s2, first, mid + 1, hi, last)
  {
    hide InsertionSorted, SameOutside, Pending, AllBelow, AllAtLeast;
    DividedSorted(s, s1, lo, mid, hi);
    SameOutsideItself(s2, mid + 1, hi);
    SidesApart(s1, s2, s2, lo, mid, hi);
    SameOutsideTwice(s, s1, s2, lo, hi);
    var rest := InsertionSorted(s2[mid + 1..hi]);
    Behind(s2, lo, mid, hi, rest);
    PendingShrinks(InsertionSorted(s0[first..last]), s, s2, first, lo, mid + 1, hi, hi, last,
                   InsertionSorted(s[lo..hi]), rest);
    SameOutsideTwice(s0, s, s2, first, last);
  }

  /** The high side is sorted; the loop goes on in front of the pivot. */
  lemma HighSorted(s0: seq<int>, s: seq<int>, s1: seq<int>, s2: seq<int>, first: nat, lo: nat, mid: nat, hi: nat,
                   last: nat)
    requires first <= lo <= mid < hi <= last <= |s| == |s0| == |s1| == |s2|
    requires LeftToSort(s0, s, first, lo, hi, last) && Divides(s, s1, lo, mid, hi)
    requires SameOutside(s1, s2, mid + 1, hi) && s2[mid + 1..hi] == InsertionSorted(s1[mid + 1..hi])
    ensures LeftToSort(s0, s2, first, lo, mid, last)
  {
    hide InsertionSorted, SameOutside, Pending, AllBelow, AllAtLeast;
    DividedSorted(s, s1, lo, mid, hi);
    SameOutsideItself(s2, lo, mid);
    SidesApartHighFirst(s1, s2, s2, lo, mid, hi);
    SameOutsideTwice(s, s1, s2, lo, hi);
    var rest := InsertionSorted(s2[lo..mid]);
    InFront(s2, lo, mid, hi, rest);
    PendingShrinks(InsertionSorted(s0[first..last]), s, s2, first, lo, lo, mid, hi, last,
                   InsertionSorted(s[lo..hi]), rest);
    SameOutsideTwice(s0, s, s2, first, last);
  }

  // ---- the insertion that gives up ----

  const LIMIT: nat := 8

  lemma {:induction false} MoreInversions(s: seq<int>, k: nat)
    requires k <= |s|
    ensures Inversions(s[..k]) <= Inversions(s)
  {
    if k < |s| {
      MoreInversions(s[..|s| - 1], k);
      assert s[..|s| - 1][..k] == s[..k];
    } else {
      assert s[..k] == s;
    }
  }

  /** The first `it - lo` elements are inserted: still the same elements, and at least `shifts`
      inversions in all. */
  lemma SoFar(was: seq<int>, s: seq<int>, lo: nat, it: nat, hi: nat, shifts: nat)
    requires lo <= it <= hi <= |s| && Ins.Inserted(was, s, lo, it, shifts)
    ensures |was| == |s| && SameOutside(was, s, lo, hi) && multiset(s[lo..hi]) == multiset(was[lo..hi])
    ensures shifts <= Inversions(was[lo..hi])
    ensures it == hi ==> s[lo..hi] == InsertionSorted(was[lo..hi]) && shifts == Inversions(was[lo..hi])
  {
    hide InsertionSorted, Inversions;
    Widen(was, s, lo, lo, it, hi);
    OtherSide(was, s, lo, it, hi);
    InsertionSortSorts(was[lo..it]);
    Adjoin(s, lo, it, hi);
    Adjoin(was, lo, it, hi);
    assert multiset(s[lo..it] + s[it..hi]) == multiset(was[lo..it] + was[it..hi]);
    MoreInversions(was[lo..hi], it - lo);
    assert was[lo..hi][..it - lo] == was[lo..it];
  }

  /** The same elements in the range, nothing changed elsewhere, and too many inversions to go on. */
  ghost predicate Abandoned(was: seq<int>, s: seq<int>, lo: nat, hi: nat)
    requires lo <= hi <= |s|
  {
    && SameOutside(was, s, lo, hi)
    && multiset(s[lo..hi]) == multiset(was[lo..hi])
    && Inversions(was[lo..hi]) >= LIMIT
  }

  /** Giving up in the middle of a walk: the element held aside is put back first, so the elements
      are still the same, and there were at least as many inversions as shifts. */
  lemma GivenUp(was: seq<int>, s: seq<int>, lo: nat, cur: nat, it: nat, hi: nat, shifts: nat)
    requires lo <= cur <= it < hi <= |s| && Ins.Inserted(was, s, lo, it, shifts)
    requires forall i :: cur <= i < it ==> s[i] > s[it]
    requires shifts + it - cur >= LIMIT
    ensures Abandoned(was, s, lo, hi) && Abandoned(was, Ins.Moved(s, cur, it), lo, hi)
  {
    hide InsertionSorted, Inversions;
    var t := Ins.Moved(s, cur, it);
    SoFar(was, s, lo, it, hi, shifts);
    MovedInside(s, lo, cur, it, hi);
    SameOutsideTwice(was, s, t, lo, hi);
    var init, p := was[lo..it], s[lo..it];
    assert was[it] == was[it..][0] == s[it..][0] == s[it];
    assert was[lo..hi][..it + 1 - lo] == init + [s[it]];
    AtLeastThese(init, p, s[it], cur - lo);
    MoreInversions(was[lo..hi], it + 1 - lo);
  }

  lemma SameTail(s: seq<int>, t: seq<int>, k: nat, hi: nat)
    requires k <= hi <= |s| == |t| && s[k..] == t[k..]
    ensures s[k..hi] == t[k..hi] && s[hi..] == t[hi..]
  {
    assert s[k..hi] == s[k..][..hi - k] && t[k..hi] == t[k..][..hi - k];
    assert s[hi..] == s[k..][hi - k..] && t[hi..] == t[k..][hi - k..];
  }

  lemma Taken(p: seq<int>, k: nat, x: int, rest: seq<int>)
    requires k <= |p|
    ensures multiset((p[..k] + [x] + p[k..]) + rest) == multiset(p + [x] + rest)
  {
    assert p == p[..k] + p[k..];
  }

  lemma MovedOutside(s: seq<int>, t: seq<int>, lo: nat, it: nat, hi: nat)
    requires lo <= it < hi <= |s| == |t| && s[..lo] == t[..lo] && s[hi..] == t[hi..]
    ensures SameOutside(s, t, lo, hi)
  {
  }

  lemma MovedInside(s: seq<int>, lo: nat, cur: nat, it: nat, hi: nat)
    requires lo <= cur <= it < hi <= |s|
    ensures var t := Ins.Moved(s, cur, it); SameOutside(s, t, lo, hi) && multiset(t[lo..hi]) == multiset(s[lo..hi])
  {
    var t := Ins.Moved(s, cur, it);
    Ins.MovedSlices(s, lo, cur, it);
    hide *;
    SameTail(s, t, it + 1, hi);
    Adjoin(t, lo, it + 1, hi);
    Recombined(s, lo, it, hi);
    Taken(s[lo..it], cur - lo, s[it], s[it + 1..hi]);
    MovedOutside(s, t, lo, it, hi);
  }

  lemma AtLeastThese(init: seq<int>, p: seq<int>, x: int, k: nat)
    requires p == InsertionSorted(init) && k <= |p|
    requires forall i :: k <= i < |p| ==> p[i] > x
    ensures Inversions(init) + |p| - k <= Inversions(init + [x])
  {
    InsertionSortSorts(init);
    CountGreaterSameContents(p, init, x);
    assert p == p[..k] + p[k..];
    CountGreaterSplit(p[..k], p[k..], x);
    WalkLength(p[k..], x, 0);
    assert (init + [x])[..|init|] == init;
  }

  /** Sorts up to five elements, and longer ranges if fewer than eight shifts do it; otherwise it
      gives up, with the elements rearranged but all there. */
  method IncompleteInsertion(a: array<int>, lo: nat, hi: nat) returns (done: bool)
    requires lo <= hi <= a.Length
    modifies a
    ensures SameOutside(old(a[..]), a[..], lo, hi)
    ensures multiset(a[lo..hi]) == multiset(old(a[lo..hi]))
    ensures done <==> hi - lo <= 5 || Inversions(old(a[lo..hi])) < LIMIT
    ensures done ==> a[lo..hi] == InsertionSorted(old(a[lo..hi]))
  {
    hide InsertionSorted, Inversions, SameOutside;
    if hi - lo <= 5 {
      SmallCases(a, lo, hi);
      return true;
    }
    done := LimitedInsertion(a, lo, hi);
  }

  method LimitedInsertion(a: array<int>, lo: nat, hi: nat) returns (done: bool)
    requires lo < hi <= a.Length
    modifies a
    ensures SameOutside(old(a[..]), a[..], lo, hi)
    ensures multiset(a[lo..hi]) == multiset(old(a[lo..hi]))
    ensures done <==> Inversions(old(a[lo..hi])) < LIMIT
    ensures done ==> a[lo..hi] == InsertionSorted(old(a[lo..hi]))
  {
    hide InsertionSorted, Inversions, SameOutside, Ins.Inserted, Ins.Moved;
    ghost var was := a[..];
    Ins.NothingInserted(was, lo);
    var it: nat, count: nat := lo + 1, 0;
    while it != hi
      invariant lo < it <= hi && count < LIMIT && Ins.Inserted(was, a[..], lo, it, count)
      decreases hi - it
    {
      if a[it] < a[it - 1] {
        var gaveUp;
        count, gaveUp := LimitedWalk(a, lo, it, hi, count, was);
        if gaveUp { return false; }
      } else {
        Ins.MovedAt(a[..], it, it);
        Ins.WalkDone(was, a[..], lo, it, it, count);
      }
      it := it + 1;
    }
    SoFar(was, a[..], lo, hi, hi, count);
    done := true;
  }

  /** One walk of the pass, counting every shift; at the limit it puts the element back where the
      gap is. */
  method LimitedWalk(a: array<int>, lo: nat, it: nat, hi: nat, count0: nat, ghost was: seq<int>)
    returns (count: nat, gaveUp: bool)
    requires lo < it < hi <= a.Length && count0 < LIMIT && Ins.Inserted(was, a[..], lo, it, count0)
    requires a[it] < a[it - 1]
    modifies a
    ensures !gaveUp ==> count < LIMIT && Ins.Inserted(was, a[..], lo, it + 1, count)
    ensures gaveUp ==> Abandoned(was, a[..], lo, hi)
  {
    hide *;
    ghost var s := a[..];
    count := count0 + 1;
    if count == LIMIT {
      GivenUp(was, s, lo, it - 1, it, hi, count0);
      return count, true;
    }
    var c := it;
    var t := a[c];
    Ins.GapMoves(s, c, it);
    a[c] := a[c - 1];
    c := c - 1;
    Ins.GapMoves(s, c, it);
    while lo != c && t < a[c - 1]
      invariant lo <= c < it && a[..] == Ins.Gap(s, c, it)
      invariant forall i :: c <= i < it ==> s[i] > t
      invariant c > 0 ==> a[c - 1] == s[c - 1]
      invariant count0 + it - c == count < LIMIT
    {
      Ins.GapMoves(s, c, it);
      a[c] := a[c - 1];
      count := count + 1;
      Ins.GapMoves(s, c - 1, it);
      if count == LIMIT {
        a[c - 1] := t;
        GivenUp(was, s, lo, c - 1, it, hi, count0);
        return count, true;
      }
      c := c - 1;
    }
    Ins.GapMoves(s, c, it);
    a[c] := t;
    Ins.WalkDone(was, s, lo, c, it, count0);
    gaveUp := false;
  }

  lemma NothingToSort(s: seq<int>)
    requires |s| <= 1
    ensures InsertionSorted(s) == s
  {
    InsertionSortSorts(s);
    SameContentsSameLength(s, InsertionSorted(s));
    SortedIsUnique(s, InsertionSorted(s));
  }

  lemma SmallIs(was: seq<int>, s: seq<int>, p: nat, n: nat)
    requires p + n <= |s| && SmallSort.InPlace(was, s, p, n)
    ensures SameOutside(was, s, p, p + n) && s[p..p + n] == InsertionSorted(was[p..p + n])
  {
  }

  /** The switch on the length. */
  method SmallCases(a: array<int>, lo: nat, hi: nat)
    requires lo <= hi <= a.Length && hi - lo <= 5
    modifies a
    ensures SameOutside(old(a[..]), a[..], lo, hi)
    ensures a[lo..hi] == InsertionSorted(old(a[lo..hi]))
    ensures multiset(a[lo..hi]) == multiset(old(a[lo..hi]))
  {
    hide InsertionSorted, SameOutside, SmallSort.InPlace;
    ghost var was := a[..];
    InsertionSortSorts(was[lo..hi]);
    if hi - lo <= 1 {
      SameOutsideItself(was, lo, hi);
      NothingToSort(was[lo..hi]);
      return;
    }
    if hi - lo == 2 {
      SortPair(a, lo);
      return;
    }
    var count;
    if hi - lo == 3 {
      count := SmallSort.Sort3(a, lo);
    } else if hi - lo == 4 {
      count := SmallSort.Sort4(a, lo);
    } else {
      count := SmallSort.Sort5(a, lo);
    }
    SmallIs(was, a[..], lo, hi - lo);
  }

  method SortPair(a: array<int>, lo: nat)
    requires lo + 2 <= a.Length
    modifies a
    ensures SameOutside(old(a[..]), a[..], lo, lo + 2)
    ensures a[lo..lo + 2] == InsertionSorted(old(a[lo..lo + 2]))
  {
    ghost var was := a[..];
    if a[lo + 1] < a[lo] {
      a[lo], a[lo + 1] := a[lo + 1], a[lo];
    }
    PairSorted(was, a[..], lo);
  }

  lemma PairSorted(was: seq<int>, s: seq<int>, lo: nat)
    requires lo + 2 <= |was| == |s|
    requires s == if was[lo + 1] < was[lo] then Swap(was, lo, lo + 1) else was
    ensures SameOutside(was, s, lo, lo + 2) && s[lo..lo + 2] == InsertionSorted(was[lo..lo + 2])
  {
    hide InsertionSorted;
    var r, t := was[lo..lo + 2], s[lo..lo + 2];
    if was[lo + 1] < was[lo] {
      assert t == Swap(r, 0, 1);
    }
    SortedPermutation(r, t);
  }

  // ---- the loops ----

  datatype Variant = TailRecursion1(f: StdPartition) | Partition2 | PartitionSentinel3 | MonitorSwaps

  lemma InFrontIsPartition(was: seq<int>, s: seq<int>, lo: nat, mid: nat, hi: nat)
    requires lo <= mid < hi <= |s| == |was| && PartitionedInFront(was, s, lo, mid, hi)
    ensures SameOutside(was, s, lo, hi - 1) && s[hi - 1] == was[hi - 1]
    ensures IsPartition(was[lo..hi - 1], Below(was[hi - 1]), (s[lo..hi - 1], mid - lo))
  {
    ExchangeIsPartition(was[lo..hi - 1], Below(was[hi - 1]));
  }

  /** The middle element becomes the pivot and the range is divided around it. The partition makes
      at most `hi - lo + 3` comparisons. */
  method DivideMiddle(a: array<int>, lo: nat, hi: nat, variant: Variant)
    returns (mid: nat, swaps: nat, ghost evals: nat)
    requires lo < hi <= a.Length
    modifies a
    ensures lo <= mid < hi && Divides(old(a[..]), a[..], lo, mid, hi)
    ensures evals <= hi - lo + 3
  {
    hide *;
    ghost var s0 := a[..];
    var pivot, k := hi - 1, lo + (hi - lo) / 2;
    PartitionLoops.IterSwap(a, k, pivot);
    ghost var s1 := a[..];
    swaps, evals := 0, 0;
    match variant {
      case TailRecursion1(f) =>
        PartitionLoops.StandardIs(f, a[lo..pivot], Below(a[pivot]));
        PartitionLoops.PivotStands(s1, lo, hi, Below);
        mid := PartitionLoops.Standard(a, lo, pivot, PartitionLoops.Looked(pivot, Below), f, Below(s1[pivot]));
        OneMore(s1, a[..], lo, hi);
        // the complexity clause of ISO C++ [alg.partitions]: exactly one application for each element
        evals := pivot - lo;
      case Partition2 =>
        mid, evals := LivePartition(a, lo, hi);
        InFrontIsPartition(s1, a[..], lo, mid, hi);
      case _ =>
        mid, swaps, evals := CountingPartition(a, lo, hi);
        InFrontIsPartition(s1, a[..], lo, mid, hi);
    }
    ghost var s2 := a[..];
    Divided(s0, s1, s2, lo, k, mid, hi);
    PartitionLoops.IterSwap(a, mid, pivot);
  }

  /** Both sides sorted in place: the range is. */
  lemma BothSorted(s: seq<int>, s1: seq<int>, s2: seq<int>, s3: seq<int>, lo: nat, mid: nat, hi: nat)
    requires lo <= mid < hi <= |s| == |s1| == |s2| == |s3| && Divides(s, s1, lo, mid, hi)
    requires SameOutside(s1, s2, lo, mid) && s2[lo..mid] == InsertionSorted(s1[lo..mid])
    requires SameOutside(s2, s3, mid + 1, hi) && s3[mid + 1..hi] == InsertionSorted(s2[mid + 1..hi])
    ensures SameOutside(s, s3, lo, hi) && s3[lo..hi] == InsertionSorted(s[lo..hi])
  {
    hide InsertionSorted, SameOutside, AllBelow, AllAtLeast;
    DividedSorted(s, s1, lo, mid, hi);
    SidesApart(s1, s2, s3, lo, mid, hi);
    SameOutsideTwice(s, s1, s3, lo, hi);
    Recombined(s3, lo, mid, hi);
  }

  lemma SameHigh(s: seq<int>, t: seq<int>, lo: nat, mid: nat, hi: nat)
    requires lo <= mid < hi <= |s| == |t| && SameOutside(s, t, lo, mid)
    ensures t[mid + 1..hi] == s[mid + 1..hi]
  {
    assert s[mid + 1..hi] == s[mid..][1..hi - mid] && t[mid + 1..hi] == t[mid..][1..hi - mid];
  }

  /** So few inversions that the incomplete insertion gets to the end. */
  ghost predicate Quick(s: seq<int>) { |s| <= 5 || Inversions(s) < LIMIT }

  lemma QuickIs(s: seq<int>)
    ensures Quick(s) <==> |s| <= 5 || Inversions(s) < LIMIT
  {
  }

  /** After a partition without a single exchange: if both sides can be sorted with a few shifts the
      range is done; if not, it is still divided. */
  method TryEarly(a: array<int>, lo: nat, mid: nat, hi: nat, ghost was: seq<int>) returns (done: bool)
    requires lo <= mid < hi <= a.Length == |was| && Divides(was, a[..], lo, mid, hi)
    modifies a
    ensures done ==> SameOutside(was, a[..], lo, hi) && a[lo..hi] == InsertionSorted(was[lo..hi])
    ensures !done ==> Divides(was, a[..], lo, mid, hi)
    ensures done <==> Quick(old(a[lo..mid])) && Quick(old(a[mid + 1..hi]))
  {
    hide *;
    ghost var s1 := a[..];
    QuickIs(s1[lo..mid]);
    QuickIs(s1[mid + 1..hi]);
    done := IncompleteInsertion(a, lo, mid);
    ghost var s2 := a[..];
    SideRearranged(was, s1, s2, lo, mid, hi, true);
    if done {
      SameHigh(s1, s2, lo, mid, hi);
      done := IncompleteInsertion(a, mid + 1, hi);
      if done {
        BothSorted(was, s1, s2, a[..], lo, mid, hi);
      } else {
        SideRearranged(was, s2, a[..], lo, mid, hi, false);
      }
    }
  }

  /** The comparisons that may still be spent on `n` elements at this depth, times seven. */
  function Budget(n: nat, depth: nat, max: nat): int {
    if depth < max then 8 * (n * (max - 1 - depth)) else 0
  }

  lemma {:induction false} ProductNonNegative(n: nat, k: nat)
    ensures n * k >= 0
  {
    if k > 0 {
      ProductNonNegative(n, k - 1);
      assert n * k == n * (k - 1) + n;
    }
  }

  lemma BudgetNonNegative(n: nat, depth: nat, max: nat)
    ensures Budget(n, depth, max) >= 0
  {
    if depth < max { ProductNonNegative(n, max - 1 - depth); }
  }

  /** A division of more than twenty elements is paid for by going one level deeper. */
  lemma BudgetStep(n: nat, low: nat, depth: nat, max: nat)
    requires 20 < n && low < n && depth + 1 < max
    ensures 7 * (n + 3) + Budget(low, depth + 1, max) + Budget(n - 1 - low, depth + 1, max) <= Budget(n, depth, max)
  {
    var k, high := max - 2 - depth, n - 1 - low;
    assert low * k + high * k == (n - 1) * k;
    assert (n - 1) * k == n * k - k && n * (k + 1) == n * k + n;
  }

  /** `sort(begin, end, depth, max)` of the variants that call themselves on the shorter side and
      loop on the other: it sorts, nests at most floor(log2 n) + 1 deep, and spends at most
      8/7 * n * (max - 1 - depth) comparisons with pivots. */
  method IntroLoop(a: array<int>, first: nat, last: nat, depth0: nat, max: nat, variant: Variant)
    returns (ghost nested: nat, ghost evals: nat)
    requires first <= last <= a.Length
    modifies a
    ensures SameOutside(old(a[..]), a[..], first, last)
    ensures a[first..last] == InsertionSorted(old(a[first..last]))
    ensures nested <= Log2(last - first) + 1
    ensures 7 * evals <= Budget(last - first, depth0, max)
    decreases last - first
  {
    hide *;
    ghost var s0 := a[..];
    var lo: nat, hi: nat, depth: nat := first, last, depth0;
    nested, evals := 1, 0;
    StartSorting(s0, lo, hi);
    while 20 < hi - lo
      invariant first <= lo <= hi <= last && LeftToSort(s0, a[..], first, lo, hi, last)
      invariant nested <= Log2(last - first) + 1
      invariant 7 * evals + Budget(hi - lo, depth, max) <= Budget(last - first, depth0, max)
      decreases hi - lo
    {
      ghost var s := a[..];
      depth := depth + 1;
      if depth < max {
        var mid, swaps;
        ghost var n, e;
        mid, swaps, e := DivideMiddle(a, lo, hi, variant);
        BudgetStep(hi - lo, mid - lo, depth - 1, max);
        evals := evals + e;
        if variant.MonitorSwaps? && swaps == 0 {
          var done := TryEarly(a, lo, mid, hi, s);
          if done {
            AllSorted(s0, s, a[..], first, lo, hi, last);
            BudgetNonNegative(mid - lo, depth, max);
            BudgetNonNegative(hi - lo - 1 - (mid - lo), depth, max);
            return;
          }
        }
        ghost var s1 := a[..];
        if mid - lo < hi - mid {
          n, e := IntroLoop(a, lo, mid, depth, max, variant);
          NestingStep(mid - lo, hi - lo, last - first);
          LowSorted(s0, s, s1, a[..], first, lo, mid, hi, last);
          lo := mid + 1;
        } else {
          n, e := IntroLoop(a, mid + 1, hi, depth, max, variant);
          NestingStep(hi - (mid + 1), hi - lo, last - first);
          HighSorted(s0, s, s1, a[..], first, lo, mid, hi, last);
          hi := mid;
        }
        nested, evals := if nested < n + 1 then n + 1 else nested, evals + e;
      } else {
        PolicyLoops.LibrarySort(a, lo, hi);
        AllSorted(s0, s, a[..], first, lo, hi, last);
        BudgetNonNegative(hi - lo, depth - 1, max);
        return;
      }
    }
    ghost var s := a[..];
    ShortRange(a, lo, hi, variant);
    BudgetNonNegative(hi - lo, depth, max);
    AllSorted(s0, s, a[..], first, lo, hi, last);
  }

  lemma NestingStep(m: nat, n: nat, total: nat)
    requires 2 * m + 1 <= n <= total && n > 20
    ensures Log2(m) + 2 <= Log2(total) + 1
  {
    Log2Half(if m == 0 then 1 else m, total);
  }

  /** What is done with at most twenty elements. */
  method ShortRange(a: array<int>, lo: nat, hi: nat, variant: Variant)
    requires lo <= hi <= a.Length
    modifies a
    ensures SameOutside(old(a[..]), a[..], lo, hi)
    ensures a[lo..hi] == InsertionSorted(old(a[lo..hi]))
  {
    hide InsertionSorted, SameOutside;
    ghost var was := a[..];
    if variant.MonitorSwaps? && hi - lo < 5 {
      SmallCases(a, lo, hi);
    } else {
      ghost var shifts := Ins.MoveInsertion(a, lo, hi);
      Cutoff.SortedIs(was, a[..], lo, hi, shifts);
    }
  }

  /** The entry point: at most 8/7 * n * (2 * floor(log2 n) - 1) comparisons with pivots outside the
      fallback and the short ranges, and at most floor(log2 n) + 1 nested activations. */
  method RunLoop(a: array<int>, lo: nat, hi: nat, variant: Variant) returns (ghost nested: nat, ghost evals: nat)
    requires lo <= hi <= a.Length
    modifies a
    ensures SameOutside(old(a[..]), a[..], lo, hi)
    ensures a[lo..hi] == InsertionSorted(old(a[lo..hi]))
    ensures nested <= Log2(hi - lo) + 1
    ensures 7 * evals <= Budget(hi - lo, 0, 2 * Log2(hi - lo))
  {
    hide *;
    var max := PolicyLoops.DepthLimit(hi - lo);
    nested, evals := IntroLoop(a, lo, hi, 0, max, variant);
  }

  // ---- the doubly recursive sorts ----

  /** Both sides cut off at `size`: so is the range. */
  lemma BothCutOff(s: seq<int>, s1: seq<int>, s2: seq<int>, s3: seq<int>, lo: nat, mid: nat, hi: nat, size: nat)
    requires lo <= mid < hi <= |s| == |s1| == |s2| == |s3| && Divides(s, s1, lo, mid, hi)
    requires SameOutside(s1, s2, lo, mid) && Cutoff.CutOff(s1[lo..mid], s2[lo..mid], size)
    requires SameOutside(s2, s3, mid + 1, hi) && Cutoff.CutOff(s2[mid + 1..hi], s3[mid + 1..hi], size)
    ensures SameOutside(s, s3, lo, hi) && Cutoff.CutOff(s[lo..hi], s3[lo..hi], size)
  {
    hide SameOutside, NearlySorted;
    SideRearranged(s, s1, s2, lo, mid, hi, true);
    SideRearranged(s, s2, s3, lo, mid, hi, false);
    SidesApart(s1, s2, s3, lo, mid, hi);
    Recombined(s3, lo, mid, hi);
    NearlySortedAroundPivot(s3[lo..mid], s3[mid], s3[mid + 1..hi], size);
  }

  lemma SortedIsCutOff(s: seq<int>, r: seq<int>, size: nat)
    requires r == InsertionSorted(s)
    ensures Cutoff.CutOff(s, r, size)
  {
    InsertionSortSorts(s);
  }

  /** `intro::sort` for `size` 1, `intro_global_insertion<Size>::sort` otherwise: ranges of at most
      `size` elements are left as they are. */
  method IntroRecursive(a: array<int>, lo: nat, hi: nat, depth0: nat, max: nat, size: nat, f: StdPartition)
    requires lo <= hi <= a.Length && size >= 1
    modifies a
    ensures SameOutside(old(a[..]), a[..], lo, hi)
    ensures Cutoff.CutOff(old(a[lo..hi]), a[lo..hi], size)
    decreases hi - lo
  {
    hide *;
    ghost var s := a[..];
    if hi - lo <= size {
      Cutoff.ShortRange(s[lo..hi], size);
      SameOutsideItself(s, lo, hi);
      return;
    }
    var depth := depth0 + 1;
    if depth < max {
      ghost var e;
      var mid, swaps;
      mid, swaps, e := DivideMiddle(a, lo, hi, TailRecursion1(f));
      ghost var s1 := a[..];
      IntroRecursive(a, lo, mid, depth, max, size, f);
      ghost var s2 := a[..];
      IntroRecursive(a, mid + 1, hi, depth, max, size, f);
      BothCutOff(s, s1, s2, a[..], lo, mid, hi, size);
    } else {
      PolicyLoops.LibrarySort(a, lo, hi);
      SortedIsCutOff(s[lo..hi], a[lo..hi], size);
    }
  }

  lemma CutOffAtOneSorts(s: seq<int>, r: seq<int>)
    requires Cutoff.CutOff(s, r, 1)
    ensures r == InsertionSorted(s)
  {
    SortedPermutation(s, r);
  }

  /** `intro::run`. */
  method RunIntro(a: array<int>, lo: nat, hi: nat, f: StdPartition)
    requires lo <= hi <= a.Length
    modifies a
    ensures SameOutside(old(a[..]), a[..], lo, hi)
    ensures a[lo..hi] == InsertionSorted(old(a[lo..hi]))
  {
    hide *;
    ghost var s := a[..];
    var max := PolicyLoops.DepthLimit(hi - lo);
    IntroRecursive(a, lo, hi, 0, max, 1, f);
    CutOffAtOneSorts(s[lo..hi], a[lo..hi]);
  }

  lemma FinishedByInsertion(s0: seq<int>, s1: seq<int>, s2: seq<int>, lo: nat, hi: nat, size: nat, shifts: nat)
    requires lo <= hi <= |s0| == |s1| == |s2| && SameOutside(s0, s1, lo, hi) && size >= 1
    requires Cutoff.CutOff(s0[lo..hi], s1[lo..hi], size) && Ins.SortedInPlace(s1, s2, lo, hi, shifts)
    ensures SameOutside(s0, s2, lo, hi) && s2[lo..hi] == InsertionSorted(s0[lo..hi])
    ensures shifts <= (hi - lo) * (size - 1)
  {
    hide InsertionSorted, Inversions;
    SameOutsideTwice(s0, s1, s2, lo, hi);
    SamePermutation(s0[lo..hi], s1[lo..hi]);
    FewInversions(s1[lo..hi], size);
  }

  /** `intro_global_insertion<Size>::run`: the closing pass needs fewer than `size` shifts for each
      element. */
  method RunGlobalInsertion(a: array<int>, lo: nat, hi: nat, size: nat, f: StdPartition) returns (ghost shifts: nat)
    requires lo <= hi <= a.Length && size >= 1
    modifies a
    ensures SameOutside(old(a[..]), a[..], lo, hi)
    ensures a[lo..hi] == InsertionSorted(old(a[lo..hi]))
    ensures shifts <= (hi - lo) * (size - 1)
  {
    hide *;
    ghost var s := a[..];
    var max := PolicyLoops.DepthLimit(hi - lo);
    IntroRecursive(a, lo, hi, 0, max, size, f);
    ghost var s1 := a[..];
    shifts := Ins.MoveInsertion(a, lo, hi);
    FinishedByInsertion(s, s1, a[..], lo, hi, size, shifts);
  }

  // ---- what a zero swap counter says ----

  lemma SmallCounter(n: nat)
    requires n < WRAP
    ensures n % WRAP == 0 <==> n == 0
  {
  }

  /** On every range of `n` elements in front of the pivot, the 32-bit counter is zero exactly if the
      range was partitioned before the loop started. */
  ghost predicate CounterTells(n: nat) {
    forall s: seq<int>, pred: int -> bool | |s| == n ::
      Exchanges(s, pred) % WRAP == 0 <==> IsPartition(s, pred, (s, Exchange(s, pred).1))
  }

  lemma ZeroSwapsIffPartitioned(s: seq<int>, pred: int -> bool)
    requires |s| < 2 * WRAP
    ensures Exchanges(s, pred) % WRAP == 0 <==> IsPartition(s, pred, (s, Exchange(s, pred).1))
  {
    hide IsPartition, Exchange, Exchanges, CountFailing;
    ExchangesCountMisplaced(s, pred);
    NoExchangeIffPartitioned(s, pred);
    SmallCounter(Exchanges(s, pred));
  }

  lemma {:induction false} OppositeEnds(n: nat, s: seq<int>)
    requires s == seq(n, _ => 1) + seq(n, _ => 0)
    ensures Exchanges(s, Below(1)) == n
  {
    if n > 0 {
      assert s[1..|s| - 1] == seq(n - 1, _ => 1) + seq(n - 1, _ => 0);
      OppositeEnds(n - 1, s[1..|s| - 1]);
    }
  }

  /** Elements not below the pivot at the end take no part in the exchanges. */
  lemma {:induction false} Padded(s: seq<int>, k: nat) returns (t: seq<int>)
    ensures |t| == |s| + k && Exchanges(t, Below(1)) == Exchanges(s, Below(1))
  {
    if k == 0 {
      t := s;
    } else {
      var r := Padded(s, k - 1);
      FailingEnd(r, 1, Below(1));
      t := r + [1];
    }
  }

  /** From 2^33 elements on, the counter can be back at zero after 2^32 exchanges. */
  lemma CounterWraps(n: nat) returns (s: seq<int>)
    requires n >= 2 * WRAP
    ensures |s| == n && Exchanges(s, Below(1)) % WRAP == 0
    ensures !IsPartition(s, Below(1), (s, Exchange(s, Below(1)).1))
  {
    var ends := seq(WRAP, _ => 1) + seq(WRAP, _ => 0);
    OppositeEnds(WRAP, ends);
    s := Padded(ends, n - 2 * WRAP);
    NoExchangeIffPartitioned(s, Below(1));
  }

  /** The counter can be relied on exactly for ranges shorter than 2^33. */
  lemma CounterTellsIff(n: nat)
    ensures CounterTells(n) <==> n < 2 * WRAP
  {
    hide IsPartition, Exchange, Exchanges, WRAP, Below;
    if n < 2 * WRAP {
      forall s: seq<int>, pred: int -> bool | |s| == n
        ensures Exchanges(s, pred) % WRAP == 0 <==> IsPartition(s, pred, (s, Exchange(s, pred).1))
      {
        ZeroSwapsIffPartitioned(s, pred);
      }
    } else {
      var s := CounterWraps(n);
    }
  }
}
