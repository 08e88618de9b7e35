/** `fat_quicksort`, with the partition that checks no bounds too: for which ranges its whole recursion
    stays inside every range it partitions. And the insertion quicksorts built on it. */
module FatSorts {
  import opened Wrappers
  import opened Ranges
  import opened Partition
  import opened SentinelReads
  import opened Policy = PolicyQuickSort
  import opened CutoffQuickSort
  import opened PartitionLoops
  import opened Slices
  import Ins = Insertion

  /** `init` partitioned in front of the pivot `p`; without bounds checks that may leave the range. */
  function Arranged(init: seq<int>, p: int, pred: int -> bool, checked: bool): (r: Option<(seq<int>, nat)>)
    ensures r.Some? ==> |r.value.0| == |init| && r.value.1 <= |init|
  {
    if checked then Some(Exchange(init, pred))
    else
      match SentinelRun(init + [p], pred)
      case None => None
      case Some(r) => Some((r.0[..|init|], r.1))
  }

  function Joined(low: Option<seq<int>>, p: int, high: Option<seq<int>>): Option<seq<int>> {
    if low.Some? && high.Some? then Some(low.value + [p] + high.value) else None
  }

  /** What `fat_quicksort::sort` leaves, or nothing if one of its partitions leaves its range. */
  function FatRun(s: seq<int>, size: nat, checked: bool): Option<seq<int>>
    decreases |s|
  {
    if |s| <= size then Some(s)
    else
      var n := |s| - 1;
      match Arranged(s[..n], s[n], Below(s[n]), checked)
      case None => None
      case Some(r) =>
        if r.1 != 0 then
          var o := PlacePivot(r, s[n]);
          Joined(FatRun(o.low, size, checked), o.pivot, FatRun(o.high, size, checked))
        else
          match Arranged(r.0, s[n], AtMost(s[n]), checked)
          case None => None
          case Some(q) =>
            var o := PlacePivot(q, s[n]);
            Joined(Some(o.low), o.pivot, FatRun(o.high, size, checked))
  }

  predicate AllEqual(s: seq<int>) {
    forall i :: 0 <= i < |s| ==> s[i] == s[|s| - 1]
  }

  /** The recursion gets to a range longer than `size` whose elements are all equal. */
  predicate MeetsEqual(s: seq<int>, size: nat)
    decreases |s|
  {
    |s| > size &&
      var n := |s| - 1;
      var r := Exchange(s[..n], Below(s[n]));
      if AllEqual(s) then true
      else if r.1 != 0 then
        var o := PlacePivot(r, s[n]);
        MeetsEqual(o.low, size) || MeetsEqual(o.high, size)
      else
        MeetsEqual(PlacePivot(Exchange(r.0, AtMost(s[n])), s[n]).high, size)
  }

  lemma ArrangedAlike(init: seq<int>, p: int, pred: int -> bool)
    ensures Arranged(init, p, pred, false) ==
      if init != [] && !AllSatisfy(init + [p], pred) then Arranged(init, p, pred, true) else None
  {
    hide SentinelRun, Exchange, AllSatisfy;
    var s := init + [p];
    SentinelRunSafeIff(s, pred);
    if SentinelRun(s, pred).Some? {
      var r := SentinelRun(s, pred).value;
      assert s[0..|init|] == init && r.0[0..|init|] == r.0[..|init|];
    }
  }

  lemma AtMostIs(s: seq<int>, p: int)
    ensures AllSatisfy(s + [p], AtMost(p)) <==> AllAtMost(s, p)
  {
    assert forall i :: 0 <= i < |s| ==> (s + [p])[i] == s[i];
  }

  lemma NoneBelowEqual(s: seq<int>)
    requires s != [] && AllEqual(s)
    ensures NoneSatisfy(s[..|s| - 1], Below(s[|s| - 1])) && AllAtMost(s[..|s| - 1], s[|s| - 1])
  {
  }

  lemma BetweenIsEqual(s: seq<int>)
    requires s != [] && AllAtMost(s[..|s| - 1], s[|s| - 1]) && AllAtLeast(s[..|s| - 1], s[|s| - 1])
    ensures AllEqual(s)
  {
    var init := s[..|s| - 1];
    assert forall i :: 0 <= i < |init| ==> s[i] == init[i];
  }

  /** Where the elements are all equal, nothing is below the pivot, and nothing above it. */
  lemma EqualElements(s: seq<int>)
    requires s != [] && AllEqual(s)
    ensures var n := |s| - 1;
      var r := Exchange(s[..n], Below(s[n]));
      r.1 == 0 && AllSatisfy(r.0 + [s[n]], AtMost(s[n]))
  {
    var n := |s| - 1;
    var init, p := s[..n], s[n];
    var r := Exchange(init, Below(p));
    ExchangeIsPartition(init, Below(p));
    NoneBelowEqual(s);
    hide Exchange, AllEqual;
    PartitionPoint(init, Below(p), r);
    CountFailingExtremes(init, Below(p));
    WeakMembers(init, r.0, p);
    AtMostIs(r.0, p);
  }

  /** Where they are not, but nothing is below the pivot, something is above it. */
  lemma SomethingAbove(s: seq<int>)
    requires s != [] && !AllEqual(s) && Exchange(s[..|s| - 1], Below(s[|s| - 1])).1 == 0
    ensures |s| > 1 && !AllSatisfy(Exchange(s[..|s| - 1], Below(s[|s| - 1])).0 + [s[|s| - 1]], AtMost(s[|s| - 1]))
  {
    var n := |s| - 1;
    var init, p := s[..n], s[n];
    var r := Exchange(init, Below(p));
    hide Exchange;
    NothingBelow(init, p);
    AtMostIs(r.0, p);
    if AllSatisfy(r.0 + [p], AtMost(p)) {
      WeakMembers(r.0, init, p);
      Members(r.0, init);
      BetweenIsEqual(s);
    }
  }

  lemma PivotFails(init: seq<int>, p: int)
    ensures !AllSatisfy(init + [p], Below(p))
  {
    assert !Below(p)((init + [p])[|init|]);
  }

  lemma FatRunSplit(s: seq<int>, size: nat, r: (seq<int>, nat))
    requires |s| > size && r == Exchange(s[..|s| - 1], Below(s[|s| - 1]))
    ensures r.1 != 0 ==>
      var o := PlacePivot(r, s[|s| - 1]);
      |o.low| < |s| && |o.high| < |s|
      && FatRun(s, size, true) == Joined(FatRun(o.low, size, true), o.pivot, FatRun(o.high, size, true))
    ensures r.1 == 0 ==>
      var o := PlacePivot(Exchange(r.0, AtMost(s[|s| - 1])), s[|s| - 1]);
      |o.high| < |s| && FatRun(s, size, true) == Joined(Some(o.low), o.pivot, FatRun(o.high, size, true))
  {
    hide Exchange, PlacePivot, Joined;
    CheckedArranged(s[..|s| - 1], s[|s| - 1], Below(s[|s| - 1]));
    CheckedArranged(r.0, s[|s| - 1], AtMost(s[|s| - 1]));
  }

  lemma FatRunUnchecked(s: seq<int>, size: nat, r: (seq<int>, nat))
    requires |s| > size && r == Exchange(s[..|s| - 1], Below(s[|s| - 1]))
    ensures |s| == 1 ==> FatRun(s, size, false) == None
    ensures |s| > 1 && r.1 != 0 ==>
      var o := PlacePivot(r, s[|s| - 1]);
      FatRun(s, size, false) == Joined(FatRun(o.low, size, false), o.pivot, FatRun(o.high, size, false))
    ensures |s| > 1 && r.1 == 0 ==>
      var o := PlacePivot(Exchange(r.0, AtMost(s[|s| - 1])), s[|s| - 1]);
      FatRun(s, size, false) ==
        if AllSatisfy(r.0 + [s[|s| - 1]], AtMost(s[|s| - 1])) then None
        else Joined(Some(o.low), o.pivot, FatRun(o.high, size, false))
  {
    hide Exchange, PlacePivot, Joined, Arranged, AllSatisfy, Below, AtMost;
    var n := |s| - 1;
    assert |s[..n]| == n == |r.0|;
    assert n == 0 <==> s[..n] == [];
    assert n == 0 <==> r.0 == [];
    PivotFails(s[..n], s[n]);
    ArrangedAlike(s[..n], s[n], Below(s[n]));
    CheckedArranged(s[..n], s[n], Below(s[n]));
    ArrangedAlike(r.0, s[n], AtMost(s[n]));
    CheckedArranged(r.0, s[n], AtMost(s[n]));
  }

  lemma MeetsEqualSplit(s: seq<int>, size: nat, r: (seq<int>, nat))
    requires |s| > size && r == Exchange(s[..|s| - 1], Below(s[|s| - 1]))
    ensures AllEqual(s) ==> MeetsEqual(s, size)
    ensures !AllEqual(s) && r.1 != 0 ==>
      var o := PlacePivot(r, s[|s| - 1]);
      MeetsEqual(s, size) == (MeetsEqual(o.low, size) || MeetsEqual(o.high, size))
    ensures !AllEqual(s) && r.1 == 0 ==>
      MeetsEqual(s, size) == MeetsEqual(PlacePivot(Exchange(r.0, AtMost(s[|s| - 1])), s[|s| - 1]).high, size)
    ensures |s| == 1 ==> AllEqual(s)
  {
    hide Exchange, PlacePivot;
  }

  /** The recursion stays inside its ranges exactly if it gets to no range longer than `size` with all
      elements equal; and then it leaves what the one with the checked partition leaves. */
  lemma {:induction false} FatRunSafeIff(s: seq<int>, size: nat)
    ensures FatRun(s, size, true).Some?
    ensures FatRun(s, size, false) == if MeetsEqual(s, size) then None else FatRun(s, size, true)
    decreases |s|
  {
    if |s| > size {
      hide Arranged, Exchange, PlacePivot, AllSatisfy, AllEqual, FatRun, MeetsEqual, Below, AtMost;
      var p, r := s[|s| - 1], Exchange(s[..|s| - 1], Below(s[|s| - 1]));
      FatRunSplit(s, size, r);
      FatRunUnchecked(s, size, r);
      MeetsEqualSplit(s, size, r);
      if AllEqual(s) { EqualElements(s); }
      if r.1 != 0 {
        FatRunSafeIff(PlacePivot(r, p).low, size);
        FatRunSafeIff(PlacePivot(r, p).high, size);
      } else {
        if !AllEqual(s) { SomethingAbove(s); }
        FatRunSafeIff(PlacePivot(Exchange(r.0, AtMost(p)), p).high, size);
      }
    }
  }

  lemma GatheredEqual(r: (seq<int>, nat), s: seq<int>, p: int)
    requires IsPartition(s, AtMost(p), r) && AllAtLeast(s, p)
    ensures r.1 <= |r.0| && multiset(r.0) == multiset(s) && AllAtLeast(r.0, p)
    ensures AllAtMost(r.0[..r.1], p) && NearlySorted(r.0[..r.1], 0)
  {
    Members(s, r.0);
    forall i | 0 <= i < r.1 ensures r.0[i] == p { assert AtMost(p)(r.0[..r.1][i]); }
  }

  lemma HighAtLeast(s: seq<int>, m: nat, p: int)
    requires m <= |s| && AllAtLeast(s, p)
    ensures AllAtLeast(if m == |s| then [] else s[m + 1..] + [s[m]], p)
  {
  }

  /** The sides meet the pivot, and those gathered by the second partition are equal. */
  lemma SecondSides(r: (seq<int>, nat), s: seq<int>, p: int)
    requires IsPartition(s, AtMost(p), r) && AllAtLeast(s, p)
    ensures var o := PlacePivot(r, p);
      o.pivot == p && AllAtMost(o.low, p) && NearlySorted(o.low, 0) && AllAtLeast(o.high, p)
      && multiset(o.low + [p] + o.high) == multiset(s + [p])
  {
    hide Swap, IsPartition, AllAtMost, AllAtLeast, NearlySorted;
    GatheredEqual(r, s, p);
    Policy.PivotBetween(r.0, r.1, p);
    HighAtLeast(r.0, r.1, p);
    assert multiset(r.0 + [p]) == multiset(s + [p]);
  }

  /** Nothing below the pivot was found. */
  lemma NothingBelow(s: seq<int>, p: int)
    requires Exchange(s, Below(p)).1 == 0
    ensures AllAtLeast(Exchange(s, Below(p)).0, p) && multiset(Exchange(s, Below(p)).0) == multiset(s)
  {
    var r := Exchange(s, Below(p));
    ExchangeIsPartition(s, Below(p));
    forall i | 0 <= i < |r.0| ensures r.0[i] >= p { assert !Below(p)(r.0[0..][i]); }
  }

  lemma FirstParts(s: seq<int>, r: (seq<int>, nat)) returns (o: Outcome)
    requires s != [] && r == Exchange(s[..|s| - 1], Below(s[|s| - 1]))
    ensures o == PlacePivot(r, s[|s| - 1]) && o.Split? && o.pivot == s[|s| - 1]
    ensures multiset(o.low + [o.pivot] + o.high) == multiset(s)
    ensures AllAtMost(o.low, o.pivot) && AllAtLeast(o.high, o.pivot)
  {
    hide Exchange, PlacePivot, IsPartition;
    var n := |s| - 1;
    assert s == s[..n] + [s[n]];
    o := PlacePivot(r, s[n]);
    ExchangeIsPartition(s[..n], Below(s[n]));
    SplitSeparates(s[..n], r, s[n]);
  }

  lemma SecondParts(s: seq<int>, r: (seq<int>, nat), size: nat) returns (o: Outcome)
    requires s != [] && r == Exchange(s[..|s| - 1], Below(s[|s| - 1])) && r.1 == 0
    ensures o == PlacePivot(Exchange(r.0, AtMost(s[|s| - 1])), s[|s| - 1]) && o.Split? && o.pivot == s[|s| - 1]
    ensures multiset(o.low + [o.pivot] + o.high) == multiset(s)
    ensures AllAtMost(o.low, o.pivot) && AllAtLeast(o.high, o.pivot) && CutOff(o.low, o.low, size)
  {
    hide Exchange, PlacePivot, IsPartition, NearlySorted;
    var n := |s| - 1;
    assert s == s[..n] + [s[n]];
    var q := Exchange(r.0, AtMost(s[n]));
    o := PlacePivot(q, s[n]);
    NothingBelow(s[..n], s[n]);
    ExchangeIsPartition(r.0, AtMost(s[n]));
    SecondSides(q, r.0, s[n]);
    Wider(o.low, 0, size);
    assert multiset(r.0 + [s[n]]) == multiset(s);
  }

  lemma JoinedCutsOff(s: seq<int>, low: seq<int>, high: seq<int>, l: Option<seq<int>>, p: int, h: Option<seq<int>>,
                      size: nat)
    requires multiset(low + [p] + high) == multiset(s) && AllAtMost(low, p) && AllAtLeast(high, p)
    requires l.Some? && CutOff(low, l.value, size) && h.Some? && CutOff(high, h.value, size)
    ensures Joined(l, p, h).Some? && CutOff(s, Joined(l, p, h).value, size)
  {
    hide AllAtMost, AllAtLeast, NearlySorted;
    WeakMembers(low, l.value, p);
    Members(high, h.value);
    NearlySortedAroundPivot(l.value, p, h.value, size);
    assert multiset(l.value + [p] + h.value) == multiset(low + [p] + high);
  }

  /** What it leaves is a permutation whose inversions span at most `size` elements. */
  lemma {:induction false} FatRunCutsOff(s: seq<int>, size: nat)
    ensures FatRun(s, size, true).Some? && CutOff(s, FatRun(s, size, true).value, size)
    decreases |s|
  {
    FatRunSafeIff(s, size);
    if |s| <= size {
      ShortRange(s, size);
    } else {
      hide *;
      var n := |s| - 1;
      var r := Exchange(s[..n], Below(s[n]));
      FatRunSplit(s, size, r);
      if r.1 != 0 {
        var o := FirstParts(s, r);
        FatRunCutsOff(o.low, size);
        FatRunCutsOff(o.high, size);
        JoinedCutsOff(s, o.low, o.high, FatRun(o.low, size, true), s[n], FatRun(o.high, size, true), size);
      } else {
        var o := SecondParts(s, r, size);
        FatRunCutsOff(o.high, size);
        JoinedCutsOff(s, o.low, o.high, Some(o.low), s[n], FatRun(o.high, size, true), size);
      }
    }
  }

  lemma CheckedArranged(init: seq<int>, p: int, pred: int -> bool)
    ensures Arranged(init, p, pred, true) == Some(Exchange(init, pred))
  {
  }

  // ---- in place ----

  lemma PlacedLow(s: seq<int>, lo: nat, mid: nat, hi: nat)
    requires lo <= mid < hi <= |s|
    ensures var o := PlacePivot((s[lo..hi - 1], mid - lo), s[hi - 1]);
      o.low == s[lo..mid] && o.pivot == s[hi - 1]
  {
    Policy.PivotBetween(s[lo..hi - 1], mid - lo, s[hi - 1]);
    Slice(s, lo, mid, hi - 1);
  }

  lemma SameTailParts(s: seq<int>, t: seq<int>, mid: nat, hi: nat)
    requires mid < hi <= |s| == |t| && s[mid..] == t[mid..]
    ensures s[mid] == t[mid] && s[hi - 1] == t[hi - 1]
    ensures mid < hi - 1 ==> s[mid + 1..hi - 1] == t[mid + 1..hi - 1]
  {
    forall i | mid <= i < hi ensures s[i] == t[i] {
      assert s[i] == s[mid..][i - mid] && t[i] == t[mid..][i - mid];
    }
  }

  lemma SwappedTail(s: seq<int>, lo: nat, mid: nat, hi: nat)
    requires lo <= mid < hi <= |s|
    ensures var t := Swap(s, mid, hi - 1);
      t[lo..mid] == s[lo..mid] && t[mid] == s[hi - 1]
      && t[mid + 1..hi] == if mid == hi - 1 then [] else s[mid + 1..hi - 1] + [s[mid]]
  {
  }

  lemma FrontTail(s: seq<int>, lo: nat, mid: nat, hi: nat)
    requires lo <= mid < hi - 1 && hi <= |s|
    ensures s[lo..hi - 1][mid - lo + 1..] == s[mid + 1..hi - 1] && s[lo..hi - 1][mid - lo] == s[mid]
  {
  }

  /** The low side was worked on and the pivot exchanged to where the parts meet. */
  lemma PlacedHigh(s1: seq<int>, s2: seq<int>, s3: seq<int>, lo: nat, mid: nat, hi: nat)
    requires lo <= mid < hi <= |s1| == |s2| && SameOutside(s1, s2, lo, mid) && s3 == Swap(s2, mid, hi - 1)
    ensures PlacePivot((s1[lo..hi - 1], mid - lo), s1[hi - 1]).high == s3[mid + 1..hi]
    ensures s3[lo..mid] == s2[lo..mid] && s3[mid] == s1[hi - 1]
  {
    hide Swap;
    Policy.PivotBetween(s1[lo..hi - 1], mid - lo, s1[hi - 1]);
    SameTailParts(s1, s2, mid, hi);
    SwappedTail(s2, lo, mid, hi);
    if mid < hi - 1 { FrontTail(s1, lo, mid, hi); }
  }

  lemma PlacedAll(s2: seq<int>, s3: seq<int>, s4: seq<int>, lo: nat, mid: nat, hi: nat)
    requires lo <= mid < hi <= |s3| == |s4| == |s2|
    requires s3[lo..mid] == s2[lo..mid] && SameOutside(s3, s4, mid + 1, hi)
    ensures s4[lo..hi] == s2[lo..mid] + [s3[mid]] + s4[mid + 1..hi]
  {
    Recombined(s4, lo, mid, hi);
    SameOutsideItself(s3, lo, mid);
    SidesApart(s3, s3, s4, lo, mid, hi);
  }

  /** Both sides are what the recursion on values says, so the range is. */
  lemma FatRunDone(s: seq<int>, s1: seq<int>, s2: seq<int>, s3: seq<int>, s4: seq<int>, lo: nat, mid: nat, hi: nat,
                   size: nat, low: Option<seq<int>>)
    requires lo <= mid < hi <= |s1| == |s2| == |s3| == |s4| && hi - lo > size && |s| == hi - lo
    requires SameOutside(s1, s2, lo, mid) && s3 == Swap(s2, mid, hi - 1) && SameOutside(s3, s4, mid + 1, hi)
    requires var o := PlacePivot((s1[lo..hi - 1], mid - lo), s1[hi - 1]);
      FatRun(s, size, true) == Joined(low, o.pivot, FatRun(o.high, size, true))
    requires low == Some(s2[lo..mid]) && FatRun(s3[mid + 1..hi], size, true) == Some(s4[mid + 1..hi])
    ensures FatRun(s, size, true) == Some(s4[lo..hi])
  {
    hide FatRun, PlacePivot, SameOutside, Swap;
    PlacedLow(s1, lo, mid, hi);
    PlacedHigh(s1, s2, s3, lo, mid, hi);
    PlacedAll(s2, s3, s4, lo, mid, hi);
  }

  /** The partition algorithm never leaves its ranges on the way. */
  predicate Fits(part: Algorithm, s: seq<int>, size: nat) { part.SentinelLoop? ==> !MeetsEqual(s, size) }

  /** What the loop that checks no bounds wants of the first call, */
  lemma FirstFits(part: Algorithm, s: seq<int>, lo: nat, hi: nat, size: nat)
    requires lo <= hi <= |s| && size < hi - lo && Fits(part, s[lo..hi], size)
    ensures part.SentinelLoop? ==> lo < hi - 1 && exists i :: lo <= i <= hi - 1 && !Below(s[hi - 1])(s[i])
  {
    MeetsEqualSplit(s[lo..hi], size, Exchange(s[lo..hi][..hi - lo - 1], Below(s[lo..hi][hi - lo - 1])));
    BelowIsStrict(s[hi - 1]);
  }

  /** and of the second. */
  lemma SecondFits(part: Algorithm, s0: seq<int>, s1: seq<int>, lo: nat, hi: nat, size: nat)
    requires lo <= hi <= |s0| == |s1| && size < hi - lo && Fits(part, s0[lo..hi], size) && s1[hi - 1] == s0[hi - 1]
    requires !part.StandardLibrary? ==> (s1[lo..hi - 1], 0) == Exchange(s0[lo..hi - 1], Below(s0[hi - 1]))
    ensures part.SentinelLoop? ==> lo < hi - 1 && exists i :: lo <= i <= hi - 1 && !AtMost(s1[hi - 1])(s1[i])
  {
    hide Exchange, AllEqual, AtMost;
    if part.SentinelLoop? {
      var s, n := s0[lo..hi], hi - lo - 1;
      EndOf(s0, lo, hi);
      var r := Exchange(s[..n], Below(s[n]));
      MeetsEqualSplit(s, size, r);
      SomethingAbove(s);
      var k :| 0 <= k < n + 1 && !AtMost(s[n])((r.0 + [s[n]])[k]);
      assert s1[lo + k] == (r.0 + [s[n]])[k];
    }
  }

  /** `[lo, mid)` is done, and the rest is what the recursion on values goes on with. `s1` is the array as
      the last partition left it. */
  ghost predicate LowDone(part: Algorithm, s: seq<int>, s1: seq<int>, s2: seq<int>, lo: nat, mid: nat, hi: nat,
                          size: nat)
    requires lo <= mid < hi <= |s1| && |s1| == |s2|
  {
    !part.StandardLibrary? ==>
      var o := PlacePivot((s1[lo..hi - 1], mid - lo), s1[hi - 1]);
      && SameOutside(s1, s2, lo, mid)
      && FatRun(s, size, true) == Joined(Some(s2[lo..mid]), o.pivot, FatRun(o.high, size, true))
      && Fits(part, o.high, size)
  }

  lemma LowFits(part: Algorithm, s0: seq<int>, s1: seq<int>, lo: nat, mid: nat, hi: nat, size: nat)
    requires lo < mid < hi <= |s0| == |s1| && size < hi - lo && Fits(part, s0[lo..hi], size)
    requires s1[hi - 1] == s0[hi - 1]
    requires !part.StandardLibrary? ==> (s1[lo..hi - 1], mid - lo) == Exchange(s0[lo..hi - 1], Below(s0[hi - 1]))
    ensures Fits(part, s1[lo..mid], size)
    ensures !part.StandardLibrary? ==> Fits(part, PlacePivot((s1[lo..hi - 1], mid - lo), s1[hi - 1]).high, size)
  {
    hide Exchange, PlacePivot, AllEqual, MeetsEqual;
    if part.SentinelLoop? {
      EndOf(s0, lo, hi);
      MeetsEqualSplit(s0[lo..hi], size, Exchange(s0[lo..hi - 1], Below(s0[hi - 1])));
      PlacedLow(s1, lo, mid, hi);
    }
  }

  lemma LowDoneFirst(part: Algorithm, s0: seq<int>, s1: seq<int>, s2: seq<int>, lo: nat, mid: nat, hi: nat, size: nat)
    requires lo < mid < hi <= |s0| == |s1| && |s2| == |s1| && size < hi - lo && Fits(part, s0[lo..hi], size)
    requires s1[hi - 1] == s0[hi - 1] && SameOutside(s1, s2, lo, mid)
    requires !part.StandardLibrary? ==>
      && (s1[lo..hi - 1], mid - lo) == Exchange(s0[lo..hi - 1], Below(s0[hi - 1]))
      && FatRun(s1[lo..mid], size, true) == Some(s2[lo..mid])
    ensures LowDone(part, s0[lo..hi], s1, s2, lo, mid, hi, size)
  {
    hide Exchange, PlacePivot, FatRun, Fits, Joined;
    LowFits(part, s0, s1, lo, mid, hi, size);
    EndOf(s0, lo, hi);
    FatRunSplit(s0[lo..hi], size, Exchange(s0[lo..hi - 1], Below(s0[hi - 1])));
    PlacedLow(s1, lo, mid, hi);
  }

  lemma LowDoneSecond(part: Algorithm, s0: seq<int>, s1: seq<int>, s2: seq<int>, lo: nat, mid: nat, hi: nat, size: nat)
    requires lo <= mid < hi <= |s0| == |s1| && |s2| == |s1| && size < hi - lo && Fits(part, s0[lo..hi], size)
    requires s2[hi - 1] == s1[hi - 1] == s0[hi - 1]
    requires !part.StandardLibrary? ==>
      && (s1[lo..hi - 1], 0) == Exchange(s0[lo..hi - 1], Below(s0[hi - 1]))
      && (s2[lo..hi - 1], mid - lo) == Exchange(s1[lo..hi - 1], AtMost(s1[hi - 1]))
    ensures LowDone(part, s0[lo..hi], s2, s2, lo, mid, hi, size)
  {
    hide Exchange, PlacePivot, FatRun, MeetsEqual, AllEqual, Joined;
    if !part.StandardLibrary? {
      EndOf(s0, lo, hi);
      var r := Exchange(s0[lo..hi - 1], Below(s0[hi - 1]));
      FatRunSplit(s0[lo..hi], size, r);
      MeetsEqualSplit(s0[lo..hi], size, r);
      PlacedLow(s2, lo, mid, hi);
      SameOutsideItself(s2, lo, mid);
    }
  }

  lemma HighFits(part: Algorithm, s: seq<int>, s1: seq<int>, s2: seq<int>, s3: seq<int>, lo: nat, mid: nat, hi: nat,
                 size: nat)
    requires lo <= mid < hi <= |s1| == |s2| && s3 == Swap(s2, mid, hi - 1)
    requires LowDone(part, s, s1, s2, lo, mid, hi, size)
    ensures Fits(part, s3[mid + 1..hi], size)
  {
    hide PlacePivot, FatRun, MeetsEqual, Swap, Joined;
    if !part.StandardLibrary? { PlacedHigh(s1, s2, s3, lo, mid, hi); }
  }

  lemma FatRunEnds(part: Algorithm, s: seq<int>, s1: seq<int>, s2: seq<int>, s3: seq<int>, s4: seq<int>, lo: nat,
                   mid: nat, hi: nat, size: nat)
    requires lo <= mid < hi <= |s1| == |s2| == |s4| && hi - lo > size && |s| == hi - lo
    requires s3 == Swap(s2, mid, hi - 1) && LowDone(part, s, s1, s2, lo, mid, hi, size)
    requires SameOutside(s3, s4, mid + 1, hi)
    requires !part.StandardLibrary? ==> FatRun(s3[mid + 1..hi], size, true) == Some(s4[mid + 1..hi])
    ensures !part.StandardLibrary? ==> FatRun(s, size, true) == Some(s4[lo..hi])
  {
    hide PlacePivot, FatRun, Fits, Swap, Joined;
    if !part.StandardLibrary? { FatRunDone(s, s1, s2, s3, s4, lo, mid, hi, size, Some(s2[lo..mid])); }
  }

  lemma ShortRun(s: seq<int>, size: nat)
    requires |s| <= size
    ensures FatRun(s, size, true) == Some(s)
  {
  }

  /** `fat_quicksort::sort`: when nothing is below the pivot, the elements equal to it are gathered
      in front and only what is above them is sorted further. */
  method FatQuickSort(a: array<int>, lo: nat, hi: nat, size: nat, part: Algorithm)
    requires lo <= hi <= a.Length && Fits(part, a[lo..hi], size)
    modifies a
    ensures SameOutside(old(a[..]), a[..], lo, hi) && CutOff(old(a[lo..hi]), a[lo..hi], size)
    ensures !part.StandardLibrary? ==> FatRun(old(a[lo..hi]), size, true) == Some(a[lo..hi])
    decreases hi - lo
  {
    hide *;
    ghost var s0 := a[..];
    if size < hi - lo {
      var pivot := hi - 1;
      PivotStands(s0, lo, hi, Below);
      FirstFits(part, s0, lo, hi, size);
      var mid := PartitionBy(a, lo, pivot, Looked(pivot, Below), Below(s0[pivot]), part);
      ghost var s1 := a[..];
      FirstPartition(s0, s1, lo, mid, hi);
      if lo != mid {
        LowFits(part, s0, s1, lo, mid, hi, size);
        FatQuickSort(a, lo, mid, size, part);
        ReadyAfterLow(s0, s1, a[..], lo, mid, hi, size);
        LowDoneFirst(part, s0, s1, a[..], lo, mid, hi, size);
      } else {
        PivotStands(s1, lo, hi, AtMost);
        SecondFits(part, s0, s1, lo, hi, size);
        mid := PartitionBy(a, lo, pivot, Looked(pivot, AtMost), AtMost(s1[pivot]), part);
        OneMore(s1, a[..], lo, hi);
        ReadyAfterSecond(s0, s1, a[..], lo, mid, hi, size);
        LowDoneSecond(part, s0, s1, a[..], lo, mid, hi, size);
        s1 := a[..];
      }
      ghost var s2 := a[..];
      IterSwap(a, mid, pivot);
      ghost var s3 := a[..];
      HighFits(part, s0[lo..hi], s1, s2, s3, lo, mid, hi, size);
      FatQuickSort(a, mid + 1, hi, size, part);
      AllDone(s0, s2, s3, a[..], lo, mid, hi, s0[pivot], size);
      FatRunEnds(part, s0[lo..hi], s1, s2, s3, a[..], lo, mid, hi, size);
    } else {
      ShortRange(s0[lo..hi], size);
      ShortRun(s0[lo..hi], size);
      SameOutsideItself(s0, lo, hi);
    }
  }

  /** The second partition of `fat_quicksort` uses a predicate the pivot satisfies. With the loop
      that checks no bounds it therefore stays inside the range only if some element is above the
      pivot: on equal elements it runs past the end. */
  lemma FatSecondCallSafeIff(s: seq<int>, p: int)
    requires s != [] && AllAtLeast(s, p)
    ensures SentinelRun(s + [p], AtMost(p)).Some? <==> exists i :: 0 <= i < |s| && s[i] != p
  {
    var t := s + [p];
    SentinelRunSafeIff(t, AtMost(p));
    if i :| 0 <= i < |s| && s[i] != p {
      assert !AtMost(p)(t[i]);
    }
  }

  /** Where every inversion spans at most `size` elements, the first `size` elements stop every
      unguarded walk. */
  lemma FrontHoldsMinimum(s: seq<int>, cutoff: nat, size: nat)
    requires NearlySorted(s, cutoff) && cutoff <= size && 0 < size <= |s|
    ensures Ins.FloorInFront(s, size)
  {
    forall k | size <= k < |s| ensures Ins.HasFloor(s, size, s[k]) {
      assert s[0] <= s[k];
    }
  }

  /** `insertion_sentinel_quicksort::sort`, and `insertion_rotate_quicksort::sort` when `rotate`. The
      unguarded pass starts at `lo + size` and may walk to the left of that, never past `lo`. */
  method InsertionQuickSort(a: array<int>, lo: nat, hi: nat, cutoff: nat, size: nat, part: Algorithm,
                            rotate: bool)
    requires lo <= hi <= a.Length && cutoff <= size && size > 0
    requires hi - lo >= size ==> Fits(part, a[lo..hi], cutoff)
    modifies a
    ensures SameOutside(old(a[..]), a[..], lo, hi)
    ensures a[lo..hi] == InsertionSorted(old(a[lo..hi]))
  {
    hide *;
    ghost var s0, shifts := a[..], 0;
    if hi - lo < size {
      shifts := Ins.InsertionSort(a, lo, hi);
      SortedIs(s0, a[..], lo, hi, shifts);
      return;
    }
    FatQuickSort(a, lo, hi, cutoff, part);
    ghost var s1 := a[..];
    shifts := Ins.InsertionSort(a, lo, lo + size);
    FloorHolds(s0, s1, a[..], lo, size, hi, shifts, cutoff);
    shifts := Ins.UnguardedPass(a, lo, lo + size, hi, rotate, s1, shifts);
    PassIs(s0, s1, a[..], lo, hi, shifts, cutoff);
  }

  lemma PassIs(s0: seq<int>, s1: seq<int>, s2: seq<int>, lo: nat, hi: nat, shifts: nat, cutoff: nat)
    requires lo <= hi <= |s2| == |s1| && |s0| == |s1|
    requires SameOutside(s0, s1, lo, hi) && CutOff(s0[lo..hi], s1[lo..hi], cutoff)
    requires Ins.Inserted(s1, s2, lo, hi, shifts)
    ensures SameOutside(s0, s2, lo, hi) && s2[lo..hi] == InsertionSorted(s0[lo..hi])
  {
    hide InsertionSorted;
    SameOutsideTwice(s0, s1, s2, lo, hi);
    SamePermutation(s0[lo..hi], s1[lo..hi]);
  }

  lemma FloorHolds(s0: seq<int>, was: seq<int>, s: seq<int>, lo: nat, size: nat, hi: nat, shifts: nat, cutoff: nat)
    requires 0 < size && cutoff <= size && lo + size <= hi <= |s| == |was| && |s0| == |s|
    requires CutOff(s0[lo..hi], was[lo..hi], cutoff)
    requires Ins.SortedInPlace(was, s, lo, lo + size, shifts)
    ensures Ins.Inserted(was, s, lo, lo + size, shifts)
    ensures forall k :: lo + size <= k < hi ==> s[lo] <= s[k]
  {
    var m := lo + size;
    FrontHoldsMinimum(was[lo..hi], cutoff, size);
    Ins.FirstIsFloor(was[lo..hi], size);
    assert was[lo..hi][..size] == was[lo..m];
    forall k | m <= k < hi ensures s[lo] <= s[k] {
      assert s[lo] == s[lo..m][0];
      assert s[k] == s[m..][k - m] == was[m..][k - m] == was[lo..hi][k - lo];
    }
  }
}
