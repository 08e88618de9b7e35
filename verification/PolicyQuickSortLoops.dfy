/** The policy-based quicksort in place, recursive and with one call replaced by a loop. */
module PolicyQuickSortLoops {
  import opened Powers
  import opened Ranges
  import opened Partition
  import opened PolicyQuickSort
  import opened Slices
  import PartitionLoops
  import Ins = Insertion

  /** How a pass over `[lo, hi)` ended. */
  datatype Ending = Finished | Divided | Unshrunk

  /** `range` is what the outcome says, divided at `m`. */
  ghost predicate Reached(o: Outcome, range: seq<int>, ending: Ending, m: nat) {
    match o
    case Leaf(t) => ending.Finished? && range == t
    case Again(t) => ending.Unshrunk? && range == t && m == 0
    case Split(low, p, high) => ending.Divided? && m == |low| && range == low + [p] + high
  }

  /** A library sort: for integers every conforming one leaves this arrangement
      (`Ranges.SortedPermutation`). */
  method LibrarySort(a: array<int>, lo: nat, hi: nat)
    requires lo <= hi <= a.Length
    modifies a
    ensures SameOutside(old(a[..]), a[..], lo, hi)
    ensures a[lo..hi] == InsertionSorted(old(a[lo..hi]))
  {
    ghost var _ := Ins.InsertionSort(a, lo, hi);
  }

  /** Twice the binary logarithm of the length, by halving. */
  method DepthLimit(n: nat) returns (max: nat)
    ensures max == 2 * Log2(n)
    ensures max % 2 == 0 && if n == 0 then max == 0 else Pow2(max / 2) <= n < 2 * Pow2(max / 2)
  {
    if n > 0 { Log2Between(n); }
    var size := n;
    max := 0;
    while size / 2 != 0
      invariant size >= 0 && max + Log2(size) == Log2(n)
      decreases size
    {
      size := size / 2;
      max := max + 1;
    }
    max := 2 * max;
  }

  /** `Fallback::init`. */
  method InitDepth(pol: Policies, lo: nat, hi: nat) returns (max: nat)
    requires lo <= hi
    ensures max == MaxDepth(pol, hi - lo)
    ensures pol.intro && lo < hi ==> max % 2 == 0 && Pow2(max / 2) <= hi - lo < 2 * Pow2(max / 2)
    ensures !pol.intro || lo == hi ==> max == 0
  {
    if !pol.intro { return 0; }
    max := DepthLimit(hi - lo);
  }

  lemma ArrangeIs(pol: Policies, s: seq<int>, pred: int -> bool)
    ensures pol.Arrange(s, pred) == if pol.partition.Standard? then pol.standard(s, pred) else Exchange(s, pred)
  {
  }

  lemma PartitionedIs(was: seq<int>, s: seq<int>, lo: nat, mid: nat, hi: nat, pred: int -> bool)
    requires lo <= mid <= hi <= |s| && PartitionLoops.Partitioned(was, s, lo, mid, hi, pred)
    ensures SameOutside(was, s, lo, hi) && |was| == |s| && (s[lo..hi], mid - lo) == Exchange(was[lo..hi], pred)
  {
  }

  method PartitionRange(a: array<int>, lo: nat, hi: nat, test: PartitionLoops.Test, ghost pred: int -> bool,
                        pol: Policies)
    returns (mid: nat)
    requires lo <= hi < a.Length && !pred(a[hi]) && PartitionLoops.Stands(test, a[..], lo, hi, pred)
    requires pol.partition.Sentinel? ==> lo < hi
    modifies a
    ensures lo <= mid <= hi && SameOutside(old(a[..]), a[..], lo, hi)
    ensures (a[lo..hi], mid - lo) == pol.Arrange(old(a[lo..hi]), pred)
  {
    hide *;
    ghost var was := a[..];
    ArrangeIs(pol, was[lo..hi], pred);
    if pol.partition.Standard? {
      mid := PartitionLoops.Standard(a, lo, hi, test, pol.standard, pred);
      return;
    }
    match pol.partition {
      case Simple => mid := PartitionLoops.Simple(a, lo, hi, test, pred);
      case Manual => mid := PartitionLoops.Manual(a, lo, hi, test, pred);
      case Sentinel => mid := PartitionLoops.Sentinel(a, lo, hi, test, pred);
    }
    PartitionedIs(was, a[..], lo, mid, hi, pred);
  }

  lemma PivotSwapped(s: seq<int>, lo: nat, m: nat, hi: nat)
    requires lo <= m < hi <= |s|
    ensures var t := Swap(s, m, hi - 1);
      SameOutside(s, t, lo, hi) && t[lo..hi] == Swap(s[lo..hi - 1] + [s[hi - 1]], m - lo, hi - 1 - lo)
  {
    var t := Swap(s, m, hi - 1);
    assert s[lo..hi] == s[lo..hi - 1] + [s[hi - 1]];
    assert t[lo..hi] == Swap(s[lo..hi], m - lo, hi - 1 - lo);
  }

  /** `std::iter_swap(mid, pivot)` for a pivot at `hi - 1`. */
  method SwapPivot(a: array<int>, lo: nat, m: nat, hi: nat)
    requires lo <= m < hi <= a.Length
    modifies a
    ensures SameOutside(old(a[..]), a[..], lo, hi)
    ensures a[lo..hi] == Swap(old(a[lo..hi - 1]) + [old(a[hi - 1])], m - lo, hi - 1 - lo)
  {
    hide *;
    ghost var s := a[..];
    PartitionLoops.IterSwap(a, m, hi - 1);
    PivotSwapped(s, lo, m, hi);
  }

  lemma FatRangeIs(pol: Policies, s: seq<int>, p: int, f: (seq<int>, nat))
    requires f == pol.standard(s, AtLeast(p))
    ensures |f.0| == |s| && f.1 <= |s|
    ensures FatRange(pol, s, p) == Swap(f.0 + [p], f.1, |s|)
  {
    assert IsPartition(s, AtLeast(p), f);
  }

  lemma FatStepIs(pol: Policies, was: seq<int>, s: seq<int>, t: seq<int>, lo: nat, m: nat, hi: nat)
    requires lo <= m < hi <= |s| == |was| == |t| && SameOutside(was, s, lo, hi - 1) && SameOutside(s, t, lo, hi)
    requires (s[lo..hi - 1], m - lo) == pol.standard(was[lo..hi - 1], AtLeast(was[hi - 1]))
    requires t[lo..hi] == Swap(s[lo..hi - 1] + [s[hi - 1]], m - lo, hi - 1 - lo)
    ensures SameOutside(was, t, lo, hi) && t[lo..hi] == FatRange(pol, was[lo..hi - 1], was[hi - 1])
  {
    hide *;
    OneMore(was, s, lo, hi);
    FatRangeIs(pol, was[lo..hi - 1], was[hi - 1], (s[lo..hi - 1], m - lo));
    SameOutsideTwice(was, s, t, lo, hi);
  }

  /** `fat_partition::fat::run` on a range with the pivot at `hi - 1`. The position it finds stays in
      a local variable, so the caller goes on with the range it had. */
  method FatStep(a: array<int>, lo: nat, hi: nat, pol: Policies)
    requires lo < hi <= a.Length
    modifies a
    ensures SameOutside(old(a[..]), a[..], lo, hi)
    ensures a[lo..hi] == FatRange(pol, old(a[lo..hi - 1]), old(a[hi - 1]))
  {
    hide *;
    ghost var was := a[..];
    PartitionLoops.PivotStands(was, lo, hi, AtLeast);
    var test := PartitionLoops.Looked(hi - 1, AtLeast);
    var m := PartitionLoops.Standard(a, lo, hi - 1, test, pol.standard, AtLeast(was[hi - 1]));
    ghost var s := a[..];
    SwapPivot(a, lo, m, hi);
    FatStepIs(pol, was, s, a[..], lo, m, hi);
  }

  lemma DivideIs(pol: Policies, init: seq<int>, p: int, s: seq<int>, m: nat, n: nat)
    requires (s, m) == pol.Arrange(init, Below(p)) && m <= |s| == n
    ensures if pol.fat && m == 0
      then Reached(Divide(pol, init, p), FatRange(pol, s, p), Unshrunk, m)
      else Reached(Divide(pol, init, p), Swap(s + [p], m, n), Divided, m)
  {
    hide FatRange;
    var t := Swap(s + [p], m, n);
    assert t == t[..m] + [t[m]] + t[m + 1..];
  }

  lemma RangeDivided(pol: Policies, was: seq<int>, s: seq<int>, t: seq<int>, lo: nat, mid: nat, hi: nat, ending: Ending)
    requires lo <= mid < hi <= |s| == |was| == |t|
    requires SameOutside(was, s, lo, hi - 1) && SameOutside(s, t, lo, hi)
    requires (s[lo..hi - 1], mid - lo) == pol.Arrange(was[lo..hi - 1], Below(was[hi - 1]))
    requires ending == if pol.fat && mid == lo then Unshrunk else Divided
    requires ending.Unshrunk? ==> t[lo..hi] == FatRange(pol, s[lo..hi - 1], s[hi - 1])
    requires ending.Divided? ==> t[lo..hi] == Swap(s[lo..hi - 1] + [s[hi - 1]], mid - lo, hi - 1 - lo)
    ensures SameOutside(was, t, lo, hi)
    ensures Reached(Divide(pol, was[lo..hi - 1], was[hi - 1]), t[lo..hi], ending, mid - lo)
  {
    hide *;
    OneMore(was, s, lo, hi);
    SameOutsideTwice(was, s, t, lo, hi);
    DivideIs(pol, was[lo..hi - 1], was[hi - 1], s[lo..hi - 1], mid - lo, hi - 1 - lo);
  }

  /** The partition around a pivot at `hi - 1`, then the fat step or the exchange that puts the
      pivot in its place. The partition gets the pivot's value or reads it from its slot each time. */
  method DivideRange(a: array<int>, lo: nat, hi: nat, pol: Policies, byValue: bool)
    returns (ending: Ending, mid: nat)
    requires lo < hi <= a.Length && (pol.partition.Sentinel? ==> lo + 1 < hi)
    modifies a
    ensures lo <= mid < hi && SameOutside(old(a[..]), a[..], lo, hi)
    ensures Reached(Divide(pol, old(a[lo..hi - 1]), old(a[hi - 1])), a[lo..hi], ending, mid - lo)
    ensures ending == if pol.fat && mid == lo then Unshrunk else Divided
  {
    hide *;
    ghost var was := a[..];
    ghost var p := a[hi - 1];
    BelowIsStrict(p);
    PartitionLoops.PivotStands(was, lo, hi, Below);
    var test := if byValue then PartitionLoops.Held(Below(a[hi - 1])) else PartitionLoops.Looked(hi - 1, Below);
    mid := PartitionRange(a, lo, hi - 1, test, Below(p), pol);
    ghost var s := a[..];
    if pol.fat && mid == lo {
      FatStep(a, lo, hi, pol);
      ending := Unshrunk;
    } else {
      SwapPivot(a, lo, mid, hi);
      ending := Divided;
    }
    RangeDivided(pol, was, s, a[..], lo, mid, hi, ending);
  }

  lemma StepCases(pol: Policies, s: seq<int>, depth: nat, max: nat)
    requires pol.Valid()
    ensures pol.post.Size() >= 1 && (pol.partition.Sentinel? ==> pol.post.Size() >= 2)
    ensures |s| < pol.post.Size() ==>
      Reached(Step(pol, s, depth, max), if pol.post.PostDirect? then InsertionSorted(s) else s, Finished, 0)
    ensures |s| >= pol.post.Size() && pol.intro && depth >= max ==>
      Reached(Step(pol, s, depth, max), InsertionSorted(s), Finished, 0)
    ensures |s| >= pol.post.Size() && !(pol.intro && depth >= max) ==>
      && pol.pivot(s) < |s|
      && var t := Swap(s, pol.pivot(s), |s| - 1);
        Step(pol, s, depth, max) == Divide(pol, t[..|t| - 1], t[|t| - 1])
  {
    hide InsertionSorted, Divide, Swap;
  }

  lemma PassDivides(pol: Policies, was: seq<int>, s: seq<int>, t: seq<int>, lo: nat, mid: nat, hi: nat,
                    depth: nat, max: nat, ending: Ending)
    requires pol.Valid() && lo <= mid < hi <= |s| == |was| == |t|
    requires hi - lo >= pol.post.Size() && !(pol.intro && depth >= max)
    requires SameOutside(was, s, lo, hi) && SameOutside(s, t, lo, hi)
    requires s[lo..hi] == Swap(was[lo..hi], pol.pivot(was[lo..hi]), hi - 1 - lo)
    requires Reached(Divide(pol, s[lo..hi - 1], s[hi - 1]), t[lo..hi], ending, mid - lo)
    ensures pol.post.Size() >= 1 && SameOutside(was, t, lo, hi)
    ensures Reached(Step(pol, was[lo..hi], depth, max), t[lo..hi], ending, mid - lo)
  {
    hide *;
    StepCases(pol, was[lo..hi], depth, max);
    EndOf(s, lo, hi);
    SameOutsideTwice(was, s, t, lo, hi);
  }

  /** One pass of the loop or function body: the small-range test, the fallback, and otherwise the
      division around a pivot that is first moved to the end. */
  method Pass(a: array<int>, lo: nat, hi: nat, depth: nat, max: nat, pol: Policies, byValue: bool)
    returns (ending: Ending, mid: nat)
    requires lo <= hi <= a.Length && pol.Valid()
    modifies a
    ensures lo <= mid <= hi && SameOutside(old(a[..]), a[..], lo, hi)
    ensures Reached(Step(pol, old(a[lo..hi]), depth, max), a[lo..hi], ending, mid - lo)
    ensures ending.Divided? ==> mid < hi && hi - lo >= pol.post.Size()
    ensures ending.Unshrunk? ==> mid == lo && pol.fat
    ensures !ending.Finished? && pol.intro ==> depth < max
  {
    hide *;
    StepCases(pol, a[lo..hi], depth, max);
    ghost var was := a[..];
    if hi - lo < pol.post.Size() {
      SmallRange(a, lo, hi, pol);
      return Finished, lo;
    }
    if pol.intro && depth >= max {
      LibrarySort(a, lo, hi);
      return Finished, lo;
    }
    MovePivot(a, lo, lo + pol.pivot(a[lo..hi]), hi);
    ghost var s := a[..];
    ending, mid := DivideRange(a, lo, hi, pol, byValue);
    PassDivides(pol, was, s, a[..], lo, mid, hi, depth, max, ending);
  }

  lemma PivotMoved(s: seq<int>, lo: nat, k: nat, hi: nat)
    requires lo <= k < hi <= |s|
    ensures var t := Swap(s, k, hi - 1);
      SameOutside(s, t, lo, hi) && t[lo..hi] == Swap(s[lo..hi], k - lo, hi - 1 - lo)
  {
    var t := Swap(s, k, hi - 1);
    assert t[lo..hi] == Swap(s[lo..hi], k - lo, hi - 1 - lo);
  }

  method MovePivot(a: array<int>, lo: nat, k: nat, hi: nat)
    requires lo <= k < hi <= a.Length
    modifies a
    ensures SameOutside(old(a[..]), a[..], lo, hi)
    ensures a[lo..hi] == Swap(old(a[lo..hi]), k - lo, hi - 1 - lo)
  {
    hide *;
    ghost var s := a[..];
    PartitionLoops.IterSwap(a, k, hi - 1);
    PivotMoved(s, lo, k, hi);
  }

  /** `Post::done` on a small range: only `direct_move_insertion` sorts it there. */
  method SmallRange(a: array<int>, lo: nat, hi: nat, pol: Policies)
    requires lo <= hi <= a.Length
    modifies a
    ensures SameOutside(old(a[..]), a[..], lo, hi)
    ensures a[lo..hi] == if pol.post.PostDirect? then InsertionSorted(old(a[lo..hi])) else old(a[lo..hi])
  {
    if pol.post.PostDirect? {
      ghost var _ := Ins.MoveInsertion(a, lo, hi);
    }
  }

  lemma DividedParts(a: seq<int>, lo: nat, mid: nat, hi: nat, low: seq<int>, p: int, high: seq<int>)
    requires lo <= mid <= hi <= |a| && a[lo..hi] == low + [p] + high && mid - lo == |low|
    ensures mid < hi && a[lo..mid] == low && a[mid] == p && a[mid + 1..hi] == high
  {
    var r := a[lo..hi];
    assert low == r[..|low|] == a[lo..mid];
    assert high == r[|low| + 1..] == a[mid + 1..hi];
    assert r[|low|] == p;
  }

  /** After a division, `[lo, mid)` was sorted first and `[mid + 1, hi)` second, or the other way
      round; either way the range is what the recursion on values says. */
  lemma BothSides(pol: Policies, s0: seq<int>, s1: seq<int>, s2: seq<int>, s3: seq<int>,
                  lo: nat, mid: nat, hi: nat, depth: nat, max: nat, lowFirst: bool)
    requires pol.post.Size() >= 1 && pol.Terminating()
    requires lo <= mid < hi <= |s1| && |s0| == |s2| == |s3| == |s1|
    requires SameOutside(s0, s1, lo, hi)
    requires Reached(Step(pol, s0[lo..hi], depth, max), s1[lo..hi], Divided, mid - lo)
    requires lowFirst ==>
      && SameOutside(s1, s2, lo, mid) && s2[lo..mid] == Inner(pol, s1[lo..mid], depth + 1, max)
      && SameOutside(s2, s3, mid + 1, hi) && s3[mid + 1..hi] == Inner(pol, s2[mid + 1..hi], depth + 1, max)
    requires !lowFirst ==>
      && SameOutside(s1, s2, mid + 1, hi) && s2[mid + 1..hi] == Inner(pol, s1[mid + 1..hi], depth + 1, max)
      && SameOutside(s2, s3, lo, mid) && s3[lo..mid] == Inner(pol, s2[lo..mid], depth + 1, max)
    ensures SameOutside(s0, s3, lo, hi)
    ensures s3[lo..hi] == Inner(pol, s0[lo..hi], depth, max)
  {
    hide Step, SameOutside;
    var o := Step(pol, s0[lo..hi], depth, max);
    DividedParts(s1, lo, mid, hi, o.low, o.pivot, o.high);
    if lowFirst {
      SidesApart(s1, s2, s3, lo, mid, hi);
    } else {
      SidesApartHighFirst(s1, s2, s3, lo, mid, hi);
    }
    SameOutsideTwice(s0, s1, s3, lo, hi);
    Recombined(s3, lo, mid, hi);
  }

  lemma FinishedIs(pol: Policies, s: seq<int>, t: seq<int>, depth: nat, max: nat, m: nat)
    requires pol.post.Size() >= 1 && pol.Terminating()
    requires Reached(Step(pol, s, depth, max), t, Finished, m)
    ensures t == Inner(pol, s, depth, max)
  {
    hide Step;
  }

  lemma UnshrunkIs(pol: Policies, s: seq<int>, t: seq<int>, depth: nat, max: nat, m: nat)
    requires pol.post.Size() >= 1 && pol.Terminating()
    requires Reached(Step(pol, s, depth, max), t, Unshrunk, m)
    ensures Inner(pol, t, depth + 1, max) == Inner(pol, s, depth, max)
  {
    hide Step;
  }

  /** The doubly recursive form. */
  method Recursive(a: array<int>, lo: nat, hi: nat, depth: nat, max: nat, pol: Policies)
    requires lo <= hi <= a.Length && pol.Valid() && pol.Terminating()
    modifies a
    ensures SameOutside(old(a[..]), a[..], lo, hi)
    ensures a[lo..hi] == Inner(pol, old(a[lo..hi]), depth, max)
    decreases LevelsLeft(pol, depth, max), hi - lo
  {
    hide Step, SameOutside, Inner, Reached, InsertionSorted;
    ghost var s0 := a[..];
    var ending, mid := Pass(a, lo, hi, depth, max, pol, false);
    ghost var s1 := a[..];
    match ending
    case Finished =>
      FinishedIs(pol, s0[lo..hi], s1[lo..hi], depth, max, mid - lo);
    case Unshrunk =>
      UnshrunkIs(pol, s0[lo..hi], s1[lo..hi], depth, max, mid - lo);
      Recursive(a, mid, hi, depth + 1, max, pol);
      SameOutsideTwice(s0, s1, a[..], lo, hi);
    case Divided =>
      Recursive(a, lo, mid, depth + 1, max, pol);
      ghost var s2 := a[..];
      Recursive(a, mid + 1, hi, depth + 1, max, pol);
      BothSides(pol, s0, s1, s2, a[..], lo, mid, hi, depth, max, true);
  }

  /** In the middle of the tail-recursive loop: `[first, lo)` and `[hi, last)` are as the doubly
      recursive form leaves them, and `[lo, hi)` still has to be treated at this depth. */
  ghost predicate Remaining(pol: Policies, s0: seq<int>, s: seq<int>, first: nat, lo: nat, hi: nat, last: nat,
                            depth0: nat, depth: nat, max: nat)
    requires pol.post.Size() >= 1 && pol.Terminating()
    requires first <= lo <= hi <= last <= |s|
  {
    && SameOutside(s0, s, first, last)
    && Pending(Inner(pol, s0[first..last], depth0, max), s, first, lo, hi, last, Inner(pol, s[lo..hi], depth, max))
  }

  lemma RemainingStart(pol: Policies, s: seq<int>, lo: nat, hi: nat, depth: nat, max: nat)
    requires pol.post.Size() >= 1 && pol.Terminating()
    requires lo <= hi <= |s|
    ensures Remaining(pol, s, s, lo, lo, hi, hi, depth, depth, max)
  {
    PendingStart(s, lo, hi, Inner(pol, s[lo..hi], depth, max));
  }

  /** The range shrank to `[b, e)`, and what fell off is final. */
  lemma RemainingShrinks(pol: Policies, s0: seq<int>, s: seq<int>, t: seq<int>, first: nat, lo: nat, b: nat, e: nat,
                         hi: nat, last: nat, depth0: nat, depth: nat, max: nat)
    requires pol.post.Size() >= 1 && pol.Terminating()
    requires first <= lo <= b <= e <= hi <= last <= |s| == |t| == |s0|
    requires Remaining(pol, s0, s, first, lo, hi, last, depth0, depth, max)
    requires SameOutside(s, t, lo, hi)
    requires Inner(pol, s[lo..hi], depth, max) == t[lo..b] + Inner(pol, t[b..e], depth + 1, max) + t[e..hi]
    ensures Remaining(pol, s0, t, first, b, e, last, depth0, depth + 1, max)
  {
    hide Inner, SameOutside, Pending;
    PendingShrinks(Inner(pol, s0[first..last], depth0, max), s, t, first, lo, b, e, hi, last,
                   Inner(pol, s[lo..hi], depth, max), Inner(pol, t[b..e], depth + 1, max));
    SameOutsideTwice(s0, s, t, first, last);
  }

  /** The range is final. */
  lemma RemainingDone(pol: Policies, s0: seq<int>, s: seq<int>, t: seq<int>, first: nat, lo: nat, hi: nat, last: nat,
                      depth0: nat, depth: nat, max: nat, m: nat)
    requires pol.post.Size() >= 1 && pol.Terminating()
    requires first <= lo <= hi <= last <= |s| == |t| == |s0|
    requires Remaining(pol, s0, s, first, lo, hi, last, depth0, depth, max)
    requires SameOutside(s, t, lo, hi)
    requires Reached(Step(pol, s[lo..hi], depth, max), t[lo..hi], Finished, m)
    ensures SameOutside(s0, t, first, last) && t[first..last] == Inner(pol, s0[first..last], depth0, max)
  {
    hide Inner, SameOutside, Step, Reached;
    FinishedIs(pol, s[lo..hi], t[lo..hi], depth, max, m);
    PendingDone(Inner(pol, s0[first..last], depth0, max), s, t, first, lo, hi, last, Inner(pol, s[lo..hi], depth, max));
    SameOutsideTwice(s0, s, t, first, last);
  }

  /** The fat step left the range unshrunk; the next round is one level deeper. */
  lemma RemainingDeeper(pol: Policies, s0: seq<int>, s: seq<int>, t: seq<int>, first: nat, lo: nat, hi: nat, last: nat,
                        depth0: nat, depth: nat, max: nat, m: nat)
    requires pol.post.Size() >= 1 && pol.Terminating()
    requires first <= lo <= hi <= last <= |s| == |t| == |s0|
    requires Remaining(pol, s0, s, first, lo, hi, last, depth0, depth, max)
    requires SameOutside(s, t, lo, hi)
    requires Reached(Step(pol, s[lo..hi], depth, max), t[lo..hi], Unshrunk, m)
    ensures Remaining(pol, s0, t, first, lo, hi, last, depth0, depth + 1, max)
  {
    hide *;
    UnshrunkIs(pol, s[lo..hi], t[lo..hi], depth, max, m);
    EmptyEnds(Inner(pol, t[lo..hi], depth + 1, max), t, lo, hi);
    RemainingShrinks(pol, s0, s, t, first, lo, lo, hi, hi, last, depth0, depth, max);
  }

  /** The low side was treated by a nested call; the loop goes on behind the pivot. */
  lemma RemainingHigh(pol: Policies, s0: seq<int>, s: seq<int>, s1: seq<int>, s2: seq<int>, first: nat, lo: nat,
                      mid: nat, hi: nat, last: nat, depth0: nat, depth: nat, max: nat)
    requires pol.post.Size() >= 1 && pol.Terminating()
    requires first <= lo <= mid < hi <= last <= |s| == |s1| && |s2| == |s| == |s0|
    requires Remaining(pol, s0, s, first, lo, hi, last, depth0, depth, max)
    requires SameOutside(s, s1, lo, hi)
    requires Reached(Step(pol, s[lo..hi], depth, max), s1[lo..hi], Divided, mid - lo)
    requires SameOutside(s1, s2, lo, mid) && s2[lo..mid] == Inner(pol, s1[lo..mid], depth + 1, max)
    ensures Remaining(pol, s0, s2, first, mid + 1, hi, last, depth0, depth + 1, max)
  {
    hide Step, SameOutside, Inner, Remaining;
    var o := Step(pol, s[lo..hi], depth, max);
    DividedParts(s1, lo, mid, hi, o.low, o.pivot, o.high);
    DividedInner(pol, s[lo..hi], depth, max);
    SameOutsideItself(s2, mid + 1, hi);
    SidesApart(s1, s2, s2, lo, mid, hi);
    SameOutsideTwice(s, s1, s2, lo, hi);
    Behind(s2, lo, mid, hi, Inner(pol, s2[mid + 1..hi], depth + 1, max));
    RemainingShrinks(pol, s0, s, s2, first, lo, mid + 1, hi, hi, last, depth0, depth, max);
  }

  /** The high side was treated by a nested call; the loop goes on in front of the pivot. */
  lemma RemainingLow(pol: Policies, s0: seq<int>, s: seq<int>, s1: seq<int>, s2: seq<int>, first: nat, lo: nat,
                     mid: nat, hi: nat, last: nat, depth0: nat, depth: nat, max: nat)
    requires pol.post.Size() >= 1 && pol.Terminating()
    requires first <= lo <= mid < hi <= last <= |s| == |s1| && |s2| == |s| == |s0|
    requires Remaining(pol, s0, s, first, lo, hi, last, depth0, depth, max)
    requires SameOutside(s, s1, lo, hi)
    requires Reached(Step(pol, s[lo..hi], depth, max), s1[lo..hi], Divided, mid - lo)
    requires SameOutside(s1, s2, mid + 1, hi) && s2[mid + 1..hi] == Inner(pol, s1[mid + 1..hi], depth + 1, max)
    ensures Remaining(pol, s0, s2, first, lo, mid, last, depth0, depth + 1, max)
  {
    hide Step, SameOutside, Inner, Remaining;
    var o := Step(pol, s[lo..hi], depth, max);
    DividedParts(s1, lo, mid, hi, o.low, o.pivot, o.high);
    DividedInner(pol, s[lo..hi], depth, max);
    SameOutsideItself(s2, lo, mid);
    SidesApartHighFirst(s1, s2, s2, lo, mid, hi);
    SameOutsideTwice(s, s1, s2, lo, hi);
    InFront(s2, lo, mid, hi, Inner(pol, s2[lo..mid], depth + 1, max));
    RemainingShrinks(pol, s0, s, s2, first, lo, lo, mid, hi, last, depth0, depth, max);
  }

  lemma DividedInner(pol: Policies, s: seq<int>, depth: nat, max: nat)
    requires pol.post.Size() >= 1 && pol.Terminating()
    ensures match Step(pol, s, depth, max)
      case Split(low, p, high) =>
        Inner(pol, s, depth, max) == Inner(pol, low, depth + 1, max) + [p] + Inner(pol, high, depth + 1, max)
      case _ => true
  {
    hide Step;
  }

  /** How many activations of the tail-recursive form may be nested on `n` elements. */
  function NestingBound(size: nat, n: nat): nat {
    if size >= 2 then Log2(n) + 1 else Log2(n + 1) + 1
  }

  /** More than one activation takes twice as many elements for each further one. */
  lemma NestingIs(size: nat, n: nat, nested: nat)
    requires 1 < nested <= NestingBound(size, n)
    ensures Pow2(nested - 1) <= if size >= 2 then n else n + 1
  {
    Log2AtLeast(if size >= 2 then n else n + 1, nested - 1);
  }

  lemma NestingStep(size: nat, m: nat, n: nat, total: nat)
    requires 2 * m + 1 <= n <= total && n >= size >= 1
    ensures NestingBound(size, m) + 1 <= NestingBound(size, total)
  {
    if size >= 2 && m >= 1 {
      Log2Half(m, total);
    } else if size < 2 {
      Log2Half(m + 1, total + 1);
    } else {
      Log2Half(1, total);
    }
  }

  /** The form that calls itself on the shorter side and goes round the loop with the other. It
      leaves what the doubly recursive form leaves, and nests only logarithmically. `byValue` makes it
      `quick_sort_tail_value`. */
  method TailRecursive(a: array<int>, first: nat, last: nat, depth0: nat, max: nat, pol: Policies, byValue: bool)
    returns (ghost nested: nat)
    requires first <= last <= a.Length && pol.Valid() && pol.Terminating()
    modifies a
    ensures SameOutside(old(a[..]), a[..], first, last)
    ensures a[first..last] == Inner(pol, old(a[first..last]), depth0, max)
    ensures nested <= NestingBound(pol.post.Size(), last - first)
    decreases LevelsLeft(pol, depth0, max), last - first
  {
    hide *;
    SizeIsPositive(pol);
    ghost var s0 := a[..];
    var lo: nat, hi: nat, depth: nat := first, last, depth0;
    nested := 1;
    NestingAtLeastOne(pol.post.Size(), last - first);
    RemainingStart(pol, s0, lo, hi, depth, max);
    while true
      invariant first <= lo <= hi <= last && depth0 <= depth
      invariant LevelsLeft(pol, depth, max) <= LevelsLeft(pol, depth0, max)
      invariant Remaining(pol, s0, a[..], first, lo, hi, last, depth0, depth, max)
      invariant nested <= NestingBound(pol.post.Size(), last - first)
      decreases LevelsLeft(pol, depth, max), hi - lo
    {
      ghost var s := a[..];
      var ending, mid := Pass(a, lo, hi, depth, max, pol, byValue);
      ghost var s1 := a[..];
      if ending.Finished? {
        RemainingDone(pol, s0, s, s1, first, lo, hi, last, depth0, depth, max, mid - lo);
        return;
      }
      LevelsDrop(pol, depth0, depth, max);
      match ending
      case Unshrunk =>
        RemainingDeeper(pol, s0, s, s1, first, lo, hi, last, depth0, depth, max, mid - lo);
        lo, depth := mid, depth + 1;
      case Divided =>
        ghost var n;
        if mid - lo < hi - (mid + 1) {
          n := TailRecursive(a, lo, mid, depth + 1, max, pol, byValue);
          NestingStep(pol.post.Size(), mid - lo, hi - lo, last - first);
          ghost var s2 := a[..];
          RemainingHigh(pol, s0, s, s1, s2, first, lo, mid, hi, last, depth0, depth, max);
          lo, depth := mid + 1, depth + 1;
        } else {
          n := TailRecursive(a, mid + 1, hi, depth + 1, max, pol, byValue);
          NestingStep(pol.post.Size(), hi - (mid + 1), hi - lo, last - first);
          ghost var s2 := a[..];
          RemainingLow(pol, s0, s, s1, s2, first, lo, mid, hi, last, depth0, depth, max);
          hi, depth := mid, depth + 1;
        }
        nested := if nested < n + 1 then n + 1 else nested;
    }
  }

  lemma SizeIsPositive(pol: Policies)
    requires pol.Valid() && pol.Terminating()
    ensures pol.post.Size() >= 1 && (!pol.intro ==> !pol.fat)
  {
  }

  lemma NestingAtLeastOne(size: nat, n: nat)
    ensures 1 <= NestingBound(size, n)
  {
  }

  // ---- the public entry points ----

  /** The most shifts the post pass may need on `n` elements. */
  function ShiftBound(post: Post, n: nat): int {
    n * if post.Size() < 2 then 0 else post.Size() - 2
  }

  lemma AlreadySorted(post: Post, s: seq<int>, r: seq<int>)
    requires post.Size() >= 1 && AlmostDone(post, s, r)
    ensures post.NoPost? || post.PostDirect? ==> r == InsertionSorted(s)
  {
    hide InsertionSorted;
    if post.NoPost? || post.PostDirect? {
      SortedPermutation(s, r);
    }
  }

  /** What the recursion leaves is short of order by so little that the first `2 * Size` elements
      stop every unguarded walk, and that every walk is shorter than `Size - 1`. */
  lemma PostIsShort(post: Post, s: seq<int>, r: seq<int>)
    requires post.Size() >= 1 && AlmostDone(post, s, r)
    ensures var n := |r|; Ins.FloorInFront(r, if n < 2 * post.Size() then n else 2 * post.Size())
    ensures Inversions(r) <= ShiftBound(post, |r|)
    ensures InsertionSorted(r) == InsertionSorted(s)
    ensures post.NoPost? || post.PostDirect? ==> r == InsertionSorted(s)
  {
    hide InsertionSorted, Inversions, Sorted;
    FewInversions(r, post.Size() - 1);
    SamePermutation(s, r);
    AlreadySorted(post, s, r);
    var n := |r|;
    var m := if n < 2 * post.Size() then n else 2 * post.Size();
    forall k | m <= k < n ensures Ins.HasFloor(r, m, r[k]) {
      assert r[0] <= r[k];
    }
  }

  /** `Post::run` after the recursion turned `was` into what is in the range now. */
  method PostPass(a: array<int>, lo: nat, hi: nat, post: Post, ghost was: seq<int>) returns (ghost shifts: nat)
    requires lo <= hi <= a.Length && post.Size() >= 1 && AlmostDone(post, was, a[lo..hi])
    modifies a
    ensures SameOutside(old(a[..]), a[..], lo, hi)
    ensures a[lo..hi] == InsertionSorted(was)
    ensures shifts <= ShiftBound(post, hi - lo)
  {
    hide AlmostDone, InsertionSorted, Inversions, ShiftBound;
    PostIsShort(post, was, a[lo..hi]);
    shifts := 0;
    match post
    case NoPost =>
    case PostDirect(_) =>
    case PostInsertion(_) => shifts := Ins.Insertion(a, lo, hi);
    case PostMoveInsertion(_) => shifts := Ins.MoveInsertion(a, lo, hi);
    case PostSentinel(size) => shifts := Ins.SentinelPass(a, lo, hi, size, false);
    case PostMoveSentinel(size) => shifts := Ins.SentinelPass(a, lo, hi, size, true);
  }

  /** The three forms of the sort. */
  datatype Form = QuickSort | QuickSortTail | QuickSortTailValue

  /** `quick_sort::run`, `quick_sort_tail::run` and `quick_sort_tail_value::run`. */
  method Sort(a: array<int>, lo: nat, hi: nat, pol: Policies, form: Form) returns (ghost shifts: nat)
    requires lo <= hi <= a.Length && pol.Valid() && pol.Terminating()
    modifies a
    ensures SameOutside(old(a[..]), a[..], lo, hi)
    ensures a[lo..hi] == Run(pol, old(a[lo..hi])) == InsertionSorted(old(a[lo..hi]))
    ensures shifts <= ShiftBound(pol.post, hi - lo)
  {
    hide AlmostDone, InsertionSorted, Inner, ShiftBound, SameOutside, Run;
    ghost var was := a[..];
    var max := InitDepth(pol, lo, hi);
    if form.QuickSort? {
      Recursive(a, lo, hi, 0, max, pol);
    } else {
      ghost var _ := TailRecursive(a, lo, hi, 0, max, pol, form.QuickSortTailValue?);
    }
    InnerNearlySorts(pol, was[lo..hi], 0, max);
    RunSorts(pol, was[lo..hi]);
    ghost var s := a[..];
    shifts := PostPass(a, lo, hi, pol.post, was[lo..hi]);
    SameOutsideTwice(was, s, a[..], lo, hi);
  }
}
