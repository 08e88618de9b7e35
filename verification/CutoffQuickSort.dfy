/** The quicksorts that stop at short ranges and leave them to one insertion pass over the whole
    array: what one division comes to, and the simple form. */
module CutoffQuickSort {
  import opened Ranges
  import opened Partition
  import opened PartitionLoops
  import opened Slices
  import Ins = Insertion

  datatype Algorithm = StandardLibrary(f: StdPartition) | SimpleLoop | ManualLoop | SentinelLoop

  /** `r` is a permutation of `s` whose inversions span at most `size` elements. */
  ghost predicate CutOff(s: seq<int>, r: seq<int>, size: nat) {
    multiset(r) == multiset(s) && NearlySorted(r, size)
  }

  /** The loop that checks no bounds wants a range that is not empty and an element that fails, up to
      the one behind it. */
  method PartitionBy(a: array<int>, lo: nat, hi: nat, test: Test, ghost pred: int -> bool, part: Algorithm)
    returns (mid: nat)
    requires lo <= hi <= a.Length && Stands(test, a[..], lo, hi, pred)
    requires part.SentinelLoop? ==> lo < hi < a.Length && exists i :: lo <= i <= hi && !pred(a[i])
    modifies a
    ensures lo <= mid <= hi && SameOutside(old(a[..]), a[..], lo, hi)
    ensures IsPartition(old(a[lo..hi]), pred, (a[lo..hi], mid - lo))
    ensures !part.StandardLibrary? ==> (a[lo..hi], mid - lo) == Exchange(old(a[lo..hi]), pred)
  {
    hide Exchange, IsPartition, Stands;
    ExchangeIsPartition(a[lo..hi], pred);
    match part
    case SimpleLoop => mid := Simple(a, lo, hi, test, pred);
    case ManualLoop => mid := Manual(a, lo, hi, test, pred);
    case SentinelLoop => mid := Sentinel(a, lo, hi, test, pred);
    case StandardLibrary(f) =>
      StandardIs(f, a[lo..hi], pred);
      mid := Standard(a, lo, hi, test, f, pred);
  }

  // ---- one division ----

  /** The two sides of `[lo, hi - 1)` at `mid`, with the pivot `p` still at `hi - 1`. */
  ghost predicate Sides(s: seq<int>, lo: nat, mid: nat, hi: nat, p: int)
    requires lo <= mid < hi <= |s|
  {
    AllAtMost(s[lo..mid], p) && AllAtLeast(s[mid..hi - 1], p) && s[hi - 1] == p
  }

  /** A range in front of its last element, cut at `mid`. */
  lemma Cut(s: seq<int>, lo: nat, mid: nat, hi: nat)
    requires lo <= mid < hi <= |s|
    ensures var t := s[lo..hi - 1];
      s[lo..mid] == t[..mid - lo] && s[mid..hi - 1] == t[mid - lo..] && s[lo..hi] == t + [s[hi - 1]]
  {
    Slice(s, lo, mid, hi - 1);
    Adjoin(s, lo, hi - 1, hi);
  }

  lemma Slice(s: seq<int>, lo: nat, mid: nat, hi: nat)
    requires lo <= mid <= hi <= |s|
    ensures s[lo..hi][..mid - lo] == s[lo..mid] && s[lo..hi][mid - lo..] == s[mid..hi]
  {
  }

  lemma PartitionGivesSides(was: seq<int>, s: seq<int>, lo: nat, mid: nat, hi: nat)
    requires lo <= mid < hi <= |s| && SameOutside(was, s, lo, hi - 1)
    requires IsPartition(was[lo..hi - 1], Below(was[hi - 1]), (s[lo..hi - 1], mid - lo))
    ensures SameOutside(was, s, lo, hi) && Sides(s, lo, mid, hi, was[hi - 1])
    ensures multiset(s[lo..hi]) == multiset(was[lo..hi])
  {
    OneMore(was, s, lo, hi);
    Cut(s, lo, mid, hi);
    Cut(was, lo, lo, hi);
  }

  /** The second partition of a range with nothing below the pivot: what is not above it is equal. */
  lemma SecondGivesSides(was: seq<int>, s: seq<int>, lo: nat, mid: nat, hi: nat)
    requires lo <= mid < hi <= |s| && SameOutside(was, s, lo, hi - 1)
    requires Sides(was, lo, lo, hi, was[hi - 1])
    requires IsPartition(was[lo..hi - 1], AtMost(was[hi - 1]), (s[lo..hi - 1], mid - lo))
    ensures SameOutside(was, s, lo, hi) && Sides(s, lo, mid, hi, was[hi - 1])
    ensures multiset(s[lo..hi]) == multiset(was[lo..hi])
    ensures NearlySorted(s[lo..mid], 0)
  {
    OneMore(was, s, lo, hi);
    var t, p := s[lo..hi - 1], was[hi - 1];
    Cut(s, lo, mid, hi);
    Cut(was, lo, lo, hi);
    Members(was[lo..hi - 1], t);
    assert AllAtLeast(t, p);
    forall i | 0 <= i < mid - lo ensures s[lo..mid][i] == p {
      assert s[lo..mid][i] == t[..mid - lo][i] == t[i];
    }
  }

  lemma WeakMembers(s: seq<int>, t: seq<int>, p: int)
    requires multiset(s) == multiset(t)
    ensures AllAtMost(s, p) ==> AllAtMost(t, p)
  {
    forall i | 0 <= i < |t| ensures t[i] in s { assert t[i] in multiset(s); }
  }

  /** Treating the low side keeps the sides apart. */
  lemma LowSideDone(s: seq<int>, t: seq<int>, lo: nat, mid: nat, hi: nat, p: int, size: nat)
    requires lo <= mid < hi <= |s| == |t| && Sides(s, lo, mid, hi, p)
    requires SameOutside(s, t, lo, mid) && CutOff(s[lo..mid], t[lo..mid], size)
    ensures Sides(t, lo, mid, hi, p) && SameOutside(s, t, lo, hi)
    ensures multiset(t[lo..hi]) == multiset(s[lo..hi])
  {
    WeakMembers(s[lo..mid], t[lo..mid], p);
    OtherSide(s, t, lo, mid, hi);
    Widen(s, t, lo, lo, mid, hi);
    Slice(s, mid, hi - 1, hi);
    Slice(t, mid, hi - 1, hi);
    assert t[hi - 1] == t[mid..hi][hi - 1 - mid] == s[mid..hi][hi - 1 - mid] == s[hi - 1];
    Adjoin(s, lo, mid, hi);
    Adjoin(t, lo, mid, hi);
    assert multiset(t[lo..mid] + t[mid..hi]) == multiset(s[lo..mid] + s[mid..hi]);
  }

  /** The pivot is exchanged to where the sides meet. */
  lemma PivotBetween(s: seq<int>, lo: nat, mid: nat, hi: nat, p: int)
    requires lo <= mid < hi <= |s| && Sides(s, lo, mid, hi, p)
    ensures var t := Swap(s, mid, hi - 1);
      && SameOutside(s, t, lo, hi) && t[lo..mid] == s[lo..mid] && t[mid] == p
      && AllAtMost(t[lo..mid], p) && AllAtLeast(t[mid + 1..hi], p)
      && multiset(t[lo..hi]) == multiset(s[lo..hi])
  {
    var t := Swap(s, mid, hi - 1);
    assert t[lo..hi] == Swap(s[lo..hi], mid - lo, hi - 1 - lo);
    assert t[lo..mid] == s[lo..mid];
    forall i | mid <= i < hi ensures s[i] >= p {
      if i < hi - 1 { assert s[i] == s[mid..hi - 1][i - mid]; }
    }
  }

  /** Both sides are done. */
  lemma HighSideDone(s: seq<int>, t: seq<int>, lo: nat, mid: nat, hi: nat, p: int, size: nat)
    requires lo <= mid < hi <= |s| == |t| && s[mid] == p
    requires AllAtMost(s[lo..mid], p) && NearlySorted(s[lo..mid], size) && AllAtLeast(s[mid + 1..hi], p)
    requires SameOutside(s, t, mid + 1, hi) && CutOff(s[mid + 1..hi], t[mid + 1..hi], size)
    ensures SameOutside(s, t, lo, hi) && CutOff(s[lo..hi], t[lo..hi], size)
  {
    Widen(s, t, lo, mid + 1, hi, hi);
    OtherSide(s, t, lo, mid + 1, hi);
    OneFront(s, t, lo, mid);
    Members(s[mid + 1..hi], t[mid + 1..hi]);
    Recombined(s, lo, mid, hi);
    Recombined(t, lo, mid, hi);
    var low, high := t[lo..mid], t[mid + 1..hi];
    assert multiset(low + [p] + high) == multiset(low + [p] + s[mid + 1..hi]);
    NearlySortedAroundPivot(low, p, high, size);
  }

  lemma Wider(s: seq<int>, v: nat, w: nat)
    requires NearlySorted(s, v) && v <= w
    ensures NearlySorted(s, w)
  {
  }

  lemma ShortRange(s: seq<int>, size: nat)
    requires |s| <= size
    ensures CutOff(s, s, size)
  {
  }

  /** The low side is done; the pivot has still to be placed and the high side to be treated. */
  ghost predicate Ready(was: seq<int>, s: seq<int>, lo: nat, mid: nat, hi: nat, p: int, size: nat)
    requires lo <= mid < hi <= |s| == |was|
  {
    && SameOutside(was, s, lo, hi)
    && multiset(s[lo..hi]) == multiset(was[lo..hi])
    && Sides(s, lo, mid, hi, p)
    && NearlySorted(s[lo..mid], size)
  }

  lemma FirstPartition(s0: seq<int>, s1: seq<int>, lo: nat, mid: nat, hi: nat)
    requires lo <= mid < hi <= |s1| == |s0| && SameOutside(s0, s1, lo, hi - 1)
    requires IsPartition(s0[lo..hi - 1], Below(s0[hi - 1]), (s1[lo..hi - 1], mid - lo))
    ensures s1[hi - 1] == s0[hi - 1]
  {
    OneMore(s0, s1, lo, hi);
  }

  lemma ReadyAfterLow(s0: seq<int>, s1: seq<int>, s2: seq<int>, lo: nat, mid: nat, hi: nat, size: nat)
    requires lo <= mid < hi <= |s1| == |s0| && |s2| == |s1| && SameOutside(s0, s1, lo, hi - 1)
    requires IsPartition(s0[lo..hi - 1], Below(s0[hi - 1]), (s1[lo..hi - 1], mid - lo))
    requires SameOutside(s1, s2, lo, mid) && CutOff(s1[lo..mid], s2[lo..mid], size)
    ensures Ready(s0, s2, lo, mid, hi, s0[hi - 1], size)
  {
    hide SameOutside, IsPartition, Sides, NearlySorted;
    PartitionGivesSides(s0, s1, lo, mid, hi);
    LowSideDone(s1, s2, lo, mid, hi, s0[hi - 1], size);
    SameOutsideTwice(s0, s1, s2, lo, hi);
  }

  lemma ReadyAfterSecond(s0: seq<int>, s1: seq<int>, s2: seq<int>, lo: nat, mid: nat, hi: nat, size: nat)
    requires lo <= mid < hi <= |s1| == |s0| && |s2| == |s1| && SameOutside(s0, s1, lo, hi - 1)
    requires IsPartition(s0[lo..hi - 1], Below(s0[hi - 1]), (s1[lo..hi - 1], 0))
    requires SameOutside(s1, s2, lo, hi - 1)
    requires IsPartition(s1[lo..hi - 1], AtMost(s0[hi - 1]), (s2[lo..hi - 1], mid - lo))
    ensures Ready(s0, s2, lo, mid, hi, s0[hi - 1], size)
  {
    hide SameOutside, IsPartition, NearlySorted;
    PartitionGivesSides(s0, s1, lo, lo, hi);
    SecondGivesSides(s1, s2, lo, mid, hi);
    SameOutsideTwice(s0, s1, s2, lo, hi);
    Wider(s2[lo..mid], 0, size);
  }

  /** From the moment the low side is done to the end. */
  lemma AllDone(s0: seq<int>, s2: seq<int>, s3: seq<int>, s4: seq<int>, lo: nat, mid: nat, hi: nat, p: int, size: nat)
    requires lo <= mid < hi <= |s2| == |s0| && |s3| == |s4| == |s2|
    requires Ready(s0, s2, lo, mid, hi, p, size)
    requires s3 == Swap(s2, mid, hi - 1)
    requires SameOutside(s3, s4, mid + 1, hi) && CutOff(s3[mid + 1..hi], s4[mid + 1..hi], size)
    ensures SameOutside(s0, s4, lo, hi) && CutOff(s0[lo..hi], s4[lo..hi], size)
  {
    hide SameOutside, NearlySorted, Sides, AllAtMost, AllAtLeast, Swap;
    PivotBetween(s2, lo, mid, hi, p);
    HighSideDone(s3, s4, lo, mid, hi, p, size);
    SameOutsideTwice(s0, s2, s3, lo, hi);
    SameOutsideTwice(s0, s3, s4, lo, hi);
  }

  // ---- the sorts ----

  /** `simple_quicksort::run`: the left side is treated before the pivot is put in its place. */
  method SimpleQuickSort(a: array<int>, lo: nat, hi: nat, size: nat, part: Algorithm)
    requires lo <= hi <= a.Length && (part.SentinelLoop? ==> size >= 1)
    modifies a
    ensures SameOutside(old(a[..]), a[..], lo, hi) && CutOff(old(a[lo..hi]), a[lo..hi], size)
    decreases hi - lo
  {
    hide *;
    ghost var s0 := a[..];
    if size < hi - lo {
      var pivot := hi - 1;
      PivotStands(s0, lo, hi, Below);
      BelowIsStrict(s0[pivot]);
      var mid := PartitionBy(a, lo, pivot, Looked(pivot, Below), Below(s0[pivot]), part);
      ghost var s1 := a[..];
      SimpleQuickSort(a, lo, mid, size, part);
      ghost var s2 := a[..];
      ReadyAfterLow(s0, s1, s2, lo, mid, hi, size);
      IterSwap(a, mid, pivot);
      ghost var s3 := a[..];
      SimpleQuickSort(a, mid + 1, hi, size, part);
      AllDone(s0, s2, s3, a[..], lo, mid, hi, s0[pivot], size);
    } else {
      ShortRange(s0[lo..hi], size);
      SameOutsideItself(s0, lo, hi);
    }
  }

  lemma SortedIs(was: seq<int>, s: seq<int>, lo: nat, hi: nat, shifts: nat)
    requires lo <= hi <= |s| && Ins.SortedInPlace(was, s, lo, hi, shifts)
    ensures SameOutside(was, s, lo, hi) && s[lo..hi] == InsertionSorted(was[lo..hi])
  {
  }
}
