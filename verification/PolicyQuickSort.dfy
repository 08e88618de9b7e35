/** The policy-based quicksort: one skeleton for every choice of pivot, fallback, post pass,
    partition and fat step. `Inner` says on values what the recursion leaves behind; the methods
    `Recursive` and `TailRecursive` work in place and are proved to leave exactly that. */
module PolicyQuickSort {
  import opened Wrappers
  import opened Powers
  import opened Ranges
  import opened Partition

  /** A pivot policy picks any position of a non-empty range. */
  type PivotChoice = f: seq<int> -> nat | forall s: seq<int> :: s != [] ==> f(s) < |s|
    witness (s: seq<int>) => 0

  datatype Post =
    | NoPost
    | PostInsertion(size: nat)
    | PostMoveInsertion(size: nat)
    | PostDirect(size: nat)
    | PostSentinel(size: nat)
    | PostMoveSentinel(size: nat)
  {
    /** Ranges shorter than this are not partitioned. */
    function Size(): nat { if NoPost? then 2 else size }
  }

  datatype Partitioner = Standard | Simple | Manual | Sentinel

  /** `standard` is the library's `std::partition`; `intro` says whether the fallback is
      `intro<Sort>` or `none`. */
  datatype Policies = Policies(pivot: PivotChoice, intro: bool, post: Post, partition: Partitioner,
                               fat: bool, standard: StdPartition)
  {
    /** What the source demands: an empty range is never partitioned, nor is one with nothing in
        front of the pivot by the loop that checks no bounds. */
    ghost predicate Valid() {
      post.Size() >= 1 && (partition.Sentinel? ==> post.Size() >= 2)
    }

    /** Without a fallback the fat step can repeat for ever. */
    predicate Terminating() { intro || !fat }

    function Arrange(s: seq<int>, pred: int -> bool): (r: (seq<int>, nat))
      ensures IsPartition(s, pred, r)
    {
      if partition.Standard? then standard(s, pred) else ConformingExchange(s, pred)
    }
  }

  /** What one pass over the loop or function body makes of a range. */
  datatype Outcome =
    | Leaf(range: seq<int>)
    | Split(low: seq<int>, pivot: int, high: seq<int>)
    | Again(range: seq<int>)

  /** The pivot `p` sits behind the range `r.0` partitioned at `r.1`; it is put where the parts meet. */
  function PlacePivot(r: (seq<int>, nat), p: int): (o: Outcome)
    requires r.1 <= |r.0|
    ensures o.Split? && |o.low| + |o.high| == |r.0|
  {
    var t := Swap(r.0 + [p], r.1, |r.0|);
    Split(t[..r.1], t[r.1], t[r.1 + 1..])
  }

  /** The fat step: the elements not below the pivot are partitioned by that very property, the
      pivot is exchanged with the element found, and the caller's range stays as it is. */
  function FatRange(pol: Policies, s: seq<int>, p: int): (t: seq<int>)
    ensures |t| == |s| + 1
  {
    var f := pol.standard(s, AtLeast(p));
    Swap(f.0 + [p], f.1, |s|)
  }

  function Divide(pol: Policies, init: seq<int>, p: int): (o: Outcome)
    ensures o.Split? ==> |o.low| + |o.high| == |init|
    ensures o.Again? ==> pol.fat && |o.range| == |init| + 1
    ensures !o.Leaf?
  {
    var r := pol.Arrange(init, Below(p));
    if pol.fat && r.1 == 0 then Again(FatRange(pol, r.0, p)) else PlacePivot(r, p)
  }

  function Step(pol: Policies, s: seq<int>, depth: nat, max: nat): (o: Outcome)
    requires pol.post.Size() >= 1
    ensures o.Split? ==> |o.low| + 1 + |o.high| == |s|
    ensures o.Again? ==> pol.fat && |o.range| == |s|
    ensures o.Leaf? ==> |o.range| == |s|
    ensures !o.Leaf? ==> |s| >= pol.post.Size() && (pol.intro ==> depth < max)
  {
    if |s| < pol.post.Size() then Leaf(if pol.post.PostDirect? then InsertionSorted(s) else s)
    else if pol.intro && depth >= max then Leaf(InsertionSorted(s))
    else
      var last := |s| - 1;
      var t := Swap(s, pol.pivot(s), last);
      Divide(pol, t[..last], t[last])
  }

  /** How many levels the depth limit still allows; 0 without one. */
  function LevelsLeft(pol: Policies, depth: nat, max: nat): nat {
    if pol.intro && depth < max then max - depth else 0
  }

  /** The range after the recursion, before the post pass. */
  function Inner(pol: Policies, s: seq<int>, depth: nat, max: nat): (r: seq<int>)
    requires pol.post.Size() >= 1 && pol.Terminating()
    ensures |r| == |s|
    decreases LevelsLeft(pol, depth, max), |s|
  {
    hide Step, Divide;
    match Step(pol, s, depth, max)
    case Leaf(t) => t
    case Again(t) => Inner(pol, t, depth + 1, max)
    case Split(low, p, high) => Inner(pol, low, depth + 1, max) + [p] + Inner(pol, high, depth + 1, max)
  }

  /** The whole sort: the recursion from depth 0, then the post pass. */
  function Run(pol: Policies, s: seq<int>): seq<int>
    requires pol.post.Size() >= 1 && pol.Terminating()
  {
    var t := Inner(pol, s, 0, MaxDepth(pol, |s|));
    if pol.post.NoPost? || pol.post.PostDirect? then t else InsertionSorted(t)
  }

  function MaxDepth(pol: Policies, n: nat): nat { if pol.intro then 2 * Log2(n) else 0 }

  // ---- what one pass guarantees ----

  lemma PivotPlaced(r: seq<int>, m: nat, p: int)
    requires m <= |r|
    ensures Swap(r + [p], m, |r|) == r[..m] + [p] + if m == |r| then [] else r[m + 1..] + [r[m]]
  {
  }

  lemma PivotBetween(r: seq<int>, m: nat, p: int)
    requires m <= |r|
    ensures var t := Swap(r + [p], m, |r|);
      && t[..m] == r[..m] && t[m] == p
      && multiset(t[..m] + [p] + t[m + 1..]) == multiset(r + [p])
      && t[m + 1..] == if m == |r| then [] else r[m + 1..] + [r[m]]
  {
    hide Swap;
    PivotPlaced(r, m, p);
    var t, tail := Swap(r + [p], m, |r|), if m == |r| then [] else r[m + 1..] + [r[m]];
    assert t[..m] == r[..m] && t[m] == p && t[m + 1..] == tail;
    assert t == t[..m] + [p] + t[m + 1..];
  }

  lemma AboveAndBelow(r: seq<int>, m: nat, p: int)
    requires m <= |r| && AllSatisfy(r[..m], Below(p)) && NoneSatisfy(r[m..], Below(p))
    ensures AllBelow(r[..m], p)
    ensures m < |r| ==> AllAtLeast(r[m + 1..] + [r[m]], p)
  {
    forall i | m <= i < |r| ensures r[i] >= p { assert r[i] == r[m..][i - m]; }
  }

  lemma SplitSeparates(s: seq<int>, r: (seq<int>, nat), p: int)
    requires IsPartition(s, Below(p), r)
    ensures match PlacePivot(r, p) case Split(low, q, high) =>
      q == p && AllBelow(low, p) && AllAtLeast(high, p) && multiset(low + [p] + high) == multiset(s + [p])
  {
    hide Swap;
    PivotBetween(r.0, r.1, p);
    AboveAndBelow(r.0, r.1, p);
    assert multiset(r.0 + [p]) == multiset(s + [p]);
  }

  lemma FatRearranges(pol: Policies, s: seq<int>, p: int)
    ensures multiset(FatRange(pol, s, p)) == multiset(s + [p])
  {
    var f := pol.standard(s, AtLeast(p));
    assert IsPartition(s, AtLeast(p), f);
    assert multiset(f.0 + [p]) == multiset(s + [p]);
  }

  lemma DivideIsSound(pol: Policies, init: seq<int>, p: int)
    ensures SoundStep(pol, init + [p], Divide(pol, init, p))
  {
    hide AllBelow, AllAtLeast, PlacePivot, FatRange;
    var r := pol.Arrange(init, Below(p));
    if pol.fat && r.1 == 0 {
      FatRearranges(pol, r.0, p);
      assert multiset(r.0 + [p]) == multiset(init + [p]);
    } else {
      SplitSeparates(init, r, p);
    }
  }

  /** A range is split around a value that separates it; a fat pass only rearranges; a leaf is
      short or sorted. */
  ghost predicate SoundStep(pol: Policies, s: seq<int>, o: Outcome) {
    match o
    case Leaf(t) =>
      multiset(t) == multiset(s) && (|s| >= pol.post.Size() || pol.post.PostDirect? ==> Sorted(t))
    case Again(t) => multiset(t) == multiset(s)
    case Split(low, p, high) =>
      multiset(low + [p] + high) == multiset(s) && AllBelow(low, p) && AllAtLeast(high, p)
  }

  lemma SoundForPermutation(pol: Policies, s: seq<int>, t: seq<int>, o: Outcome)
    requires SoundStep(pol, s, o) && multiset(s) == multiset(t) && |s| == |t|
    ensures SoundStep(pol, t, o)
  {
  }

  lemma StepIsSound(pol: Policies, s: seq<int>, depth: nat, max: nat)
    requires pol.post.Size() >= 1
    ensures SoundStep(pol, s, Step(pol, s, depth, max))
  {
    hide AllBelow, AllAtLeast, Divide, InsertionSorted, Swap;
    InsertionSortSorts(s);
    if |s| >= pol.post.Size() && !(pol.intro && depth >= max) {
      var last := |s| - 1;
      var t := Swap(s, pol.pivot(s), last);
      assert t == t[..last] + [t[last]];
      DivideIsSound(pol, t[..last], t[last]);
      SoundForPermutation(pol, t, s, Divide(pol, t[..last], t[last]));
    }
  }

  // ---- the main results ----

  /** `r` is a permutation of `s` in which every inversion spans fewer than `Size` elements, end
      points included, and is sorted when small ranges are sorted on the way. */
  ghost predicate AlmostDone(post: Post, s: seq<int>, r: seq<int>)
    requires post.Size() >= 1
  {
    && multiset(r) == multiset(s)
    && NearlySorted(r, post.Size() - 1)
    && (post.PostDirect? ==> Sorted(r))
  }

  /** The recursion gets there for every pivot, partition, fallback and fat setting. */
  lemma {:induction false} InnerNearlySorts(pol: Policies, s: seq<int>, depth: nat, max: nat)
    requires pol.post.Size() >= 1 && pol.Terminating()
    ensures AlmostDone(pol.post, s, Inner(pol, s, depth, max))
    decreases LevelsLeft(pol, depth, max), |s|
  {
    hide Step, AlmostDone, SoundStep;
    StepIsSound(pol, s, depth, max);
    match Step(pol, s, depth, max)
    case Leaf(t) =>
      LeafAlmostDone(pol, s, t);
    case Again(t) =>
      InnerNearlySorts(pol, t, depth + 1, max);
      AgainAlmostDone(pol, s, t, Inner(pol, t, depth + 1, max));
    case Split(low, p, high) =>
      InnerNearlySorts(pol, low, depth + 1, max);
      InnerNearlySorts(pol, high, depth + 1, max);
      Joined(pol, s, low, Inner(pol, low, depth + 1, max), p, high, Inner(pol, high, depth + 1, max));
  }

  lemma LeafAlmostDone(pol: Policies, s: seq<int>, t: seq<int>)
    requires pol.post.Size() >= 1 && SoundStep(pol, s, Leaf(t))
    ensures AlmostDone(pol.post, s, t)
  {
    SameContentsSameLength(s, t);
  }

  lemma AgainAlmostDone(pol: Policies, s: seq<int>, t: seq<int>, r: seq<int>)
    requires pol.post.Size() >= 1 && SoundStep(pol, s, Again(t)) && AlmostDone(pol.post, t, r)
    ensures AlmostDone(pol.post, s, r)
  {
  }

  /** Two sides treated separately, put back around the pivot. */
  lemma Joined(pol: Policies, s: seq<int>, low: seq<int>, l: seq<int>, p: int, high: seq<int>, h: seq<int>)
    requires pol.post.Size() >= 1 && SoundStep(pol, s, Split(low, p, high))
    requires AlmostDone(pol.post, low, l) && AlmostDone(pol.post, high, h)
    ensures AlmostDone(pol.post, s, l + [p] + h)
  {
    Members(low, l);
    Members(high, h);
    assert multiset(l + [p] + h) == multiset(low + [p] + high);
    NearlySortedAroundPivot(l, p, h, pol.post.Size() - 1);
    if pol.post.PostDirect? {
      SortedSides(l, p, h);
    }
  }

  /** Every terminating combination of policies sorts. */
  lemma RunSorts(pol: Policies, s: seq<int>)
    requires pol.post.Size() >= 1 && pol.Terminating()
    ensures Run(pol, s) == InsertionSorted(s)
    ensures Sorted(Run(pol, s)) && multiset(Run(pol, s)) == multiset(s)
  {
    var max := MaxDepth(pol, |s|);
    var t := Inner(pol, s, 0, max);
    InnerNearlySorts(pol, s, 0, max);
    InsertionSortSorts(s);
    if pol.post.NoPost? || pol.post.PostDirect? {
      SortedPermutation(s, t);
    } else {
      SamePermutation(s, t);
    }
  }

  // ---- termination ----

  function Both(l: Option<seq<int>>, p: int, h: Option<seq<int>>): Option<seq<int>> {
    if l.Some? && h.Some? then Some(l.value + [p] + h.value) else None
  }

  /** The recursion cut off after `fuel` levels: `None` when it has not come back by then. */
  function InnerWithin(pol: Policies, s: seq<int>, depth: nat, max: nat, fuel: nat): Option<seq<int>>
    requires pol.post.Size() >= 1
    decreases fuel
  {
    if fuel == 0 then None
    else match Step(pol, s, depth, max)
      case Leaf(t) => Some(t)
      case Again(t) => InnerWithin(pol, t, depth + 1, max, fuel - 1)
      case Split(low, p, high) =>
        Both(InnerWithin(pol, low, depth + 1, max, fuel - 1), p, InnerWithin(pol, high, depth + 1, max, fuel - 1))
  }

  ghost predicate ComesBack(pol: Policies, s: seq<int>)
    requires pol.post.Size() >= 1
  {
    exists fuel: nat :: InnerWithin(pol, s, 0, MaxDepth(pol, |s|), fuel).Some?
  }

  lemma OneLevel(pol: Policies, s: seq<int>, depth: nat, max: nat, fuel: nat)
    requires pol.post.Size() >= 1 && pol.Terminating() && fuel > 0
    ensures match Step(pol, s, depth, max)
      case Leaf(t) => InnerWithin(pol, s, depth, max, fuel) == Some(Inner(pol, s, depth, max))
      case Again(t) =>
        && InnerWithin(pol, s, depth, max, fuel) == InnerWithin(pol, t, depth + 1, max, fuel - 1)
        && Inner(pol, s, depth, max) == Inner(pol, t, depth + 1, max)
      case Split(low, p, high) =>
        && InnerWithin(pol, s, depth, max, fuel)
          == Both(InnerWithin(pol, low, depth + 1, max, fuel - 1), p, InnerWithin(pol, high, depth + 1, max, fuel - 1))
        && Some(Inner(pol, s, depth, max))
          == Both(Some(Inner(pol, low, depth + 1, max)), p, Some(Inner(pol, high, depth + 1, max)))
  {
    hide Step;
  }

  lemma LevelsDrop(pol: Policies, depth0: nat, depth: nat, max: nat)
    requires depth0 <= depth && (pol.intro ==> depth < max)
    ensures LevelsLeft(pol, depth + 1, max) <= LevelsLeft(pol, depth, max) <= LevelsLeft(pol, depth0, max)
    ensures pol.intro ==> LevelsLeft(pol, depth + 1, max) < LevelsLeft(pol, depth, max)
  {
  }

  lemma FatNeedsLimit(pol: Policies)
    ensures pol.Terminating() <==> (pol.fat ==> pol.intro)
  {
  }

  lemma {:induction false} EnoughLevels(pol: Policies, s: seq<int>, depth: nat, max: nat, fuel: nat)
    requires pol.post.Size() >= 1 && pol.Terminating()
    requires fuel > |s| + LevelsLeft(pol, depth, max)
    ensures InnerWithin(pol, s, depth, max, fuel) == Some(Inner(pol, s, depth, max))
    decreases fuel
  {
    hide *;
    FatNeedsLimit(pol);
    OneLevel(pol, s, depth, max, fuel);
    var o := Step(pol, s, depth, max);
    match o {
      case Leaf(_) =>
      case Again(t) =>
        LevelsDrop(pol, depth, depth, max);
        EnoughLevels(pol, t, depth + 1, max, fuel - 1);
      case Split(low, p, high) =>
        LevelsDrop(pol, depth, depth, max);
        EnoughLevels(pol, low, depth + 1, max, fuel - 1);
        EnoughLevels(pol, high, depth + 1, max, fuel - 1);
    }
  }

  ghost predicate AllEqual(s: seq<int>, c: int) {
    forall i :: 0 <= i < |s| ==> s[i] == c
  }

  lemma AllSame(s: seq<int>, t: seq<int>, c: int)
    requires multiset(t) == multiset(s) && AllEqual(s, c)
    ensures t == s
  {
    SameContentsSameLength(s, t);
    forall i | 0 <= i < |t| ensures t[i] == c {
      assert t[i] in multiset(s);
    }
  }

  /** Among equal elements nothing is below the pivot. */
  lemma NothingBelow(s: seq<int>, r: (seq<int>, nat), c: int)
    requires AllEqual(s, c) && IsPartition(s, Below(c), r)
    ensures r == (s, 0)
  {
    AllSame(s, r.0, c);
    PartitionPoint(s, Below(c), r);
    CountFailingExtremes(s, Below(c));
  }

  /** The fat step then hands back the same range. */
  lemma FatStepStandsStill(pol: Policies, s: seq<int>, depth: nat, max: nat, c: int)
    requires pol.fat && !pol.intro && pol.post.Size() >= 1 && |s| >= pol.post.Size()
    requires AllEqual(s, c)
    ensures Step(pol, s, depth, max) == Again(s)
  {
    hide IsPartition, Below, AtLeast, FatRange, PlacePivot, InsertionSorted;
    var last := |s| - 1;
    var t := Swap(s, pol.pivot(s), last);
    assert t == s;
    var init := t[..last];
    NothingBelow(init, pol.Arrange(init, Below(c)), c);
    FatRearranges(pol, init, c);
    assert init + [c] == s;
    AllSame(s, FatRange(pol, init, c), c);
  }

  lemma {:induction false} EqualElementsNeverComeBack(pol: Policies, s: seq<int>, depth: nat, max: nat, c: int,
                                                      fuel: nat)
    requires pol.fat && !pol.intro && pol.post.Size() >= 1 && |s| >= pol.post.Size()
    requires AllEqual(s, c)
    ensures InnerWithin(pol, s, depth, max, fuel).None?
    decreases fuel
  {
    hide Step;
    if fuel > 0 {
      FatStepStandsStill(pol, s, depth, max, c);
      EqualElementsNeverComeBack(pol, s, depth + 1, max, c, fuel - 1);
    }
  }

  /** The policies that come back on every input are exactly those with a depth limit or without
      the fat step, whatever the pivot, the partition and the post pass. */
  lemma ComesBackIffTerminating(pol: Policies)
    requires pol.post.Size() >= 1
    ensures (forall s: seq<int> :: ComesBack(pol, s)) <==> pol.Terminating()
  {
    if pol.Terminating() {
      forall s: seq<int> ensures ComesBack(pol, s) {
        var max := MaxDepth(pol, |s|);
        EnoughLevels(pol, s, 0, max, |s| + max + 1);
      }
    } else {
      var s := seq(pol.post.Size(), _ => 42);
      forall fuel: nat ensures InnerWithin(pol, s, 0, MaxDepth(pol, |s|), fuel).None? {
        EqualElementsNeverComeBack(pol, s, 0, MaxDepth(pol, |s|), 42, fuel);
      }
      assert !ComesBack(pol, s);
    }
  }
}
