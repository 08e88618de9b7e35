/** The partitions written out inside the demonstration sorts. They run over the whole range
    `[lo, hi)` although the pivot sits at `hi - 1`, and count their exchanges or evaluations. */
module DemoPartitions {
  import opened Ranges
  import opened Slices
  import opened Partition
  import opened PartitionLoops

  /** The range in front of the pivot was partitioned at `mid`; the pivot has not moved. */
  ghost predicate PartitionedInFront(was: seq<int>, s: seq<int>, lo: nat, mid: nat, hi: nat)
    requires lo <= mid < hi <= |s| == |was|
  {
    && SameOutside(was, s, lo, hi - 1)
    && s[hi - 1] == was[hi - 1]
    && (s[lo..hi - 1], mid - lo) == Exchange(was[lo..hi - 1], Below(was[hi - 1]))
  }

  /** A failing element at the end takes no part in the exchanges. */
  lemma {:induction false} FailingEnd(s: seq<int>, p: int, pred: int -> bool)
    requires !pred(p)
    ensures Exchange(s + [p], pred) == (Exchange(s, pred).0 + [p], Exchange(s, pred).1)
    ensures Exchanges(s + [p], pred) == Exchanges(s, pred)
    decreases |s|
  {
    var t := s + [p];
    if s == [] {
      assert t[..|t| - 1] == [];
    } else if pred(s[0]) {
      assert t[1..] == s[1..] + [p];
      FailingEnd(s[1..], p, pred);
      var r := Exchange(s[1..], pred);
      assert [s[0]] + (r.0 + [p]) + [] == ([s[0]] + r.0 + []) + [p];
    } else {
      assert t[..|t| - 1] == s;
      var r := Exchange(s, pred);
      assert [] + r.0 + [p] == r.0 + [p];
    }
  }

  lemma WholeRange(was: seq<int>, s: seq<int>, lo: nat, mid: nat, hi: nat)
    requires lo <= mid <= hi && lo < hi <= |s| == |was|
    requires Partitioned(was, s, lo, mid, hi, Below(was[hi - 1]))
    ensures mid < hi && PartitionedInFront(was, s, lo, mid, hi)
  {
    var p, init := was[hi - 1], was[lo..hi - 1];
    assert was[lo..hi] == init + [p];
    FailingEnd(init, p, Below(p));
    var r := Exchange(init, Below(p));
    assert s[lo..hi] == r.0 + [p];
    assert s[lo..hi - 1] == s[lo..hi][..hi - 1 - lo] == r.0;
    assert s[hi - 1] == s[lo..hi][hi - 1 - lo];
    assert s[hi - 1..] == [p] + s[hi..] && was[hi - 1..] == [p] + was[hi..];
  }

  /** `partition2`: the checked loops, reading the pivot from its slot each time. `evals` counts
      the comparisons with the pivot. */
  method LivePartition(a: array<int>, lo: nat, hi: nat) returns (mid: nat, ghost evals: nat)
    requires lo < hi <= a.Length
    modifies a
    ensures lo <= mid < hi && PartitionedInFront(old(a[..]), a[..], lo, mid, hi)
    ensures evals <= hi - lo + 1
  {
    hide Progress, Partitioned, PartitionedInFront;
    var pivot := hi - 1;
    ghost var was, s, pred := a[..], a[..], Below(a[pivot]);
    Start(s, lo, hi, pred);
    var b, e := lo, hi;
    evals := 0;
    while true
      invariant lo <= b <= e <= hi && a[..] == s && Progress(was, s, lo, b, e, hi, pred)
      invariant s[pivot] == was[pivot]
      invariant evals == (b - lo) + (hi - e)
      decreases e - b
    {
      while b != e && a[b] < a[pivot]
        invariant lo <= b <= e && a[..] == s && Progress(was, s, lo, b, e, hi, pred)
        invariant evals == (b - lo) + (hi - e)
        decreases e - b
      {
        Up(was, s, lo, b, e, hi, pred);
        b, evals := b + 1, evals + 1;
      }
      evals := if b != e then evals + 1 else evals;
      while b != e
        invariant b <= e <= hi && a[..] == s && Progress(was, s, lo, b, e, hi, pred)
        invariant b < e ==> !pred(s[b])
        invariant evals <= (b - lo) + (hi - e) + 1 && (b < e ==> evals == (b - lo) + (hi - e) + 1)
        decreases e - b
      {
        e, evals := e - 1, evals + 1;
        if a[e] < a[pivot] { break; }
        Down(was, s, lo, b, e + 1, hi, pred);
      }
      if b == e { break; }
      Exchanged(was, s, lo, b, e, hi, pred);
      IterSwap(a, b, e);
      s, b := a[..], b + 1;
    }
    Finish(was, s, lo, b, hi, pred);
    WholeRange(was, s, lo, b, hi);
    mid := b;
  }

  // ---- counting exchanges ----

  const WRAP: nat := 0x1_0000_0000

  /** The exchanges made so far, in a 32-bit counter, and those still to come. */
  ghost predicate Counted(was: seq<int>, s: seq<int>, lo: nat, b: nat, e: nat, hi: nat, pred: int -> bool, swaps: nat)
    requires lo <= b <= e <= hi <= |s| == |was|
  {
    && swaps < WRAP
    && (swaps + Exchanges(s[b..e], pred)) % WRAP == Exchanges(was[lo..hi], pred) % WRAP
  }

  lemma {:induction false} CountedUp(s: seq<int>, b: nat, k: nat, e: nat, pred: int -> bool)
    requires b <= k <= e <= |s| && AllSatisfy(s[b..k], pred)
    ensures Exchanges(s[b..e], pred) == Exchanges(s[k..e], pred)
    decreases k - b
  {
    if b < k {
      assert s[b] == s[b..k][0] == s[b..e][0] && s[b + 1..k] == s[b..k][1..] && s[b..e][1..] == s[b + 1..e];
      CountedUp(s, b + 1, k, e, pred);
    }
  }

  lemma {:induction false} CountedDown(s: seq<int>, b: nat, k: nat, e: nat, pred: int -> bool)
    requires b <= k <= e <= |s| && NoneSatisfy(s[k..e], pred) && (b < e ==> !pred(s[b]))
    ensures Exchanges(s[b..e], pred) == Exchanges(s[b..k], pred)
    decreases e - k
  {
    if k < e {
      var r := s[b..e];
      assert s[e - 1] == s[k..e][e - 1 - k] == r[|r| - 1] && s[k..e - 1] == s[k..e][..e - 1 - k];
      assert r[..|r| - 1] == s[b..e - 1] && r[0] == s[b];
      CountedDown(s, b, k, e - 1, pred);
    }
  }

  lemma CountedExchange(s: seq<int>, b: nat, e: nat, pred: int -> bool)
    requires b < e < |s| && !pred(s[b]) && pred(s[e])
    ensures Exchanges(s[b..e + 1], pred) == 1 + Exchanges(Swap(s, b, e)[b + 1..e], pred)
  {
    var t, u := Swap(s, b, e), s[b..e + 1];
    assert u[0] == s[b] && u[|u| - 1] == s[e];
    Inner(s, b, e);
    assert t[b + 1..e] == s[b + 1..e];
  }

  /** Both scans from `(b, e)` to `(b', e')` and the exchange of what they stopped at. */
  lemma RoundDone(was: seq<int>, s: seq<int>, lo: nat, b: nat, b': nat, e': nat, e: nat, hi: nat,
                  pred: int -> bool, swaps: nat)
    requires lo <= b <= b' < e' < e <= hi <= |s| == |was|
    requires Progress(was, s, lo, b, e, hi, pred) && Counted(was, s, lo, b, e, hi, pred, swaps)
    requires AllSatisfy(s[b..b'], pred) && NoneSatisfy(s[e' + 1..e], pred) && !pred(s[b']) && pred(s[e'])
    ensures var t := Swap(s, b', e');
      Progress(was, t, lo, b' + 1, e', hi, pred) && Counted(was, t, lo, b' + 1, e', hi, pred, (swaps + 1) % WRAP)
  {
    hide Progress, AllSatisfy, NoneSatisfy, Exchanges, Swap;
    UpTo(was, s, lo, b, b', e, hi, pred);
    CountedUp(s, b, b', e, pred);
    DownTo(was, s, lo, b', e' + 1, e, hi, pred);
    CountedDown(s, b', e' + 1, e, pred);
    Exchanged(was, s, lo, b', e', hi, pred);
    CountedExchange(s, b', e', pred);
    Wraps(swaps, Exchanges(Swap(s, b', e')[b' + 1..e'], pred));
  }

  lemma Wraps(swaps: nat, rest: nat)
    ensures ((swaps + 1) % WRAP + rest) % WRAP == (swaps + (1 + rest)) % WRAP
  {
  }

  /** The scans met: nothing is left to exchange. */
  lemma ScansMet(was: seq<int>, s: seq<int>, lo: nat, b: nat, b': nat, e: nat, hi: nat, pred: int -> bool, swaps: nat)
    requires lo <= b <= b' <= e <= hi <= |s| == |was|
    requires Progress(was, s, lo, b, e, hi, pred) && Counted(was, s, lo, b, e, hi, pred, swaps)
    requires AllSatisfy(s[b..b'], pred) && NoneSatisfy(s[b'..e], pred) && (b' < e ==> !pred(s[b']))
    ensures Partitioned(was, s, lo, b', hi, pred) && swaps == Exchanges(was[lo..hi], pred) % WRAP
  {
    hide Progress, Partitioned, AllSatisfy, NoneSatisfy;
    UpTo(was, s, lo, b, b', e, hi, pred);
    CountedUp(s, b, b', e, pred);
    DownTo(was, s, lo, b', b', e, hi, pred);
    CountedDown(s, b', b', e, pred);
    Finish(was, s, lo, b', hi, pred);
    assert s[b'..b'] == [];
  }

  /** `monitor_swaps` and, apart from the counter, `partition_sentinel3`: the loop without bounds
      checks, stopped above by the pivot itself. `evals` counts the comparisons with the pivot. */
  method CountingPartition(a: array<int>, lo: nat, hi: nat) returns (mid: nat, swaps: nat, ghost evals: nat)
    requires lo < hi <= a.Length
    modifies a
    ensures lo <= mid < hi && PartitionedInFront(old(a[..]), a[..], lo, mid, hi)
    ensures swaps == Exchanges(old(a[lo..hi - 1]), Below(old(a[hi - 1]))) % WRAP
    ensures evals <= hi - lo + 3
  {
    hide *;
    ghost var was := a[..];
    var p := a[hi - 1];
    var pred := Below(p);
    LastIsNotBelow(was, p, hi);
    mid, swaps, evals := CountingLoops(a, lo, hi, pred);
    CountInFront(was, lo, hi);
    WholeRange(was, a[..], lo, mid, hi);
  }

  lemma LastIsNotBelow(s: seq<int>, p: int, hi: nat)
    requires 0 < hi <= |s| && s[hi - 1] == p
    ensures !Below(p)(s[hi - 1])
  {
  }

  lemma CountInFront(s: seq<int>, lo: nat, hi: nat)
    requires lo < hi <= |s|
    ensures Exchanges(s[lo..hi], Below(s[hi - 1])) == Exchanges(s[lo..hi - 1], Below(s[hi - 1]))
  {
    assert s[lo..hi] == s[lo..hi - 1] + [s[hi - 1]];
    FailingEnd(s[lo..hi - 1], s[hi - 1], Below(s[hi - 1]));
  }

  /** The first exchange, with its bounds checked, and then the bare loop. */
  method CountingLoops(a: array<int>, lo: nat, hi: nat, pred: int -> bool)
    returns (mid: nat, swaps: nat, ghost evals: nat)
    requires lo < hi <= a.Length && !pred(a[hi - 1])
    modifies a
    ensures lo <= mid <= hi && Partitioned(old(a[..]), a[..], lo, mid, hi, pred)
    ensures swaps == Exchanges(old(a[lo..hi]), pred) % WRAP
    ensures evals <= hi - lo + 3
  {
    hide Progress, Partitioned, Counted, Exchanges;
    ghost var was := a[..];
    Start(was, lo, hi, pred);
    CountStart(was, lo, hi, pred);
    var b, e := lo, hi;
    swaps, evals := 0, 1;
    if !pred(a[b]) {
      var found;
      ghost var n;
      e, found, n := LowerChecked(a, b, e, Held(pred), pred);
      evals := evals + n;
      assert was[lo..lo] == [];
      if !found {
        assert a[lo..hi] == was[lo..hi];
        ScansMet(was, was, lo, lo, lo, hi, hi, pred, swaps);
        return lo, swaps, evals;
      }
      assert a[e + 1..hi] == was[e + 1..hi];
      RoundDone(was, was, lo, lo, lo, e, hi, hi, pred, swaps);
      IterSwap(a, b, e);
      swaps := (swaps + 1) % WRAP;
      b := b + 1;
    }
    if b == e {
      ghost var s := a[..];
      assert s[b..b] == [];
      ScansMet(was, s, lo, b, b, e, hi, pred, swaps);
      return b, swaps, evals;
    }
    ghost var more;
    mid, swaps, more := BareCounting(a, lo, b, e, hi, pred, was, swaps);
    evals := evals + more;
  }

  /** Both scans are stopped inside the range in every round. */
  ghost predicate Flanked(s: seq<int>, lo: nat, b: nat, e: nat, hi: nat, pred: int -> bool)
    requires lo <= b <= e <= hi <= |s| && lo < hi
  {
    && b < hi && pred(s[lo]) && !pred(s[hi - 1])
    && (b > lo ==> pred(s[b - 1]))
    && (e < hi ==> b > lo && !pred(s[e]))
  }

  method BareCounting(a: array<int>, lo: nat, b0: nat, e0: nat, hi: nat, pred: int -> bool, ghost was: seq<int>,
                      swaps0: nat)
    returns (mid: nat, swaps: nat, ghost evals: nat)
    requires lo <= b0 <= e0 <= hi <= a.Length == |was| && lo < hi
    requires Progress(was, a[..], lo, b0, e0, hi, pred) && Counted(was, a[..], lo, b0, e0, hi, pred, swaps0)
    requires Flanked(a[..], lo, b0, e0, hi, pred)
    modifies a
    ensures lo <= mid <= hi && Partitioned(was, a[..], lo, mid, hi, pred)
    ensures swaps == Exchanges(was[lo..hi], pred) % WRAP
    ensures evals <= e0 - b0 + 2
  {
    hide Progress, Partitioned, Counted, Exchanges, Flanked, AllSatisfy, NoneSatisfy;
    ghost var s := a[..];
    var b, e := b0, e0;
    swaps, evals := swaps0, 0;
    while true
      invariant b0 <= b <= e <= e0 && a[..] == s && Flanked(s, lo, b, e, hi, pred)
      invariant Progress(was, s, lo, b, e, hi, pred) && Counted(was, s, lo, b, e, hi, pred, swaps)
      invariant evals == (e0 - e) + (b - b0)
      decreases e - b
    {
      ghost var b1, e1, up, down := b, e, 0, 0;
      StopsAbove(s, lo, b, e, hi, pred);
      b, up := RaiseUnchecked(a, b, hi - 1, Held(pred), pred);
      e, down := LowerUnchecked(a, lo, e, Held(pred), pred);
      evals := evals + up + down;
      assert a[b1..b] == s[b1..b] && a[e + 1..e1] == s[e + 1..e1];
      Crossed(s, lo, b1, b, e, e1, hi, pred);
      if e <= b {
        ScansMet(was, s, lo, b1, b, e1, hi, pred, swaps);
        break;
      }
      RoundDone(was, s, lo, b1, b, e, e1, hi, pred, swaps);
      StaysFlanked(s, lo, b1, b, e, e1, hi, pred);
      IterSwap(a, b, e);
      swaps := (swaps + 1) % WRAP;
      s, b := a[..], b + 1;
    }
    mid := b;
  }

  lemma CountStart(s: seq<int>, lo: nat, hi: nat, pred: int -> bool)
    requires lo <= hi <= |s|
    ensures Counted(s, s, lo, lo, hi, hi, pred, 0)
  {
  }

  lemma StopsAbove(s: seq<int>, lo: nat, b: nat, e: nat, hi: nat, pred: int -> bool)
    requires lo <= b <= e <= hi <= |s| && lo < hi && Flanked(s, lo, b, e, hi, pred)
    ensures b <= hi - 1 && !pred(s[hi - 1]) && pred(s[lo]) && lo < e
  {
  }

  /** The scans stop next to each other or with the lower one below the upper one. */
  lemma Crossed(s: seq<int>, lo: nat, b1: nat, b: nat, e: nat, e1: nat, hi: nat, pred: int -> bool)
    requires lo <= b1 <= b < hi <= |s| && lo <= e < e1 <= hi && b1 <= e1 && Flanked(s, lo, b1, e1, hi, pred)
    requires AllSatisfy(s[b1..b], pred) && NoneSatisfy(s[e + 1..e1], pred) && !pred(s[b]) && pred(s[e])
    ensures b <= e + 1
    ensures e <= b ==> NoneSatisfy(s[b..e1], pred)
  {
    forall i | b1 <= i < b ensures pred(s[i]) { assert s[i] == s[b1..b][i - b1]; }
    forall i | e < i < e1 ensures !pred(s[i]) { assert s[i] == s[e + 1..e1][i - e - 1]; }
    assert e1 < hi ==> !pred(s[e1]);
    assert b == lo || pred(s[b - 1]);
  }

  lemma StaysFlanked(s: seq<int>, lo: nat, b1: nat, b: nat, e: nat, e1: nat, hi: nat, pred: int -> bool)
    requires lo <= b1 <= b < e < e1 <= hi <= |s| && Flanked(s, lo, b1, e1, hi, pred)
    requires !pred(s[b]) && pred(s[e])
    ensures Flanked(Swap(s, b, e), lo, b + 1, e, hi, pred)
  {
  }
}
