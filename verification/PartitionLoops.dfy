/** The partition loops on an array range `[lo, hi)`. Each is proved to leave exactly the
    arrangement and the split point of `Exchange`, so they all compute the same thing. */
module PartitionLoops {
  import opened Ranges
  import opened Partition
  import opened Slices

  /** The predicate a loop is handed: one that holds the pivot's value, or one that looks the pivot up
      where it lies whenever it is asked. */
  datatype Test = Held(pred: int -> bool) | Looked(slot: nat, around: int -> int -> bool)
  {
    function In(a: array<int>): int -> bool
      requires Looked? ==> slot < a.Length
      reads a
    {
      match this
      case Held(pred) => pred
      case Looked(slot, around) => around(a[slot])
    }
  }

  /** Asked now, the test answers as `pred` does. */
  ghost predicate Says(test: Test, a: array<int>, pred: int -> bool)
    reads a
  {
    (test.Looked? ==> test.slot < a.Length) && test.In(a) == pred
  }

  /** It does so whatever happens inside `[lo, hi)`. */
  ghost predicate Stands(test: Test, s: seq<int>, lo: nat, hi: nat, pred: int -> bool) {
    match test
    case Held(held) => held == pred
    case Looked(slot, around) => slot < |s| && !(lo <= slot < hi) && around(s[slot]) == pred
  }

  /** Both forms of a comparison with the pivot behind the range. */
  lemma PivotStands(s: seq<int>, lo: nat, hi: nat, around: int -> int -> bool)
    requires lo < hi <= |s|
    ensures Stands(Held(around(s[hi - 1])), s, lo, hi - 1, around(s[hi - 1]))
    ensures Stands(Looked(hi - 1, around), s, lo, hi - 1, around(s[hi - 1]))
  {
  }

  lemma StillSays(test: Test, was: seq<int>, a: array<int>, lo: nat, hi: nat, pred: int -> bool)
    requires lo <= hi <= a.Length && Stands(test, was, lo, hi, pred) && SameOutside(was, a[..], lo, hi)
    ensures Says(test, a, pred)
  {
    if test.Looked? {
      var k := test.slot;
      assert k < lo ==> was[k] == was[..lo][k] == a[..lo][k];
      assert k >= hi ==> was[k] == was[hi..][k - hi] == a[hi..][k - hi];
    }
  }

  lemma ProgressSays(test: Test, was: seq<int>, a: array<int>, lo: nat, b: nat, e: nat, hi: nat, pred: int -> bool)
    requires lo <= b <= e <= hi <= a.Length
    requires Stands(test, was, lo, hi, pred) && Progress(was, a[..], lo, b, e, hi, pred)
    ensures Says(test, a, pred)
  {
    hide Stands, Says, Exchange, SameOutside;
    StillSays(test, was, a, lo, hi, pred);
  }

  /** `std::find_if(begin, end, [](v){ return !pred(v); })`. */
  method FindIfNot(a: array<int>, b: nat, e: nat, test: Test, ghost pred: int -> bool) returns (k: nat)
    requires b <= e <= a.Length && Says(test, a, pred)
    ensures b <= k <= e
    ensures AllSatisfy(a[b..k], pred)
    ensures k < e ==> !pred(a[k])
  {
    k := b;
    while k != e && test.In(a)(a[k])
      invariant b <= k <= e
      invariant AllSatisfy(a[b..k], pred)
      decreases e - k
    {
      k := k + 1;
    }
  }

  /** `std::find_if` over the reversed range, turned back into a forward position. */
  method FindIfReverse(a: array<int>, b: nat, e: nat, test: Test, ghost pred: int -> bool) returns (k: nat)
    requires b <= e <= a.Length && Says(test, a, pred)
    ensures b <= k <= e
    ensures NoneSatisfy(a[k..e], pred)
    ensures k > b ==> pred(a[k - 1])
  {
    k := e;
    while k != b && !test.In(a)(a[k - 1])
      invariant b <= k <= e
      invariant NoneSatisfy(a[k..e], pred)
      decreases k - b
    {
      k := k - 1;
    }
  }

  lemma StandardIs(f: StdPartition, s: seq<int>, pred: int -> bool)
    ensures IsPartition(s, pred, f(s, pred))
    ensures |f(s, pred).0| == |s| && f(s, pred).1 <= |s|
  {
  }

  method Overwrite(a: array<int>, lo: nat, hi: nat, r: seq<int>)
    requires lo <= hi <= a.Length && |r| == hi - lo
    modifies a
    ensures SameOutside(old(a[..]), a[..], lo, hi) && a[lo..hi] == r
  {
    ghost var was := a[..];
    forall i | lo <= i < hi { a[i] := r[i - lo]; }
    assert a[..lo] == was[..lo] && a[hi..] == was[hi..];
  }

  /** `std::partition`, by any function with its contract. */
  method Standard(a: array<int>, lo: nat, hi: nat, test: Test, f: StdPartition, ghost pred: int -> bool)
    returns (mid: nat)
    requires lo <= hi <= a.Length && Stands(test, a[..], lo, hi, pred)
    modifies a
    ensures lo <= mid <= hi && SameOutside(old(a[..]), a[..], lo, hi)
    ensures (a[lo..hi], mid - lo) == f(old(a[lo..hi]), pred)
  {
    hide *;
    SameOutsideItself(a[..], lo, hi);
    StillSays(test, a[..], a, lo, hi, pred);
    SaysIn(test, a, pred);
    StandardIs(f, a[lo..hi], pred);
    var r := f(a[lo..hi], test.In(a));
    Overwrite(a, lo, hi, r.0);
    mid := lo + r.1;
  }

  lemma SaysIn(test: Test, a: array<int>, pred: int -> bool)
    requires Says(test, a, pred)
    ensures (test.Looked? ==> test.slot < a.Length) && test.In(a) == pred
  {
  }

  /** The range `[lo, hi)` of `a` is split at `b` and `e` into a finished low part, a part still to
      be partitioned and a finished high part; what is left to do leads to the arrangement that
      partitioning the original array `was` asks for, and nothing changed outside the range. */
  ghost predicate Progress(was: seq<int>, a: seq<int>, lo: nat, b: nat, e: nat, hi: nat, pred: int -> bool)
    requires lo <= b <= e <= hi <= |a|
  {
    && SameOutside(was, a, lo, hi)
    && Around(a[lo..b], Exchange(a[b..e], pred), a[e..hi]) == Exchange(was[lo..hi], pred)
  }

  lemma Start(a: seq<int>, lo: nat, hi: nat, pred: int -> bool)
    requires lo <= hi <= |a|
    ensures Progress(a, a, lo, lo, hi, hi, pred)
  {
    var r := Exchange(a[lo..hi], pred);
    assert a[lo..lo] + r.0 + a[hi..hi] == r.0;
  }

  /** The range was replaced by its partitioned arrangement, split at `mid`. */
  ghost predicate Partitioned(was: seq<int>, a: seq<int>, lo: nat, mid: nat, hi: nat, pred: int -> bool)
    requires lo <= mid <= hi <= |a|
  {
    && SameOutside(was, a, lo, hi)
    && (a[lo..hi], mid - lo) == Exchange(was[lo..hi], pred)
  }

  lemma Finish(was: seq<int>, a: seq<int>, lo: nat, b: nat, hi: nat, pred: int -> bool)
    requires lo <= b <= hi <= |a|
    requires Progress(was, a, lo, b, b, hi, pred)
    ensures Partitioned(was, a, lo, b, hi, pred)
  {
    assert a[lo..b] + [] + a[b..hi] == a[lo..hi];
  }

  lemma Up(was: seq<int>, a: seq<int>, lo: nat, b: nat, e: nat, hi: nat, pred: int -> bool)
    requires lo <= b < e <= hi <= |a|
    requires Progress(was, a, lo, b, e, hi, pred) && pred(a[b])
    ensures Progress(was, a, lo, b + 1, e, hi, pred)
  {
    ScanUp(a[lo..b], a[b..e], a[e..hi], pred);
    assert a[lo..b] + [a[b]] == a[lo..b + 1] && a[b..e][1..] == a[b + 1..e];
  }

  lemma Down(was: seq<int>, a: seq<int>, lo: nat, b: nat, e: nat, hi: nat, pred: int -> bool)
    requires lo <= b < e <= hi <= |a|
    requires Progress(was, a, lo, b, e, hi, pred) && !pred(a[b]) && !pred(a[e - 1])
    ensures Progress(was, a, lo, b, e - 1, hi, pred)
  {
    ScanDown(a[lo..b], a[b..e], a[e..hi], pred);
    assert [a[e - 1]] + a[e..hi] == a[e - 1..hi] && a[b..e][..|a[b..e]| - 1] == a[b..e - 1];
  }

  lemma Inner(a: seq<int>, b: nat, e: nat)
    requires b < e < |a|
    ensures a[b..e + 1][1..|a[b..e + 1]| - 1] == a[b + 1..e]
  {
    var s := a[b..e + 1];
    var t := s[1..|s| - 1];
    assert |t| == e - b - 1;
    forall k | 0 <= k < |t| ensures t[k] == a[b + 1 + k] {
      assert t[k] == s[k + 1];
    }
  }

  lemma Exchanged(was: seq<int>, a: seq<int>, lo: nat, b: nat, e: nat, hi: nat, pred: int -> bool)
    requires lo <= b < e < hi <= |a|
    requires Progress(was, a, lo, b, e + 1, hi, pred) && !pred(a[b]) && pred(a[e])
    ensures Progress(was, Swap(a, b, e), lo, b + 1, e, hi, pred)
  {
    var s, t := a[b..e + 1], Swap(a, b, e);
    ExchangeEnds(a[lo..b], s, a[e + 1..hi], pred);
    assert t[lo..b + 1] == a[lo..b] + [s[|s| - 1]];
    assert t[b + 1..e] == a[b + 1..e];
    Inner(a, b, e);
    assert t[e..hi] == [s[0]] + a[e + 1..hi];
    assert t[..lo] == a[..lo] && t[hi..] == a[hi..];
  }

  lemma {:induction false} UpTo(was: seq<int>, a: seq<int>, lo: nat, b: nat, k: nat, e: nat, hi: nat,
                                pred: int -> bool)
    requires lo <= b <= k <= e <= hi <= |a|
    requires Progress(was, a, lo, b, e, hi, pred) && AllSatisfy(a[b..k], pred)
    ensures Progress(was, a, lo, k, e, hi, pred)
    decreases k - b
  {
    if b < k {
      assert a[b] == a[b..k][0] && a[b + 1..k] == a[b..k][1..];
      Up(was, a, lo, b, e, hi, pred);
      UpTo(was, a, lo, b + 1, k, e, hi, pred);
    }
  }

  lemma {:induction false} DownTo(was: seq<int>, a: seq<int>, lo: nat, b: nat, k: nat, e: nat, hi: nat,
                                  pred: int -> bool)
    requires lo <= b <= k <= e <= hi <= |a|
    requires Progress(was, a, lo, b, e, hi, pred) && NoneSatisfy(a[k..e], pred)
    requires b < e ==> !pred(a[b])
    ensures Progress(was, a, lo, b, k, hi, pred)
    decreases e - k
  {
    if k < e {
      assert a[e - 1] == a[k..e][e - 1 - k] && a[k..e - 1] == a[k..e][..e - 1 - k];
      Down(was, a, lo, b, e, hi, pred);
      DownTo(was, a, lo, b, k, e - 1, hi, pred);
    }
  }

  /** `std::iter_swap`. */
  method IterSwap(a: array<int>, i: nat, j: nat)
    requires i < a.Length && j < a.Length
    modifies a
    ensures a[..] == Swap(old(a[..]), i, j)
  {
    a[i], a[j] := a[j], a[i];
  }

  /** The checked downward scan: lowers `end` at least once unless the range is empty, and stops on
      a satisfying element or where the scans meet. The scans count how often they ask. */
  method LowerChecked(a: array<int>, b: nat, e0: nat, test: Test, ghost pred: int -> bool)
    returns (e: nat, found: bool, ghost evals: nat)
    requires b <= e0 <= a.Length && Says(test, a, pred)
    ensures b <= e <= e0
    ensures found ==> e < e0 && pred(a[e]) && NoneSatisfy(a[e + 1..e0], pred)
    ensures !found ==> e == b && NoneSatisfy(a[b..e0], pred)
    ensures evals == e0 - e
  {
    e, found, evals := e0, false, 0;
    while b != e
      invariant b <= e <= e0 && evals == e0 - e
      invariant NoneSatisfy(a[e..e0], pred)
      decreases e - b
    {
      e, evals := e - 1, evals + 1;
      if test.In(a)(a[e]) { return e, true, evals; }
    }
  }

  /** The unchecked upward scan: some element up to `stop` fails. */
  method RaiseUnchecked(a: array<int>, b0: nat, ghost stop: nat, test: Test, ghost pred: int -> bool)
    returns (b: nat, ghost evals: nat)
    requires b0 <= stop < a.Length && Says(test, a, pred)
    requires exists i :: b0 <= i <= stop && !pred(a[i])
    ensures b0 <= b <= stop && !pred(a[b]) && AllSatisfy(a[b0..b], pred)
    ensures evals == b - b0 + 1
  {
    b, evals := b0, 1;
    while test.In(a)(a[b])
      invariant b0 <= b <= stop && evals == b - b0 + 1
      invariant AllSatisfy(a[b0..b], pred)
      invariant exists i :: b <= i <= stop && !pred(a[i])
      decreases stop - b
    {
      b, evals := b + 1, evals + 1;
    }
  }

  /** The unchecked downward scan: the element at `stop`, below the range, satisfies. */
  method LowerUnchecked(a: array<int>, ghost stop: nat, e0: nat, test: Test, ghost pred: int -> bool)
    returns (e: nat, ghost evals: nat)
    requires stop < e0 <= a.Length && Says(test, a, pred) && pred(a[stop])
    ensures stop <= e < e0 && pred(a[e]) && NoneSatisfy(a[e + 1..e0], pred)
    ensures evals == e0 - e
  {
    e, evals := e0 - 1, 1;
    while !test.In(a)(a[e])
      invariant stop <= e < e0 && evals == e0 - e
      invariant NoneSatisfy(a[e + 1..e0], pred)
      decreases e - stop
    {
      e, evals := e - 1, evals + 1;
    }
  }

  /** Two searches and an exchange per round. */
  method Simple(a: array<int>, lo: nat, hi: nat, test: Test, ghost pred: int -> bool) returns (mid: nat)
    requires Stands(test, a[..], lo, hi, pred)
    requires lo <= hi <= a.Length
    modifies a
    ensures lo <= mid <= hi && Partitioned(old(a[..]), a[..], lo, mid, hi, pred)
  {
    hide Progress, Partitioned, Stands, Says;
    ghost var was, s := a[..], a[..];
    Start(s, lo, hi, pred);
    var b, e := lo, hi;
    while true
      invariant lo <= b <= e <= hi && a[..] == s && Progress(was, s, lo, b, e, hi, pred)
      decreases e - b
    {
      ProgressSays(test, was, a, lo, b, e, hi, pred);
      var k := FindIfNot(a, b, e, test, pred);
      assert a[b..k] == s[b..k];
      UpTo(was, s, lo, b, k, e, hi, pred);
      b := k;
      k := FindIfReverse(a, b, e, test, pred);
      assert a[k..e] == s[k..e];
      DownTo(was, s, lo, b, k, e, hi, pred);
      e := k;
      if b == e { break; }
      e := e - 1;
      if b == e { break; }
      Exchanged(was, s, lo, b, e, hi, pred);
      IterSwap(a, b, e);
      s, b := a[..], b + 1;
    }
    Finish(was, s, lo, b, hi, pred);
    mid := b;
  }

  /** The hand-written loop that compares the two positions before every read. */
  method Manual(a: array<int>, lo: nat, hi: nat, test: Test, ghost pred: int -> bool) returns (mid: nat)
    requires Stands(test, a[..], lo, hi, pred)
    requires lo <= hi <= a.Length
    modifies a
    ensures lo <= mid <= hi && Partitioned(old(a[..]), a[..], lo, mid, hi, pred)
  {
    hide Progress, Partitioned, Stands, Says;
    ghost var was, s := a[..], a[..];
    Start(s, lo, hi, pred);
    var b, e := lo, hi;
    while true
      invariant lo <= b <= e <= hi && a[..] == s && Progress(was, s, lo, b, e, hi, pred)
      decreases e - b
    {
      ProgressSays(test, was, a, lo, b, e, hi, pred);
      var k := FindIfNot(a, b, e, test, pred);
      assert a[b..k] == s[b..k];
      UpTo(was, s, lo, b, k, e, hi, pred);
      b := k;
      ghost var e0, n := e, 0;
      var found;
      e, found, n := LowerChecked(a, b, e, test, pred);
      if !found {
        assert a[b..e0] == s[b..e0];
        DownTo(was, s, lo, b, b, e0, hi, pred);
        break;
      }
      assert a[e + 1..e0] == s[e + 1..e0];
      DownTo(was, s, lo, b, e + 1, e0, hi, pred);
      Exchanged(was, s, lo, b, e, hi, pred);
      IterSwap(a, b, e);
      s, b := a[..], b + 1;
    }
    Finish(was, s, lo, b, hi, pred);
    mid := b;
  }

  /** The loop that checks no bounds once the first exchange has planted an element on each side.
      It may read the element at `hi`, one past the range. */
  method Sentinel(a: array<int>, lo: nat, hi: nat, test: Test, ghost pred: int -> bool) returns (mid: nat)
    requires Stands(test, a[..], lo, hi, pred)
    requires lo < hi < a.Length
    requires exists i :: lo <= i <= hi && !pred(a[i])
    modifies a
    ensures lo <= mid <= hi && Partitioned(old(a[..]), a[..], lo, mid, hi, pred)
  {
    hide Progress, Partitioned, Stands, Says;
    ghost var was, s := a[..], a[..];
    Start(s, lo, hi, pred);
    var b, e := lo, hi;
    ProgressSays(test, was, a, lo, b, e, hi, pred);
    SaysIn(test, a, pred);
    if b != e && !test.In(a)(a[b]) {
      var found;
      ghost var n;
      e, found, n := LowerChecked(a, b, e, test, pred);
      if !found {
        assert a[lo..hi] == s[lo..hi];
        DownTo(was, s, lo, b, b, hi, hi, pred);
        Finish(was, s, lo, b, hi, pred);
        return b;
      }
      assert a[e + 1..hi] == s[e + 1..hi];
      DownTo(was, s, lo, b, e + 1, hi, hi, pred);
      Exchanged(was, s, lo, b, e, hi, pred);
      IterSwap(a, b, e);
      s, b := a[..], b + 1;
    }
    mid := Unguarded(a, lo, b, e, hi, test, pred, was);
  }

  lemma NoneBetween(s: seq<int>, b: nat, e: nat, e1: nat, pred: int -> bool)
    requires e <= b <= e1 <= |s| && e < e1 && NoneSatisfy(s[e + 1..e1], pred) && (b < |s| ==> !pred(s[b]))
    ensures NoneSatisfy(s[b..e1], pred)
  {
    forall i | b <= i < e1 ensures !pred(s[i]) {
      if i > e { assert s[e + 1..e1][i - e - 1] == s[i]; }
    }
  }

  /** The bare loop of `Sentinel`. Either nothing was exchanged yet and the first element satisfies,
      or the last exchange left a satisfying element below `b0` and a failing one at `e0`. */
  method Unguarded(a: array<int>, lo: nat, b0: nat, e0: nat, hi: nat, test: Test, ghost pred: int -> bool,
                   ghost was: seq<int>)
    returns (mid: nat)
    requires Stands(test, was, lo, hi, pred)
    requires lo <= b0 <= e0 <= hi < a.Length && Progress(was, a[..], lo, b0, e0, hi, pred)
    requires pred(a[lo])
    requires if e0 == hi then b0 == lo && exists i :: lo <= i <= hi && !pred(a[i]) else lo < b0 && !pred(a[e0])
    modifies a
    ensures lo <= mid <= hi && Partitioned(was, a[..], lo, mid, hi, pred)
  {
    hide Progress, Partitioned, Stands, Says, AllSatisfy, NoneSatisfy, Exchange;
    ghost var s := a[..];
    var b, e := b0, e0;
    while true
      invariant lo <= b <= e <= hi && a[..] == s && Progress(was, s, lo, b, e, hi, pred)
      invariant pred(s[lo])
      invariant if e == hi then b == lo && exists i :: lo <= i <= hi && !pred(s[i]) else lo < b && !pred(s[e])
      decreases e - b
    {
      ghost var b1, e1, n := b, e, 0;
      ProgressSays(test, was, a, lo, b, e, hi, pred);
      b, n := RaiseUnchecked(a, b, e, test, pred);
      assert a[b1..b] == s[b1..b];
      UpTo(was, s, lo, b1, b, e, hi, pred);
      e, n := LowerUnchecked(a, lo, e, test, pred);
      if e <= b {
        NoneBetween(s, b, e, e1, pred);
        DownTo(was, s, lo, b, b, e1, hi, pred);
        break;
      }
      assert a[e + 1..e1] == s[e + 1..e1];
      DownTo(was, s, lo, b, e + 1, e1, hi, pred);
      Exchanged(was, s, lo, b, e, hi, pred);
      IterSwap(a, b, e);
      s, b := a[..], b + 1;
    }
    Finish(was, s, lo, b, hi, pred);
    mid := b;
  }
}
