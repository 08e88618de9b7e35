/** The partition algorithms. All of them exchange the first element that fails the predicate with
    the last one that satisfies it until the two scans meet; they differ in which bounds they check. */
module Partition {
  import opened Ranges

  function Below(p: int): int -> bool { v => v < p }

  function AtLeast(p: int): int -> bool { v => p <= v }

  function AtMost(p: int): int -> bool { v => !(p < v) }

  lemma BelowIsStrict(p: int)
    ensures !Below(p)(p)
  {
  }

  ghost predicate AllSatisfy(s: seq<int>, pred: int -> bool) {
    forall i :: 0 <= i < |s| ==> pred(s[i])
  }

  ghost predicate NoneSatisfy(s: seq<int>, pred: int -> bool) {
    forall i :: 0 <= i < |s| ==> !pred(s[i])
  }

  /** What ISO C++ [alg.partitions] promises of `std::partition`: a permutation with the satisfying
      elements first, and the position where the others start. */
  ghost predicate IsPartition(s: seq<int>, pred: int -> bool, r: (seq<int>, nat)) {
    && |r.0| == |s|
    && r.1 <= |s|
    && multiset(r.0) == multiset(s)
    && AllSatisfy(r.0[..r.1], pred)
    && NoneSatisfy(r.0[r.1..], pred)
  }

  /** A partitioned middle between two parts that are already in place. */
  function Around(low: seq<int>, r: (seq<int>, nat), high: seq<int>): (seq<int>, nat) {
    (low + r.0 + high, |low| + r.1)
  }

  /** The result of exchanging from both ends. */
  function Exchange(s: seq<int>, pred: int -> bool): (r: (seq<int>, nat))
    ensures |r.0| == |s| && r.1 <= |s|
    decreases |s|
  {
    if s == [] then (s, 0)
    else if pred(s[0]) then Around([s[0]], Exchange(s[1..], pred), [])
    else if !pred(s[|s| - 1]) then Around([], Exchange(s[..|s| - 1], pred), [s[|s| - 1]])
    else Around([s[|s| - 1]], Exchange(s[1..|s| - 1], pred), [s[0]])
  }

  /** The number of exchanges made. */
  function Exchanges(s: seq<int>, pred: int -> bool): nat
    decreases |s|
  {
    if s == [] then 0
    else if pred(s[0]) then Exchanges(s[1..], pred)
    else if !pred(s[|s| - 1]) then Exchanges(s[..|s| - 1], pred)
    else 1 + Exchanges(s[1..|s| - 1], pred)
  }

  // ---- the contract ----

  lemma AroundIsPartition(s: seq<int>, low: seq<int>, mid: seq<int>, high: seq<int>,
                          pred: int -> bool, r: (seq<int>, nat))
    requires IsPartition(mid, pred, r)
    requires AllSatisfy(low, pred) && NoneSatisfy(high, pred)
    requires multiset(s) == multiset(low) + multiset(mid) + multiset(high)
    ensures IsPartition(s, pred, Around(low, r, high))
  {
    var q := Around(low, r, high);
    assert q.0[..q.1] == low + r.0[..r.1];
    assert q.0[q.1..] == r.0[r.1..] + high;
    assert multiset(q.0) == multiset(low) + multiset(r.0) + multiset(high);
    SameContentsSameLength(s, q.0);
  }

  lemma EmptyIsPartition(pred: int -> bool)
    ensures IsPartition([], pred, ([], 0))
  {
  }

  lemma LowerGrows(s: seq<int>, pred: int -> bool, r: (seq<int>, nat))
    requires s != [] && pred(s[0]) && IsPartition(s[1..], pred, r)
    ensures IsPartition(s, pred, Around([s[0]], r, []))
  {
    hide IsPartition, Around;
    assert s == [s[0]] + s[1..];
    AroundIsPartition(s, [s[0]], s[1..], [], pred, r);
  }

  lemma UpperGrows(s: seq<int>, pred: int -> bool, r: (seq<int>, nat))
    requires s != [] && !pred(s[|s| - 1]) && IsPartition(s[..|s| - 1], pred, r)
    ensures IsPartition(s, pred, Around([], r, [s[|s| - 1]]))
  {
    hide IsPartition, Around;
    var n := |s| - 1;
    assert s == s[..n] + [s[n]];
    AroundIsPartition(s, [], s[..n], [s[n]], pred, r);
  }

  lemma BothGrow(s: seq<int>, pred: int -> bool, r: (seq<int>, nat))
    requires |s| > 1 && !pred(s[0]) && pred(s[|s| - 1]) && IsPartition(s[1..|s| - 1], pred, r)
    ensures IsPartition(s, pred, Around([s[|s| - 1]], r, [s[0]]))
  {
    hide IsPartition, Around;
    var n := |s| - 1;
    assert s == [s[0]] + s[1..n] + [s[n]];
    AroundIsPartition(s, [s[n]], s[1..n], [s[0]], pred, r);
  }

  lemma {:induction false} ExchangeIsPartition(s: seq<int>, pred: int -> bool)
    ensures IsPartition(s, pred, Exchange(s, pred))
    decreases |s|
  {
    if s == [] {
      EmptyIsPartition(pred);
    } else {
      hide IsPartition, Around;
      var n := |s| - 1;
      if pred(s[0]) {
        ExchangeIsPartition(s[1..], pred);
        LowerGrows(s, pred, Exchange(s[1..], pred));
      } else if !pred(s[n]) {
        ExchangeIsPartition(s[..n], pred);
        UpperGrows(s, pred, Exchange(s[..n], pred));
      } else {
        ExchangeIsPartition(s[1..n], pred);
        BothGrow(s, pred, Exchange(s[1..n], pred));
      }
    }
  }

  /** Any function with the standard's contract may stand for `std::partition`. */
  type StdPartition = f: (seq<int>, int -> bool) -> (seq<int>, nat) |
    forall s: seq<int>, pred: int -> bool :: IsPartition(s, pred, f(s, pred))
    witness ConformingExchange

  function ConformingExchange(s: seq<int>, pred: int -> bool): (r: (seq<int>, nat))
    ensures IsPartition(s, pred, r)
  {
    ExchangeIsPartition(s, pred);
    Exchange(s, pred)
  }

  // ---- counting ----

  function CountFailing(s: seq<int>, pred: int -> bool): nat {
    if s == [] then 0 else (if pred(s[0]) then 0 else 1) + CountFailing(s[1..], pred)
  }

  lemma {:induction false} CountFailingExtremes(s: seq<int>, pred: int -> bool)
    ensures CountFailing(s, pred) <= |s|
    ensures CountFailing(s, pred) == 0 <==> AllSatisfy(s, pred)
    ensures CountFailing(s, pred) == |s| <==> NoneSatisfy(s, pred)
  {
    if s != [] {
      CountFailingExtremes(s[1..], pred);
      assert s == [s[0]] + s[1..];
    }
  }

  lemma {:induction false} CountFailingSplit(s: seq<int>, t: seq<int>, pred: int -> bool)
    ensures CountFailing(s + t, pred) == CountFailing(s, pred) + CountFailing(t, pred)
  {
    if s == [] {
      assert s + t == t;
    } else {
      assert (s + t)[1..] == s[1..] + t;
      CountFailingSplit(s[1..], t, pred);
    }
  }

  lemma {:induction false} CountFailingSameContents(s: seq<int>, t: seq<int>, pred: int -> bool)
    requires multiset(s) == multiset(t)
    ensures CountFailing(s, pred) == CountFailing(t, pred)
    decreases |s|
  {
    if s == [] {
      SameContentsSameLength(s, t);
    } else {
      var k := RemoveFirst(s, t);
      var l, r := t[..k], t[k + 1..];
      CountFailingSameContents(s[1..], l + r, pred);
      CountFailingSplit(l, r, pred);
      assert t == l + [t[k]] + r;
      CountFailingSplit(l + [t[k]], r, pred);
      CountFailingSplit(l, [t[k]], pred);
    }
  }

  /** The failing elements are exactly those from the partition point on. */
  lemma PartitionPoint(s: seq<int>, pred: int -> bool, r: (seq<int>, nat))
    requires IsPartition(s, pred, r)
    ensures CountFailing(s, pred) == |s| - r.1
  {
    CountFailingSameContents(s, r.0, pred);
    assert r.0 == r.0[..r.1] + r.0[r.1..];
    CountFailingSplit(r.0[..r.1], r.0[r.1..], pred);
    CountFailingExtremes(r.0[..r.1], pred);
    CountFailingExtremes(r.0[r.1..], pred);
  }

  /** An exchange happens for each failing element among the positions that end up satisfying. */
  lemma {:induction false} ExchangesCountMisplaced(s: seq<int>, pred: int -> bool)
    ensures Exchanges(s, pred) == CountFailing(s[..Exchange(s, pred).1], pred)
    ensures 2 * Exchanges(s, pred) <= |s|
    decreases |s|
  {
    if s != [] {
      var n, m := |s| - 1, Exchange(s, pred).1;
      if pred(s[0]) {
        ExchangesCountMisplaced(s[1..], pred);
        assert s[..m][1..] == s[1..][..m - 1];
      } else if !pred(s[n]) {
        ExchangesCountMisplaced(s[..n], pred);
        assert s[..m] == s[..n][..m];
      } else {
        ExchangesCountMisplaced(s[1..n], pred);
        assert s[..m][1..] == s[1..n][..m - 1];
      }
    }
  }

  /** No exchange is made exactly when the range was partitioned from the start. */
  lemma {:induction false} NoExchangeIffPartitioned(s: seq<int>, pred: int -> bool)
    ensures Exchanges(s, pred) == 0 <==> IsPartition(s, pred, (s, Exchange(s, pred).1))
  {
    var r := Exchange(s, pred);
    var m := r.1;
    ExchangesCountMisplaced(s, pred);
    ExchangeIsPartition(s, pred);
    PartitionPoint(s, pred, r);
    assert s == s[..m] + s[m..];
    CountFailingSplit(s[..m], s[m..], pred);
    CountFailingExtremes(s[..m], pred);
    CountFailingExtremes(s[m..], pred);
  }

  // ---- loops that work from both ends ----

  lemma AroundAround(outer: seq<int>, low: seq<int>, r: (seq<int>, nat), high: seq<int>, rest: seq<int>)
    ensures Around(outer, Around(low, r, high), rest) == Around(outer + low, r, high + rest)
  {
    assert outer + (low + r.0 + high) + rest == (outer + low) + r.0 + (high + rest);
  }

  /** Advancing the lower scan over a satisfying element leaves the outcome as it was. */
  lemma ScanUp(low: seq<int>, s: seq<int>, high: seq<int>, pred: int -> bool)
    requires s != [] && pred(s[0])
    ensures Around(low, Exchange(s, pred), high) == Around(low + [s[0]], Exchange(s[1..], pred), high)
  {
    AroundAround(low, [s[0]], Exchange(s[1..], pred), [], high);
    assert [] + high == high;
  }

  /** So does lowering the upper scan over a failing one once the lower scan is stopped. */
  lemma ScanDown(low: seq<int>, s: seq<int>, high: seq<int>, pred: int -> bool)
    requires s != [] && !pred(s[0]) && !pred(s[|s| - 1])
    ensures Around(low, Exchange(s, pred), high)
         == Around(low, Exchange(s[..|s| - 1], pred), [s[|s| - 1]] + high)
  {
    AroundAround(low, [], Exchange(s[..|s| - 1], pred), [s[|s| - 1]], high);
    assert low + [] == low;
  }

  /** And exchanging the two elements the scans stopped at. */
  lemma ExchangeEnds(low: seq<int>, s: seq<int>, high: seq<int>, pred: int -> bool)
    requires s != [] && !pred(s[0]) && pred(s[|s| - 1])
    ensures Around(low, Exchange(s, pred), high)
         == Around(low + [s[|s| - 1]], Exchange(s[1..|s| - 1], pred), [s[0]] + high)
  {
    AroundAround(low, [s[|s| - 1]], Exchange(s[1..|s| - 1], pred), [s[0]], high);
  }
}
