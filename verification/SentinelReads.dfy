/** When the loops that check no bounds stay inside the array. Reads are checked here: a run that
    leaves the array has no result. */
module SentinelReads {
  import opened Wrappers
  import opened Ranges
  import opened Partition
  import opened PartitionLoops
  import opened Insertion

  // ---- the sentinel partition ----

  /** `while (pred(*begin)) ++begin;` */
  function RaiseTo(s: seq<int>, b: nat, pred: int -> bool): (r: Option<nat>)
    ensures r.Some? ==> b <= r.value < |s|
    decreases |s| - b
  {
    if b >= |s| then None else if pred(s[b]) then RaiseTo(s, b + 1, pred) else Some(b)
  }

  /** `while (!pred(*--end)) {}` */
  function LowerTo(s: seq<int>, e: nat, pred: int -> bool): (r: Option<nat>)
    requires e <= |s|
    ensures r.Some? ==> r.value < e
  {
    if e == 0 then None else if pred(s[e - 1]) then Some(e - 1) else LowerTo(s, e - 1, pred)
  }

  /** The bare loop. */
  function Bare(s: seq<int>, b: nat, e: nat, pred: int -> bool): (r: Option<(seq<int>, nat)>)
    requires e <= |s|
    ensures r.Some? ==> |r.value.0| == |s| && r.value.1 < |s|
    decreases e
  {
    match RaiseTo(s, b, pred)
    case None => None
    case Some(b') =>
      match LowerTo(s, e, pred)
      case None => None
      case Some(e') => if e' <= b' then Some((s, b')) else Bare(Swap(s, b', e'), b' + 1, e', pred)
  }

  /** The whole sentinel partition of the first `|s| - 1` elements; the last one is the element the
      end of the range points to. */
  function SentinelRun(s: seq<int>, pred: int -> bool): (r: Option<(seq<int>, nat)>)
    requires s != []
    ensures r.Some? ==> |r.value.0| == |s| && r.value.1 < |s|
  {
    var n := |s| - 1;
    if n > 0 && !pred(s[0]) then
      match LowerTo(s, n, pred)
      case None => Some((s, 0))
      case Some(e) => Bare(Swap(s, 0, e), 1, e, pred)
    else Bare(s, 0, n, pred)
  }

  lemma {:induction false} RaiseStops(s: seq<int>, b: nat, pred: int -> bool)
    requires b <= |s|
    ensures RaiseTo(s, b, pred).None? <==> forall i :: b <= i < |s| ==> pred(s[i])
    ensures RaiseTo(s, b, pred).Some? ==>
      var k := RaiseTo(s, b, pred).value; !pred(s[k]) && forall i :: b <= i < k ==> pred(s[i])
    decreases |s| - b
  {
    if b < |s| && pred(s[b]) {
      RaiseStops(s, b + 1, pred);
    }
  }

  lemma {:induction false} LowerStops(s: seq<int>, e: nat, pred: int -> bool)
    requires e <= |s|
    ensures LowerTo(s, e, pred).None? <==> forall i :: 0 <= i < e ==> !pred(s[i])
    ensures LowerTo(s, e, pred).Some? ==>
      var k := LowerTo(s, e, pred).value; pred(s[k]) && forall i :: k < i < e ==> !pred(s[i])
  {
    if e > 0 && !pred(s[e - 1]) {
      LowerStops(s, e - 1, pred);
    }
  }

  /** A satisfying element below and a failing one above stop both scans next to each other. */
  lemma ScansStop(s: seq<int>, b: nat, e: nat, pred: int -> bool) returns (b': nat, e': nat)
    requires b <= e < |s| && 1 < |s| && pred(s[0])
    requires if e == |s| - 1 then b == 0 && !AllSatisfy(s, pred) else 0 < b && !pred(s[e])
    requires e < |s| - 1 ==> pred(s[b - 1])
    ensures RaiseTo(s, b, pred) == Some(b') && LowerTo(s, e, pred) == Some(e')
    ensures b <= b' <= e && b' <= e' + 1 <= e
    ensures !pred(s[b']) && pred(s[e'])
    ensures AllSatisfy(s[b..b'], pred) && NoneSatisfy(s[e' + 1..e], pred)
  {
    RaiseStops(s, b, pred);
    LowerStops(s, e, pred);
    b', e' := RaiseTo(s, b, pred).value, LowerTo(s, e, pred).value;
    assert b' == 0 || pred(s[b' - 1]);
  }

  lemma BareStep(s: seq<int>, b: nat, b': nat, e': nat, e: nat, pred: int -> bool)
    requires e <= |s| && RaiseTo(s, b, pred) == Some(b') && LowerTo(s, e, pred) == Some(e')
    ensures e' < e && b' < |s|
    ensures Bare(s, b, e, pred) == if e' <= b' then Some((s, b')) else Bare(Swap(s, b', e'), b' + 1, e', pred)
  {
    hide RaiseTo, LowerTo, Swap;
  }

  lemma SwapBetween(s: seq<int>, b: nat, e: nat)
    requires b < e < |s|
    ensures var t := Swap(s, b, e); t[b] == s[e] && t[e] == s[b] && (0 < b ==> t[0] == s[0])
  {
  }

  /** Between the two scans the loop does what the checked partition does. */
  lemma {:induction false} BareIsExchange(was: seq<int>, s: seq<int>, b: nat, e: nat, pred: int -> bool)
    requires b <= e < |s| && 1 < |s| && pred(s[0])
    requires |was| == |s| && Progress(was, s, 0, b, e, |s| - 1, pred)
    requires if e == |s| - 1 then b == 0 && !AllSatisfy(s, pred) else 0 < b && !pred(s[e])
    requires e < |s| - 1 ==> pred(s[b - 1])
    ensures MatchesChecked(was, Bare(s, b, e, pred), pred)
    decreases e
  {
    hide Progress, Partitioned, AllSatisfy, NoneSatisfy, RaiseTo, LowerTo, Bare, Swap;
    var n := |s| - 1;
    var b', e' := ScansStop(s, b, e, pred);
    BareStep(s, b, b', e', e, pred);
    UpTo(was, s, 0, b, b', e, n, pred);
    DownTo(was, s, 0, b', e' + 1, e, n, pred);
    if e' <= b' {
      Finish(was, s, 0, b', n, pred);
    } else {
      Exchanged(was, s, 0, b', e', n, pred);
      SwapBetween(s, b', e');
      BareIsExchange(was, Swap(s, b', e'), b' + 1, e', pred);
    }
  }

  /** The run stayed inside the array and left what the checked partition of all but the last
      element of `was` leaves. */
  ghost predicate MatchesChecked(was: seq<int>, r: Option<(seq<int>, nat)>, pred: int -> bool) {
    && r.Some?
    && |r.value.0| == |was| > 0
    && r.value.1 <= |was| - 1
    && Partitioned(was, r.value.0, 0, r.value.1, |was| - 1, pred)
  }

  lemma FirstFails(s: seq<int>, pred: int -> bool)
    requires |s| > 1 && !pred(s[0])
    ensures MatchesChecked(s, SentinelRun(s, pred), pred)
  {
    hide Progress, Partitioned, RaiseTo, LowerTo, Bare;
    var n := |s| - 1;
    LowerStops(s, n, pred);
    Start(s, 0, n, pred);
    if LowerTo(s, n, pred).None? {
      DownTo(s, s, 0, 0, 0, n, n, pred);
      Finish(s, s, 0, 0, n, pred);
    } else {
      var e := LowerTo(s, n, pred).value;
      DownTo(s, s, 0, 0, e + 1, n, n, pred);
      Exchanged(s, s, 0, 0, e, n, pred);
      BareIsExchange(s, Swap(s, 0, e), 1, e, pred);
    }
  }

  /** The sentinel partition of a range reads nothing but the range and the element behind it
      exactly when the range is not empty and one of those elements fails the predicate; and then
      it leaves the same arrangement and split point as the partition that checks every bound. */
  lemma SentinelRunSafeIff(s: seq<int>, pred: int -> bool)
    requires s != []
    ensures SentinelRun(s, pred).Some? <==> |s| > 1 && !AllSatisfy(s, pred)
    ensures SentinelRun(s, pred).Some? ==> MatchesChecked(s, SentinelRun(s, pred), pred)
  {
    hide Progress, Partitioned;
    var n := |s| - 1;
    if n == 0 {
      LowerStops(s, 0, pred);
    } else if !pred(s[0]) {
      FirstFails(s, pred);
    } else if AllSatisfy(s, pred) {
      RaiseStops(s, 0, pred);
    } else {
      Start(s, 0, n, pred);
      BareIsExchange(s, s, 0, n, pred);
    }
  }

  // ---- the unguarded insertion pass ----

  /** Where a walk through the sorted prefix `p` that never looks for its start comes to rest. */
  function RestsAt(p: seq<int>, x: int): (r: Option<nat>)
    ensures r.Some? ==> r.value <= |p|
  {
    if p == [] then None else if p[|p| - 1] <= x then Some(|p|) else RestsAt(p[..|p| - 1], x)
  }

  /** The unguarded pass over `rest` behind the sorted prefix `p`. */
  function UnguardedRun(p: seq<int>, rest: seq<int>): Option<seq<int>>
    decreases |rest|
  {
    if rest == [] then Some(p)
    else match RestsAt(p, rest[0])
      case None => None
      case Some(k) => UnguardedRun(p[..k] + [rest[0]] + p[k..], rest[1..])
  }

  lemma {:induction false} WalkRests(p: seq<int>, x: int)
    ensures RestsAt(p, x).Some? <==> exists i :: 0 <= i < |p| && p[i] <= x
    ensures RestsAt(p, x).Some? ==>
      var k := RestsAt(p, x).value; p[..k] + [x] + p[k..] == Insert(p, x)
  {
    if p != [] && p[|p| - 1] > x {
      var init := p[..|p| - 1];
      WalkRests(init, x);
      if RestsAt(init, x).Some? {
        var k := RestsAt(init, x).value;
        assert p[..k] == init[..k] && p[k..] == init[k..] + [p[|p| - 1]];
        assert p[..k] + [x] + p[k..] == (init[..k] + [x] + init[k..]) + [p[|p| - 1]];
      }
      assert forall i :: 0 <= i < |init| ==> init[i] == p[i];
    } else if p != [] {
      assert p[..|p|] + [x] + p[|p|..] == p + [x];
    }
  }

  lemma SameFloor(s: seq<int>, m: nat, p: seq<int>, x: int)
    requires m <= |s| && multiset(p) == multiset(s[..m])
    ensures HasFloor(s, m, x) <==> exists i :: 0 <= i < |p| && p[i] <= x
  {
    var t := s[..m];
    if i :| 0 <= i < m && s[i] <= x {
      assert t[i] in multiset(p);
    }
    if i :| 0 <= i < |p| && p[i] <= x {
      assert p[i] in multiset(t);
    }
  }

  lemma RunStep(s: seq<int>, m: nat, p: seq<int>)
    requires m < |s|
    ensures UnguardedRun(p, s[m..])
      == if RestsAt(p, s[m]).None? then None else UnguardedRun(Insert(p, s[m]), s[m + 1..])
  {
    hide Insert, RestsAt;
    WalkRests(p, s[m]);
    assert s[m..][1..] == s[m + 1..];
  }

  lemma SortedStep(s: seq<int>, m: nat)
    requires m < |s|
    ensures InsertionSorted(s[..m + 1]) == Insert(InsertionSorted(s[..m]), s[m])
  {
    hide Insert;
    assert s[..m + 1][..m] == s[..m];
  }

  /** The unguarded pass that starts at `m` stays inside the range exactly when every element from
      `m` on has one in front of `m` that is not greater; and then it sorts. */
  lemma {:induction false} UnguardedRunSafeIff(s: seq<int>, m: nat)
    requires m <= |s|
    ensures UnguardedRun(InsertionSorted(s[..m]), s[m..])
      == if FloorInFront(s, m) then Some(InsertionSorted(s)) else None
    decreases |s| - m
  {
    var p := InsertionSorted(s[..m]);
    if m == |s| {
      assert s[..m] == s && s[m..] == [];
    } else {
      InsertionSortSorts(s[..m]);
      hide InsertionSorted, UnguardedRun, RestsAt, FloorInFront, HasFloor;
      RunStep(s, m, p);
      SortedStep(s, m);
      UnguardedRunSafeIff(s, m + 1);
      FloorMoves(s, m);
      SameFloor(s, m, p, s[m]);
      WalkRests(p, s[m]);
    }
  }

  lemma FloorMoves(s: seq<int>, m: nat)
    requires m < |s|
    ensures FloorInFront(s, m) <==> FloorInFront(s, m + 1) && HasFloor(s, m, s[m])
  {
    forall k | m <= k < |s| && HasFloor(s, m, s[k]) ensures HasFloor(s, m + 1, s[k]) {
    }
    if FloorInFront(s, m + 1) && HasFloor(s, m, s[m]) {
      var j :| 0 <= j < m && s[j] <= s[m];
      forall k | m <= k < |s| ensures HasFloor(s, m, s[k]) {
        if k > m {
          assert HasFloor(s, m + 1, s[k]);
          var i :| 0 <= i < m + 1 && s[i] <= s[k];
          assert i < m || s[j] <= s[k];
        }
      }
    }
  }
}
