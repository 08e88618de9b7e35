/** Sequences of values as the sorting code sees them: order, insertion from the right,
    and inversions. An array range `[begin, end)` is the sequence `a[begin..end]`. */
module Ranges {

  ghost predicate Sorted(s: seq<int>) {
    forall i, j :: 0 <= i < j < |s| ==> s[i] <= s[j]
  }

  /** Every pair in the wrong order lies fewer than `w` positions apart. */
  ghost predicate NearlySorted(s: seq<int>, w: nat) {
    forall i, j :: 0 <= i < j < |s| && s[i] > s[j] ==> j - i < w
  }

  ghost predicate AllBelow(s: seq<int>, p: int) {
    forall i :: 0 <= i < |s| ==> s[i] < p
  }

  ghost predicate AllAtMost(s: seq<int>, p: int) {
    forall i :: 0 <= i < |s| ==> s[i] <= p
  }

  ghost predicate AllAtLeast(s: seq<int>, p: int) {
    forall i :: 0 <= i < |s| ==> s[i] >= p
  }

  ghost predicate SameOutside(was: seq<int>, s: seq<int>, lo: nat, hi: nat)
    requires lo <= hi <= |s|
  {
    |was| == |s| && was[..lo] == s[..lo] && was[hi..] == s[hi..]
  }

  function Swap(s: seq<int>, i: nat, j: nat): (r: seq<int>)
    requires i < |s| && j < |s|
    ensures |r| == |s| && multiset(r) == multiset(s)
  {
    s[i := s[j]][j := s[i]]
  }

  /** Where a value ends up when it walks left past every greater element. */
  function Insert(s: seq<int>, x: int): (r: seq<int>)
    ensures |r| == |s| + 1
  {
    if s == [] || s[|s| - 1] <= x then s + [x] else Insert(s[..|s| - 1], x) + [s[|s| - 1]]
  }

  /** The result of inserting the elements one after the other, left to right. */
  function InsertionSorted(s: seq<int>): (r: seq<int>)
    ensures |r| == |s|
  {
    if s == [] then [] else Insert(InsertionSorted(s[..|s| - 1]), s[|s| - 1])
  }

  /** How many elements of `s` are greater than `x`. */
  function CountGreater(s: seq<int>, x: int): (c: nat)
    ensures c <= |s|
  {
    if s == [] then 0 else CountGreater(s[..|s| - 1], x) + if s[|s| - 1] > x then 1 else 0
  }

  /** The number of pairs in the wrong order. */
  function Inversions(s: seq<int>): nat {
    if s == [] then 0 else Inversions(s[..|s| - 1]) + CountGreater(s[..|s| - 1], s[|s| - 1])
  }

  // ---- insertion ----

  /** A walk that stops at `k` with only greater elements behind it has inserted `x`. */
  lemma {:induction false} InsertAt(s: seq<int>, x: int, k: nat)
    requires k <= |s|
    requires k == 0 || s[k - 1] <= x
    requires forall i :: k <= i < |s| ==> s[i] > x
    ensures Insert(s, x) == s[..k] + [x] + s[k..]
    decreases |s|
  {
    if k < |s| {
      var init := s[..|s| - 1];
      InsertAt(init, x, k);
      assert init[..k] == s[..k];
      assert init[k..] + [s[|s| - 1]] == s[k..];
      assert init[..k] + [x] + init[k..] + [s[|s| - 1]] == s[..k] + [x] + (init[k..] + [s[|s| - 1]]);
    } else {
      assert s[..k] == s && s[k..] == [];
    }
  }

  lemma {:induction false} InsertContents(s: seq<int>, x: int)
    ensures multiset(Insert(s, x)) == multiset(s) + multiset{x}
  {
    if s != [] && s[|s| - 1] > x {
      var init, last := s[..|s| - 1], s[|s| - 1];
      assert s == init + [last];
      InsertContents(init, x);
    }
  }

  lemma {:induction false} InsertKeepsSorted(s: seq<int>, x: int)
    requires Sorted(s)
    ensures Sorted(Insert(s, x))
  {
    if s != [] && s[|s| - 1] > x {
      var init, last := s[..|s| - 1], s[|s| - 1];
      InsertKeepsSorted(init, x);
      InsertContents(init, x);
      var r := Insert(init, x);
      forall i | 0 <= i < |r| ensures r[i] <= last {
        assert r[i] in multiset(r);
        assert r[i] in multiset(init) || r[i] == x;
      }
    }
  }

  lemma {:induction false} InsertionSortSorts(s: seq<int>)
    ensures Sorted(InsertionSorted(s))
    ensures multiset(InsertionSorted(s)) == multiset(s)
  {
    if s != [] {
      var init, last := s[..|s| - 1], s[|s| - 1];
      assert s == init + [last];
      InsertionSortSorts(init);
      InsertContents(InsertionSorted(init), last);
      InsertKeepsSorted(InsertionSorted(init), last);
    }
  }

  lemma SameContentsSameLength(s: seq<int>, t: seq<int>)
    requires multiset(s) == multiset(t)
    ensures |s| == |t|
  {
    assert |multiset(s)| == |s| && |multiset(t)| == |t|;
  }

  /** Where the first element of `s` occurs in a permutation of it. */
  lemma RemoveFirst(s: seq<int>, t: seq<int>) returns (k: nat)
    requires s != [] && multiset(s) == multiset(t)
    ensures k < |t| && t[k] == s[0]
    ensures multiset(s[1..]) == multiset(t[..k] + t[k + 1..])
  {
    var x := s[0];
    assert s == [x] + s[1..];
    assert x in multiset(t);
    k :| 0 <= k < |t| && t[k] == x;
    assert t == t[..k] + [x] + t[k + 1..];
    assert multiset(t) == multiset(t[..k] + t[k + 1..]) + multiset{x};
    assert multiset(s[1..]) == multiset(s) - multiset{x};
    assert multiset(t[..k] + t[k + 1..]) == multiset(t) - multiset{x};
  }

  lemma TailContents(s: seq<int>)
    requires s != []
    ensures multiset(s[1..]) == multiset(s) - multiset{s[0]}
  {
    assert s == [s[0]] + s[1..];
  }

  lemma SameFirst(s: seq<int>, t: seq<int>)
    requires s != [] && t != [] && Sorted(s) && Sorted(t) && multiset(s) == multiset(t)
    ensures s[0] == t[0]
  {
    assert s[0] in multiset(t) && t[0] in multiset(s);
  }

  lemma {:induction false} SortedIsUnique(s: seq<int>, t: seq<int>)
    requires Sorted(s) && Sorted(t) && multiset(s) == multiset(t)
    ensures s == t
    decreases |s|
  {
    SameContentsSameLength(s, t);
    if s != [] {
      SameFirst(s, t);
      TailContents(s);
      TailContents(t);
      SortedIsUnique(s[1..], t[1..]);
      assert s == [s[0]] + s[1..] && t == [t[0]] + t[1..];
    }
  }

  /** Any sorted permutation of `s` is the insertion sort of `s`: for integers a conforming
      library sort has no freedom left. */
  lemma SortedPermutation(s: seq<int>, t: seq<int>)
    requires Sorted(t) && multiset(t) == multiset(s)
    ensures t == InsertionSorted(s)
  {
    InsertionSortSorts(s);
    SortedIsUnique(t, InsertionSorted(s));
  }

  lemma SamePermutation(s: seq<int>, t: seq<int>)
    requires multiset(s) == multiset(t)
    ensures InsertionSorted(s) == InsertionSorted(t)
  {
    InsertionSortSorts(s);
    SortedPermutation(t, InsertionSorted(s));
  }

  lemma Members(s: seq<int>, t: seq<int>)
    requires multiset(s) == multiset(t)
    ensures |s| == |t|
    ensures forall p :: AllBelow(s, p) == AllBelow(t, p)
    ensures forall p :: AllAtLeast(s, p) == AllAtLeast(t, p)
  {
    SameContentsSameLength(s, t);
    forall i | 0 <= i < |s| ensures s[i] in t { assert s[i] in multiset(t); }
    forall i | 0 <= i < |t| ensures t[i] in s { assert t[i] in multiset(s); }
  }

  lemma SortedSides(l: seq<int>, p: int, h: seq<int>)
    requires Sorted(l) && Sorted(h) && AllBelow(l, p) && AllAtLeast(h, p)
    ensures Sorted(l + [p] + h)
  {
  }

  /** Sorting the two sides of a partitioned range sorts the range. */
  lemma SortedAroundPivot(low: seq<int>, p: int, high: seq<int>)
    requires AllBelow(low, p) && AllAtLeast(high, p)
    ensures InsertionSorted(low) + [p] + InsertionSorted(high) == InsertionSorted(low + [p] + high)
  {
    hide InsertionSorted;
    var l, h := InsertionSorted(low), InsertionSorted(high);
    InsertionSortSorts(low);
    InsertionSortSorts(high);
    Members(low, l);
    Members(high, h);
    assert multiset(l + [p] + h) == multiset(low + [p] + high);
    SortedSides(l, p, h);
    SortedPermutation(low + [p] + high, l + [p] + h);
  }

  // ---- nearly sorted ranges ----

  lemma NearlySortedAroundPivot(low: seq<int>, p: int, high: seq<int>, w: nat)
    requires NearlySorted(low, w) && NearlySorted(high, w)
    requires AllAtMost(low, p) && AllAtLeast(high, p)
    ensures NearlySorted(low + [p] + high, w)
  {
    var s := low + [p] + high;
    forall i, j | 0 <= i < j < |s| && s[i] > s[j] ensures j - i < w {
      if j < |low| {
        assert low[i] > low[j];
      } else if i > |low| {
        assert high[i - |low| - 1] > high[j - |low| - 1];
      }
    }
  }

  lemma {:induction false} CountGreaterBound(s: seq<int>, x: int, k: nat)
    requires k <= |s|
    requires forall i :: 0 <= i < k ==> s[i] <= x
    ensures CountGreater(s, x) <= |s| - k
  {
    if |s| > k {
      CountGreaterBound(s[..|s| - 1], x, k);
    } else if s != [] {
      CountGreaterBound(s[..|s| - 1], x, k - 1);
    }
  }

  /** No element has to move `w` positions or more. */
  lemma FewGreater(s: seq<int>, w: nat)
    requires s != [] && NearlySorted(s, w)
    ensures CountGreater(s[..|s| - 1], s[|s| - 1]) <= if w == 0 then 0 else w - 1
  {
    var n, d := |s| - 1, if w == 0 then 0 else w - 1;
    CountGreaterBound(s[..n], s[n], if n < d then 0 else n - d);
  }

  /** On a nearly sorted range the total number of insertion shifts is linear. */
  lemma {:induction false} FewInversions(s: seq<int>, w: nat)
    requires NearlySorted(s, w)
    ensures Inversions(s) <= |s| * (if w == 0 then 0 else w - 1)
  {
    var d := if w == 0 then 0 else w - 1;
    if s != [] {
      var n := |s| - 1;
      FewInversions(s[..n], w);
      FewGreater(s, w);
      assert |s| * d == n * d + d;
    }
  }

  lemma {:induction false} CountGreaterSplit(s: seq<int>, t: seq<int>, x: int)
    ensures CountGreater(s + t, x) == CountGreater(s, x) + CountGreater(t, x)
  {
    if t == [] {
      assert s + t == s;
    } else {
      assert (s + t)[..|s + t| - 1] == s + t[..|t| - 1];
      CountGreaterSplit(s, t[..|t| - 1], x);
    }
  }

  lemma {:induction false} CountGreaterSameContents(s: seq<int>, t: seq<int>, x: int)
    requires multiset(s) == multiset(t)
    ensures CountGreater(s, x) == CountGreater(t, x)
    decreases |s|
  {
    if s == [] {
      SameContentsSameLength(s, t);
    } else {
      var k := RemoveFirst(s, t);
      var l, r := t[..k], t[k + 1..];
      CountGreaterSameContents(s[1..], l + r, x);
      CountGreaterSplit(l, r, x);
      assert t == l + [t[k]] + r && s == [s[0]] + s[1..];
      CountGreaterSplit(l + [t[k]], r, x);
      CountGreaterSplit(l, [t[k]], x);
      CountGreaterSplit([s[0]], s[1..], x);
    }
  }

  /** The walk through a sorted prefix passes exactly the elements that were greater. */
  lemma {:induction false} WalkLength(s: seq<int>, x: int, k: nat)
    requires k <= |s|
    requires forall i :: 0 <= i < k ==> s[i] <= x
    requires forall i :: k <= i < |s| ==> s[i] > x
    ensures CountGreater(s, x) == |s| - k
  {
    CountGreaterBound(s, x, k);
    if |s| > k {
      WalkLength(s[..|s| - 1], x, k);
    }
  }

  lemma InsertionUnfolds(init: seq<int>, x: int)
    ensures InsertionSorted(init + [x]) == Insert(InsertionSorted(init), x)
    ensures Inversions(init + [x]) == Inversions(init) + CountGreater(init, x)
  {
    assert (init + [x])[..|init|] == init;
  }

  /** What one complete walk adds to the result and to the number of shifts. */
  lemma InsertionStep(init: seq<int>, p: seq<int>, x: int, k: nat)
    requires p == InsertionSorted(init)
    requires k <= |p|
    requires k == 0 || p[k - 1] <= x
    requires forall i :: k <= i < |p| ==> p[i] > x
    ensures InsertionSorted(init + [x]) == p[..k] + [x] + p[k..]
    ensures Inversions(init + [x]) == Inversions(init) + |p| - k
  {
    hide InsertionSorted, Inversions, CountGreater, Insert, Sorted;
    InsertAt(p, x, k);
    InsertionSortSorts(init);
    WalkLength(p, x, k);
    CountGreaterSameContents(p, init, x);
    InsertionUnfolds(init, x);
  }

  // ---- inversions are pairs ----

  ghost function PairsOutOfOrder(s: seq<int>): set<(nat, nat)> {
    set i: nat, j: nat | i < j < |s| && s[i] > s[j] :: (i, j)
  }

  ghost function PlacesGreater(s: seq<int>, x: int): set<nat> {
    set i: nat | i < |s| && s[i] > x
  }

  lemma {:induction false} CountGreaterIsPlaces(s: seq<int>, x: int)
    ensures CountGreater(s, x) == |PlacesGreater(s, x)|
  {
    if s != [] {
      var n := |s| - 1;
      CountGreaterIsPlaces(s[..n], x);
      var last := if s[n] > x then {n} else {};
      assert PlacesGreater(s, x) == PlacesGreater(s[..n], x) + last;
      assert n !in PlacesGreater(s[..n], x);
    }
  }

  ghost function PairedWith(places: set<nat>, n: nat): set<(nat, nat)> {
    set i | i in places :: (i, n)
  }

  lemma AsManyPairs(places: set<nat>, n: nat)
    ensures |PairedWith(places, n)| == |places|
  {
    if places != {} {
      var i :| i in places;
      AsManyPairs(places - {i}, n);
      assert PairedWith(places, n) == PairedWith(places - {i}, n) + {(i, n)};
      assert (i, n) !in PairedWith(places - {i}, n);
    }
  }

  lemma LastPairs(s: seq<int>)
    requires s != []
    ensures var n := |s| - 1;
      var more := PairedWith(PlacesGreater(s[..n], s[n]), n);
      PairsOutOfOrder(s) == PairsOutOfOrder(s[..n]) + more && PairsOutOfOrder(s[..n]) !! more
  {
    var n := |s| - 1;
    var init, more := s[..n], PairedWith(PlacesGreater(s[..n], s[n]), n);
    forall i: nat, j: nat ensures (i, j) in PairsOutOfOrder(s) <==> (i, j) in PairsOutOfOrder(init) + more {
      if i < j < n { assert init[i] == s[i] && init[j] == s[j]; }
      if i < n { assert init[i] == s[i]; }
      if j == n && i < n && s[i] > s[n] { assert i in PlacesGreater(init, s[n]); }
    }
  }

  /** `Inversions` counts the pairs of places whose elements are in the wrong order. */
  lemma {:induction false} InversionsArePairs(s: seq<int>)
    ensures Inversions(s) == |PairsOutOfOrder(s)|
  {
    if s != [] {
      var n := |s| - 1;
      InversionsArePairs(s[..n]);
      CountGreaterIsPlaces(s[..n], s[n]);
      AsManyPairs(PlacesGreater(s[..n], s[n]), n);
      LastPairs(s);
    }
  }
}
