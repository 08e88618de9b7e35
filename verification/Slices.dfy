/** Ranges inside arrays: what working on one range leaves alone elsewhere. */
module Slices {
  import opened Ranges

  lemma OneMore(was: seq<int>, a: seq<int>, lo: nat, hi: nat)
    requires lo < hi <= |a| && SameOutside(was, a, lo, hi - 1)
    ensures SameOutside(was, a, lo, hi) && was[hi - 1] == a[hi - 1]
  {
    var k := hi - 1;
    assert was[k] == was[k..][0] && a[k] == a[k..][0];
    assert was[hi..] == was[k..][1..] && a[hi..] == a[k..][1..];
  }

  lemma SameOutsideTwice(a: seq<int>, b: seq<int>, c: seq<int>, lo: nat, hi: nat)
    requires lo <= hi <= |b| && |b| == |c|
    requires SameOutside(a, b, lo, hi) && SameOutside(b, c, lo, hi)
    ensures SameOutside(a, c, lo, hi)
  {
  }

  lemma EndOf(s: seq<int>, lo: nat, hi: nat)
    requires lo < hi <= |s|
    ensures s[lo..hi][..|s[lo..hi]| - 1] == s[lo..hi - 1] && s[lo..hi][|s[lo..hi]| - 1] == s[hi - 1]
  {
  }

  /** Working on `[lo, mid)` leaves what is behind it alone, and the other way round. */
  lemma OtherSide(was: seq<int>, a: seq<int>, lo: nat, mid: nat, hi: nat)
    requires lo <= mid <= hi <= |a|
    ensures SameOutside(was, a, lo, mid) ==> was[mid..hi] == a[mid..hi]
    ensures SameOutside(was, a, mid, hi) ==> was[lo..mid] == a[lo..mid]
  {
    if SameOutside(was, a, lo, mid) {
      assert was[mid..hi] == was[mid..][..hi - mid] == a[mid..][..hi - mid] == a[mid..hi];
    }
    if SameOutside(was, a, mid, hi) {
      assert was[lo..mid] == was[..mid][lo..] == a[..mid][lo..] == a[lo..mid];
    }
  }

  lemma Widen(was: seq<int>, a: seq<int>, lo: nat, b: nat, e: nat, hi: nat)
    requires lo <= b <= e <= hi <= |a| && SameOutside(was, a, b, e)
    ensures SameOutside(was, a, lo, hi)
  {
    assert was[..lo] == was[..b][..lo] == a[..b][..lo] == a[..lo];
    assert was[hi..] == was[e..][hi - e..] == a[e..][hi - e..] == a[hi..];
  }

  lemma Recombined(a: seq<int>, lo: nat, mid: nat, hi: nat)
    requires lo <= mid < hi <= |a|
    ensures a[lo..hi] == a[lo..mid] + [a[mid]] + a[mid + 1..hi]
  {
  }

  lemma SidesApart(s1: seq<int>, s2: seq<int>, s3: seq<int>, lo: nat, mid: nat, hi: nat)
    requires lo <= mid < hi <= |s1| && |s2| == |s1| && |s3| == |s1|
    requires SameOutside(s1, s2, lo, mid) && SameOutside(s2, s3, mid + 1, hi)
    ensures SameOutside(s1, s3, lo, hi)
    ensures s2[mid + 1..hi] == s1[mid + 1..hi] && s3[lo..mid] == s2[lo..mid] && s3[mid] == s1[mid]
  {
    hide SameOutside;
    Widen(s1, s2, lo, lo, mid, hi);
    Widen(s2, s3, lo, mid + 1, hi, hi);
    SameOutsideTwice(s1, s2, s3, lo, hi);
    OtherSide(s1, s2, lo, mid, hi);
    OneBack(s2, s1, mid, hi);
    OtherSide(s2, s3, lo, mid + 1, hi);
    OneFront(s2, s3, lo, mid);
  }

  lemma SidesApartHighFirst(s1: seq<int>, s2: seq<int>, s3: seq<int>, lo: nat, mid: nat, hi: nat)
    requires lo <= mid < hi <= |s1| && |s2| == |s1| && |s3| == |s1|
    requires SameOutside(s1, s2, mid + 1, hi) && SameOutside(s2, s3, lo, mid)
    ensures SameOutside(s1, s3, lo, hi)
    ensures s2[lo..mid] == s1[lo..mid] && s3[mid + 1..hi] == s2[mid + 1..hi] && s3[mid] == s1[mid]
  {
    hide SameOutside;
    Widen(s2, s3, lo, lo, mid, hi);
    Widen(s1, s2, lo, mid + 1, hi, hi);
    SameOutsideTwice(s1, s2, s3, lo, hi);
    OtherSide(s2, s3, lo, mid, hi);
    OneBack(s3, s2, mid, hi);
    OtherSide(s1, s2, lo, mid + 1, hi);
    OneFront(s1, s2, lo, mid);
  }

  lemma OneBack(s: seq<int>, t: seq<int>, mid: nat, hi: nat)
    requires mid < hi <= |s| && |t| == |s| && s[mid..hi] == t[mid..hi]
    ensures s[mid] == t[mid] && s[mid + 1..hi] == t[mid + 1..hi]
  {
    assert s[mid] == s[mid..hi][0] && t[mid] == t[mid..hi][0];
    assert s[mid + 1..hi] == s[mid..hi][1..] && t[mid + 1..hi] == t[mid..hi][1..];
  }

  lemma OneFront(s: seq<int>, t: seq<int>, lo: nat, mid: nat)
    requires lo <= mid < |s| && |t| == |s| && s[lo..mid + 1] == t[lo..mid + 1]
    ensures s[mid] == t[mid] && s[lo..mid] == t[lo..mid]
  {
    assert s[mid] == s[lo..mid + 1][mid - lo] && t[mid] == t[lo..mid + 1][mid - lo];
    assert s[lo..mid] == s[lo..mid + 1][..mid - lo] && t[lo..mid] == t[lo..mid + 1][..mid - lo];
  }

  lemma OuterParts(s: seq<int>, t: seq<int>, first: nat, lo: nat, hi: nat, last: nat)
    requires first <= lo <= hi <= last <= |t| && SameOutside(s, t, lo, hi)
    ensures s[first..lo] == t[first..lo] && s[hi..last] == t[hi..last]
    ensures SameOutside(s, t, first, last)
  {
    Widen(s, t, first, lo, hi, last);
    assert s[first..lo] == s[..lo][first..] == t[..lo][first..] == t[first..lo];
    assert s[hi..last] == s[hi..][..last - hi] == t[hi..][..last - hi] == t[hi..last];
  }

  lemma Regroup(p: seq<int>, q: seq<int>, r: seq<int>, u: seq<int>, v: seq<int>)
    ensures p + (q + r + u) + v == (p + q) + r + (u + v)
  {
  }

  lemma Adjoin(s: seq<int>, x: nat, y: nat, z: nat)
    requires x <= y <= z <= |s|
    ensures s[x..y] + s[y..z] == s[x..z]
  {
  }

  lemma EmptyEnds(r: seq<int>, s: seq<int>, lo: nat, hi: nat)
    requires lo <= hi <= |s|
    ensures s[lo..lo] + r + s[hi..hi] == r
  {
  }

  lemma InFront(s: seq<int>, lo: nat, mid: nat, hi: nat, r: seq<int>)
    requires lo <= mid < hi <= |s|
    ensures s[lo..lo] + r + s[mid..hi] == r + [s[mid]] + s[mid + 1..hi]
  {
  }

  lemma Behind(s: seq<int>, lo: nat, mid: nat, hi: nat, r: seq<int>)
    requires lo <= mid < hi <= |s|
    ensures s[lo..mid + 1] + r + s[hi..hi] == s[lo..mid] + [s[mid]] + r
  {
  }

  lemma SameOutsideItself(s: seq<int>, lo: nat, hi: nat)
    requires lo <= hi <= |s|
    ensures SameOutside(s, s, lo, hi)
  {
  }

  /** A loop over a shrinking range: `[first, lo)` and `[hi, last)` already hold their part of
      `goal`, and `todo` is what is still wanted in between. */
  ghost predicate Pending(goal: seq<int>, s: seq<int>, first: nat, lo: nat, hi: nat, last: nat, todo: seq<int>)
    requires first <= lo <= hi <= last <= |s|
  {
    goal == s[first..lo] + todo + s[hi..last]
  }

  lemma PendingStart(s: seq<int>, lo: nat, hi: nat, todo: seq<int>)
    requires lo <= hi <= |s|
    ensures Pending(todo, s, lo, lo, hi, hi, todo)
  {
    EmptyEnds(todo, s, lo, hi);
  }

  /** The range shrinks to `[b, e)`, and what falls off is final. */
  lemma PendingShrinks(goal: seq<int>, s: seq<int>, t: seq<int>, first: nat, lo: nat, b: nat, e: nat, hi: nat,
                       last: nat, todo: seq<int>, less: seq<int>)
    requires first <= lo <= b <= e <= hi <= last <= |s| == |t|
    requires Pending(goal, s, first, lo, hi, last, todo)
    requires SameOutside(s, t, lo, hi)
    requires todo == t[lo..b] + less + t[e..hi]
    ensures Pending(goal, t, first, b, e, last, less) && SameOutside(s, t, first, last)
  {
    hide SameOutside;
    OuterParts(s, t, first, lo, hi, last);
    Regroup(t[first..lo], t[lo..b], less, t[e..hi], t[hi..last]);
    Adjoin(t, first, lo, b);
    Adjoin(t, e, hi, last);
  }

  lemma PendingDone(goal: seq<int>, s: seq<int>, t: seq<int>, first: nat, lo: nat, hi: nat, last: nat, todo: seq<int>)
    requires first <= lo <= hi <= last <= |s| == |t|
    requires Pending(goal, s, first, lo, hi, last, todo)
    requires SameOutside(s, t, lo, hi) && t[lo..hi] == todo
    ensures t[first..last] == goal && SameOutside(s, t, first, last)
  {
    hide SameOutside;
    OuterParts(s, t, first, lo, hi, last);
    Adjoin(t, first, lo, hi);
    Adjoin(t, first, hi, last);
  }
}
