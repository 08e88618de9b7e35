/** Sorting three, four or five neighbours by direct moves. */
module SmallSort {
  import opened Ranges
  import Ins = Insertion

  /** The `n` elements from `p` on are in order, everything else is as it was. */
  ghost predicate InPlace(was: seq<int>, s: seq<int>, p: nat, n: nat)
    requires p + n <= |s|
  {
    SameOutside(was, s, p, p + n) && s[p..p + n] == InsertionSorted(was[p..p + n])
  }

  predicate Rearranged(x: int, y: int, z: int, u: int, v: int, w: int) {
    || (u == x && v == y && w == z)
    || (u == x && v == z && w == y)
    || (u == y && v == x && w == z)
    || (u == y && v == z && w == x)
    || (u == z && v == x && w == y)
    || (u == z && v == y && w == x)
  }

  lemma ThreeContents(s: seq<int>)
    requires |s| == 3
    ensures multiset(s) == multiset{s[0]} + multiset{s[1]} + multiset{s[2]}
  {
    assert s == [s[0]] + [s[1]] + [s[2]];
  }

  lemma SameThree(s: seq<int>, t: seq<int>)
    requires |s| == |t| == 3 && Rearranged(s[0], s[1], s[2], t[0], t[1], t[2])
    ensures multiset(t) == multiset(s)
  {
    ThreeContents(s);
    ThreeContents(t);
  }

  lemma InOrder3(s: seq<int>, t: seq<int>)
    requires |s| == |t| == 3 && t[0] <= t[1] <= t[2]
    requires Rearranged(s[0], s[1], s[2], t[0], t[1], t[2])
    ensures t == InsertionSorted(s)
  {
    hide InsertionSorted, Rearranged;
    SameThree(s, t);
    assert Sorted(t);
    SortedPermutation(s, t);
  }

  lemma Three(was: seq<int>, s: seq<int>, p: nat)
    requires p + 3 <= |was| == |s|
    requires forall i :: 0 <= i < |s| && !(p <= i < p + 3) ==> s[i] == was[i]
    requires s[p] <= s[p + 1] <= s[p + 2]
    requires Rearranged(was[p], was[p + 1], was[p + 2], s[p], s[p + 1], s[p + 2])
    ensures InPlace(was, s, p, 3)
  {
    InOrder3(was[p..p + 3], s[p..p + 3]);
    assert was[p..p + 3] == [was[p], was[p + 1], was[p + 2]];
    assert s[p..p + 3] == [s[p], s[p + 1], s[p + 2]];
  }

  /** `count` is zero exactly if the elements were in order. */
  method Sort3(a: array<int>, p: nat) returns (count: nat)
    requires p + 3 <= a.Length
    modifies a
    ensures InPlace(old(a[..]), a[..], p, 3)
    ensures count == 0 <==> old(a[p] <= a[p + 1] <= a[p + 2])
    ensures count == 0 ==> a[..] == old(a[..])
  {
    hide InPlace;
    ghost var was := a[..];
    if a[p + 1] < a[p] {
      if a[p + 2] < a[p + 1] {
        a[p], a[p + 2] := a[p + 2], a[p];
        count := 1;
      } else if a[p + 2] < a[p] {
        var tmp := a[p];
        a[p] := a[p + 1];
        a[p + 1] := a[p + 2];
        a[p + 2] := tmp;
        count := 2;
      } else {
        a[p], a[p + 1] := a[p + 1], a[p];
        count := 1;
      }
    } else if a[p + 2] < a[p] {
      var tmp := a[p + 2];
      a[p + 2] := a[p + 1];
      a[p + 1] := a[p];
      a[p] := tmp;
      count := 2;
    } else if a[p + 2] < a[p + 1] {
      a[p + 1], a[p + 2] := a[p + 2], a[p + 1];
      count := 1;
    } else {
      count := 0;
    }
    Three(was, a[..], p);
  }

  /** Moves over up to four positions, as updates. */
  lemma MovedByUpdates(s: seq<int>, it: nat)
    requires it < |s|
    ensures Ins.Moved(s, it, it) == s
    ensures it >= 1 ==> Ins.Moved(s, it - 1, it) == s[it := s[it - 1]][it - 1 := s[it]]
    ensures it >= 2 ==> Ins.Moved(s, it - 2, it) == s[it := s[it - 1]][it - 1 := s[it - 2]][it - 2 := s[it]]
    ensures it >= 3 ==>
      Ins.Moved(s, it - 3, it) == s[it := s[it - 1]][it - 1 := s[it - 2]][it - 2 := s[it - 3]][it - 3 := s[it]]
    ensures it >= 4 ==>
      Ins.Moved(s, it - 4, it)
        == s[it := s[it - 1]][it - 1 := s[it - 2]][it - 2 := s[it - 3]][it - 3 := s[it - 4]][it - 4 := s[it]]
  {
  }

  /** The element behind `n` sorted ones was put where it belongs. */
  lemma OneMoreInPlace(was: seq<int>, mid: seq<int>, p: nat, n: nat, cur: nat)
    requires p <= cur <= p + n < |mid| == |was| && InPlace(was, mid, p, n)
    requires cur == p || mid[cur - 1] <= mid[p + n]
    requires forall i :: cur <= i < p + n ==> mid[i] > mid[p + n]
    ensures InPlace(was, Ins.Moved(mid, cur, p + n), p, n + 1)
  {
    Ins.WalkDone(was, mid, p, cur, p + n, Inversions(was[p..p + n]));
  }

  lemma StaysInOrder(was: seq<int>, s: seq<int>, p: nat, n: nat)
    requires p + n <= |s| == |was| && InPlace(was, s, p, n)
    ensures forall i, j :: p <= i < j < p + n ==> s[i] <= s[j]
  {
    InsertionSortSorts(was[p..p + n]);
    var t := s[p..p + n];
    forall i, j | p <= i < j < p + n ensures s[i] <= s[j] {
      assert s[i] == t[i - p] && s[j] == t[j - p];
    }
  }

  method Sort4(a: array<int>, p: nat) returns (count: nat)
    requires p + 4 <= a.Length
    modifies a
    ensures InPlace(old(a[..]), a[..], p, 4)
    ensures count == 0 <==> old(a[p] <= a[p + 1] <= a[p + 2] <= a[p + 3])
    ensures count == 0 ==> a[..] == old(a[..])
  {
    hide *;
    ghost var was := a[..];
    count := Sort3(a, p);
    ghost var mid, cur := a[..], p + 3;
    StaysInOrder(was, mid, p, 3);
    MovedByUpdates(mid, p + 3);
    if a[p + 3] < a[p + 2] {
      if a[p + 3] < a[p + 1] {
        var tmp := a[p + 3];
        a[p + 3] := a[p + 2];
        a[p + 2] := a[p + 1];
        if tmp < a[p] {
          a[p + 1] := a[p];
          a[p] := tmp;
          count, cur := count + 3, p;
        } else {
          a[p + 1] := tmp;
          count, cur := count + 2, p + 1;
        }
      } else {
        a[p + 2], a[p + 3] := a[p + 3], a[p + 2];
        count, cur := count + 1, p + 2;
      }
    }
    assert a[..] == Ins.Moved(mid, cur, p + 3);
    OneMoreInPlace(was, mid, p, 3, cur);
  }

  method Sort5(a: array<int>, p: nat) returns (count: nat)
    requires p + 5 <= a.Length
    modifies a
    ensures InPlace(old(a[..]), a[..], p, 5)
    ensures count == 0 <==> old(a[p] <= a[p + 1] <= a[p + 2] <= a[p + 3] <= a[p + 4])
    ensures count == 0 ==> a[..] == old(a[..])
  {
    hide *;
    ghost var was := a[..];
    count := Sort4(a, p);
    ghost var mid, cur := a[..], p + 4;
    StaysInOrder(was, mid, p, 4);
    MovedByUpdates(mid, p + 4);
    if a[p + 4] < a[p + 3] {
      if a[p + 4] < a[p + 2] {
        var tmp := a[p + 4];
        a[p + 4] := a[p + 3];
        a[p + 3] := a[p + 2];
        if tmp < a[p + 1] {
          a[p + 2] := a[p + 1];
          if tmp < a[p] {
            a[p + 1] := a[p];
            a[p] := tmp;
            count, cur := count + 4, p;
          } else {
            a[p + 1] := tmp;
            count, cur := count + 3, p + 1;
          }
        } else {
          a[p + 2] := tmp;
          count, cur := count + 2, p + 2;
        }
      } else {
        a[p + 3], a[p + 4] := a[p + 4], a[p + 3];
        count, cur := count + 1, p + 3;
      }
    }
    assert a[..] == Ins.Moved(mid, cur, p + 4);
    OneMoreInPlace(was, mid, p, 4, cur);
  }
}
