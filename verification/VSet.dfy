/** Sets as sorted vectors (genmc/genmc/ADT/VSet.hpp). The element type is any total order; here, the integers. */
module VSets {

  ghost predicate Sorted(s: seq<int>) {
    forall i, j :: 0 <= i < j < |s| ==> s[i] < s[j]
  }

  lemma SomeMember(s: seq<int>)
    ensures s == [] || exists x :: x in s
  {
    if s != [] {
      var x: int := s[0];
      assert x in s;
    }
  }

  /** A sorted list is determined by its members. */
  lemma {:induction false} SameMembersSameList(s: seq<int>, t: seq<int>)
    requires Sorted(s) && Sorted(t) && forall x :: x in s <==> x in t
    ensures s == t
  {
    SomeMember(s);
    SomeMember(t);
    if |s| > 0 {
      var x: int, y: int := s[|s| - 1], t[|t| - 1];
      assert x in s && x in t && y in t && y in s;
      assert x == y;
      var a, b := s[..|s| - 1], t[..|t| - 1];
      assert s == a + [x] && t == b + [x];
      FrontMembers(a, x);
      FrontMembers(b, x);
      SameMembersSameList(a, b);
    }
  }

  lemma FrontMembers(a: seq<int>, x: int)
    requires Sorted(a + [x])
    ensures Sorted(a) && forall y :: y in a <==> y in a + [x] && y != x
  {
    forall i, j | 0 <= i < j < |a| ensures a[i] < a[j] { assert (a + [x])[i] < (a + [x])[j]; }
    forall i | 0 <= i < |a| ensures a[i] < x { assert (a + [x])[i] < (a + [x])[|a|]; }
  }

  /** std::lower_bound. */
  function LowerBound(s: seq<int>, x: int): (i: nat)
    requires Sorted(s)
    ensures i <= |s| && (forall k :: 0 <= k < i ==> s[k] < x) && (forall k :: i <= k < |s| ==> x <= s[k])
  {
    if |s| == 0 || x <= s[0] then 0 else 1 + LowerBound(s[1..], x)
  }

  lemma Appended(m: seq<int>, x: int)
    requires Sorted(m) && forall y :: y in m ==> y < x
    ensures Sorted(m + [x])
  {
    forall i | 0 <= i < |m| ensures m[i] < x { var y: int := m[i]; assert y in m; }
  }

  /** The members of s that are in t, or those that are not. */
  function Filter(s: seq<int>, t: seq<int>, within: bool): seq<int> {
    if |s| == 0 then []
    else
      var r := Filter(s[..|s| - 1], t, within);
      if (s[|s| - 1] in t) == within then r + [s[|s| - 1]] else r
  }

  lemma {:induction false} FilterMembers(s: seq<int>, t: seq<int>, within: bool)
    ensures forall x :: x in Filter(s, t, within) <==> x in s && (x in t <==> within)
  {
    if |s| > 0 {
      assert s == s[..|s| - 1] + [s[|s| - 1]];
      FilterMembers(s[..|s| - 1], t, within);
    }
  }

  lemma {:induction false} FilterSorted(s: seq<int>, t: seq<int>, within: bool)
    requires Sorted(s)
    ensures Sorted(Filter(s, t, within))
  {
    if |s| > 0 {
      var front, last: int := s[..|s| - 1], s[|s| - 1];
      FilterSorted(front, t, within);
      FilterMembers(front, t, within);
      Appended(Filter(front, t, within), last);
    }
  }

  lemma {:induction false} FilterBoth(s: seq<int>, t: seq<int>)
    ensures |Filter(s, t, true)| + |Filter(s, t, false)| == |s|
  {
    if |s| > 0 { FilterBoth(s[..|s| - 1], t); }
  }

  lemma FilterNext(s: seq<int>, t: seq<int>, within: bool, k: nat)
    requires k < |s|
    ensures Filter(s[..k + 1], t, within) ==
      if (s[k] in t) == within then Filter(s[..k], t, within) + [s[k]] else Filter(s[..k], t, within)
  {
    assert s[..k + 1][..k] == s[..k];
  }

  lemma {:induction false} FilterSame(s: seq<int>, t: seq<int>, u: seq<int>, within: bool)
    requires forall x :: x in s ==> (x in t <==> x in u)
    ensures Filter(s, t, within) == Filter(s, u, within)
  {
    if |s| > 0 {
      var last: int := s[|s| - 1];
      assert last in s && s == s[..|s| - 1] + [last];
      FilterSame(s[..|s| - 1], t, u, within);
    }
  }

  /** The union of two sorted lists, largest elements first. */
  function Merge(a: seq<int>, b: seq<int>): seq<int>
    decreases |a| + |b|
  {
    if |a| == 0 then b
    else if |b| == 0 then a
    else
      var x, y := a[|a| - 1], b[|b| - 1];
      if x < y then Merge(a, b[..|b| - 1]) + [y]
      else if x == y then Merge(a[..|a| - 1], b[..|b| - 1]) + [x]
      else Merge(a[..|a| - 1], b) + [x]
  }

  lemma {:induction false} MergeIsUnion(a: seq<int>, b: seq<int>)
    requires Sorted(a) && Sorted(b)
    ensures Sorted(Merge(a, b)) && forall x :: x in Merge(a, b) <==> x in a || x in b
    decreases |a| + |b|
  {
    if |a| > 0 && |b| > 0 {
      var x: int, y: int := a[|a| - 1], b[|b| - 1];
      var a1, b1 := a[..|a| - 1], b[..|b| - 1];
      assert a == a1 + [x] && b == b1 + [y];
      if x < y {
        MergeIsUnion(a, b1);
        Appended(Merge(a, b1), y);
      } else if x == y {
        MergeIsUnion(a1, b1);
        Appended(Merge(a1, b1), x);
      } else {
        MergeIsUnion(a1, b);
        Appended(Merge(a1, b), x);
      }
    }
  }

  /** The union has as many more members as b has members outside a. */
  lemma {:induction false} MergeSize(a: seq<int>, b: seq<int>)
    requires Sorted(a) && Sorted(b)
    ensures |Merge(a, b)| == |a| + |Filter(b, a, false)|
    decreases |a| + |b|
  {
    if |a| == 0 {
      FilterBoth(b, a);
      FilterMembers(b, a, true);
      SomeMember(Filter(b, a, true));
    } else if |b| > 0 {
      var x: int, y: int := a[|a| - 1], b[|b| - 1];
      var c, d := a[..|a| - 1], b[..|b| - 1];
      assert a == c + [x] && b == d + [y];
      if x < y {
        assert y !in a;
        MergeSize(a, d);
      } else if x == y {
        assert y in a;
        MergeSize(c, d);
        FilterSame(d, a, c, false);
      } else {
        assert x !in b;
        MergeSize(c, b);
        FilterSame(b, a, c, false);
      }
    }
  }

  /** r has the members of s that are in t, or those that are not. */
  ghost predicate Collected(r: seq<int>, s: seq<int>, t: seq<int>, within: bool) {
    forall x :: x in r <==> x in s && (x in t <==> within)
  }

  /** With the next element of s it takes what is put in, and with one that does not belong, nothing. */
  lemma CollectedNext(r: seq<int>, q: seq<int>, s: seq<int>, t: seq<int>, within: bool, k: nat)
    requires k < |s| && Collected(r, s[..k], t, within)
    requires if (s[k] in t) == within then forall y :: y in q <==> y in r || y == s[k] else q == r
    ensures Collected(q, s[..k + 1], t, within)
  {
    assert s[..k + 1] == s[..k] + [s[k]];
  }

  lemma SameFilter(r: seq<int>, s: seq<int>, t: seq<int>, within: bool)
    requires Sorted(r) && Sorted(s) && Collected(r, s, t, within)
    ensures r == Filter(s, t, within)
  {
    FilterMembers(s, t, within);
    FilterSorted(s, t, within);
    SameMembersSameList(r, Filter(s, t, within));
  }

  /** Nothing in s from position k on is in t. */
  ghost predicate Outside(s: seq<int>, t: seq<int>, k: nat) {
    forall i :: k <= i < |s| ==> s[i] !in t
  }

  lemma {:induction false} FilterTail(s: seq<int>, t: seq<int>, k: nat)
    requires k <= |s| && Outside(s, t, k)
    ensures Filter(s, t, false) == Filter(s[..k], t, false) + s[k..] && Filter(s, t, true) == Filter(s[..k], t, true)
  {
    if k < |s| {
      var front := s[..|s| - 1];
      assert front[..k] == s[..k];
      assert s[k..] == front[k..] + [s[|s| - 1]];
      FilterTail(front, t, k);
    } else {
      assert s[..k] == s;
    }
  }

  lemma InsertedMembers(s: seq<int>, k: nat, x: int)
    requires k <= |s|
    ensures forall y :: y in s[..k] + [x] + s[k..] <==> y in s || y == x
  {
    assert s == s[..k] + s[k..];
  }

  lemma InsertedSorted(s: seq<int>, r: seq<int>, k: nat, x: int)
    requires Sorted(s) && k <= |s| && |r| == |s| + 1
    requires r[k] == x && (forall i :: 0 <= i < k ==> r[i] == s[i]) && forall i :: k < i < |r| ==> r[i] == s[i - 1]
    requires (k > 0 ==> s[k - 1] < x) && (k < |s| ==> x < s[k])
    ensures Sorted(r)
  {
    forall i | 0 <= i < k ensures s[i] < x { assert i < k - 1 ==> s[i] < s[k - 1]; }
    forall i | k <= i < |s| ensures x < s[i] { assert k < i ==> s[k] < s[i]; }
    forall i, j | 0 <= i < j < |r| ensures r[i] < r[j] {
      if j < k {
        assert s[i] < s[j];
      } else if j == k {
        assert s[i] < x;
      } else if i == k {
        assert x < s[j - 1];
      } else {
        assert if i < k then r[i] == s[i] && (i == j - 1 || s[i] < s[j - 1])
          else r[i] == s[i - 1] && s[i - 1] < s[j - 1];
      }
    }
  }

  lemma Inserted(s: seq<int>, k: nat, x: int)
    requires Sorted(s) && k == LowerBound(s, x) && (k == |s| || s[k] != x)
    ensures x !in s && Sorted(s[..k] + [x] + s[k..])
    ensures forall y :: y in s[..k] + [x] + s[k..] <==> y in s || y == x
  {
    InsertedMembers(s, k, x);
    assert k < |s| ==> x < s[k];
    InsertedSorted(s, s[..k] + [x] + s[k..], k, x);
  }

  lemma Erased(s: seq<int>, k: nat)
    requires Sorted(s) && k < |s|
    ensures Sorted(s[..k] + s[k + 1..]) && forall y :: y in s[..k] + s[k + 1..] <==> y in s && y != s[k]
  {
    forall y ensures y in s[..k] + s[k + 1..] <==> y in s && y != s[k] { assert s == s[..k] + [s[k]] + s[k + 1..]; }
  }

  /** Two sorted lists walked in parallel: what has been passed is smaller than what is ahead in the other. */
  ghost predicate Walking(s: seq<int>, t: seq<int>, a: nat, b: nat) {
    && Sorted(s) && Sorted(t) && a <= |s| && b <= |t|
    && (forall i, j :: 0 <= i < a && b <= j < |t| ==> s[i] < t[j])
    && (forall i, j :: a <= i < |s| && 0 <= j < b ==> t[j] < s[i])
  }

  /** Which of the two current elements are common. */
  lemma WalkingStep(s: seq<int>, t: seq<int>, a: nat, b: nat)
    requires Walking(s, t, a, b) && a < |s| && b < |t|
    ensures s[a] <= t[b] ==> Walking(s, t, a + 1, if s[a] == t[b] then b + 1 else b) && (s[a] in t <==> s[a] == t[b])
    ensures s[a] >= t[b] ==> Walking(s, t, if s[a] == t[b] then a + 1 else a, b + 1) && (t[b] in s <==> s[a] == t[b])
  {
  }

  /** Of the first b elements of t, `count` are not in s. */
  ghost predicate Counting(s: seq<int>, t: seq<int>, a: nat, b: nat, count: nat) {
    Walking(s, t, a, b) && count == |Filter(t[..b], s, false)|
  }

  lemma CountingStep(s: seq<int>, t: seq<int>, a: nat, b: nat, count: nat)
    requires Counting(s, t, a, b, count) && a < |s| && b < |t|
    ensures s[a] < t[b] ==> Counting(s, t, a + 1, b, count)
    ensures s[a] == t[b] ==> Counting(s, t, a + 1, b + 1, count)
    ensures s[a] > t[b] ==> Counting(s, t, a, b + 1, count + 1)
  {
    WalkingStep(s, t, a, b);
    FilterNext(t, s, false, b);
  }

  lemma CountingEnd(s: seq<int>, t: seq<int>, a: nat, b: nat, count: nat)
    requires Counting(s, t, a, b, count) && (a == |s| || b == |t|)
    ensures |Filter(t, s, false)| == count + (|t| - b)
  {
    WalkingEnd(s, t, a, b);
    FilterTail(t, s, b);
  }

  /** One position of the backwards merge. */
  lemma MergeStep(a: seq<int>, b: seq<int>, p: int, q: int)
    requires -1 <= p < |a| && -1 <= q < |b| && (p >= 0 || q >= 0)
    ensures Merge(a[..p + 1], b[..q + 1]) ==
      Merge(a[..NextA(a, b, p, q) + 1], b[..NextB(a, b, p, q) + 1]) + [Larger(a, b, p, q)]
  {
    if p >= 0 { assert a[..p + 1] == a[..p] + [a[p]]; }
    if q >= 0 { assert b[..q + 1] == b[..q] + [b[q]]; }
    if p < 0 {
      MergeEmpty(b[..q + 1]);
      MergeEmpty(b[..q]);
    } else if q < 0 {
      MergeEmpty(a[..p + 1]);
      MergeEmpty(a[..p]);
    } else {
      MergeLast(a[..p], a[p], b[..q], b[q]);
    }
  }

  lemma MergeEmpty(s: seq<int>)
    ensures Merge([], s) == s && Merge(s, []) == s
  {
  }

  lemma MergeLast(c: seq<int>, x: int, d: seq<int>, y: int)
    ensures Merge(c + [x], d + [y]) ==
      if x < y then Merge(c + [x], d) + [y] else if x == y then Merge(c, d) + [x] else Merge(c, d + [y]) + [x]
  {
    assert (c + [x])[..|c|] == c && (d + [y])[..|d|] == d;
  }

  /** Positions up to p hold what they did, those after i the end of the merge. */
  ghost predicate Merging(now: seq<int>, a: seq<int>, b: seq<int>, p: int, q: int, i: int) {
    && -1 <= p < |a| && -1 <= q < |b| && p <= i < |now|
    && now[..p + 1] == a[..p + 1]
    && |Merge(a[..p + 1], b[..q + 1])| == i + 1
    && Merge(a, b) == Merge(a[..p + 1], b[..q + 1]) + now[i + 1..]
  }

  lemma MergingReads(now: seq<int>, a: seq<int>, b: seq<int>, p: int, q: int, i: int)
    requires Merging(now, a, b, p, q, i) && i >= 0
    ensures p >= 0 ==> now[p] == a[p]
    ensures p >= 0 || q >= 0
  {
    if p >= 0 { assert now[p] == now[..p + 1][p] == a[..p + 1][p]; }
    assert p < 0 ==> a[..p + 1] == [];
    assert q < 0 ==> b[..q + 1] == [];
    assert Merge([], []) == [];
  }

  /** The indices after position i has been filled. */
  function NextA(a: seq<int>, b: seq<int>, p: int, q: int): int
    requires -1 <= p < |a| && -1 <= q < |b|
  {
    if p < 0 || (q >= 0 && a[p] < b[q]) then p else p - 1
  }

  function NextB(a: seq<int>, b: seq<int>, p: int, q: int): int
    requires -1 <= p < |a| && -1 <= q < |b|
  {
    if q < 0 || (p >= 0 && b[q] < a[p]) then q else q - 1
  }

  function Larger(a: seq<int>, b: seq<int>, p: int, q: int): int
    requires -1 <= p < |a| && -1 <= q < |b| && (p >= 0 || q >= 0)
  {
    if p < 0 || (q >= 0 && a[p] < b[q]) then b[q] else a[p]
  }

  lemma MergingStep(now: seq<int>, a: seq<int>, b: seq<int>, p: int, q: int, i: int)
    requires Merging(now, a, b, p, q, i) && i >= 0 && (p >= 0 || q >= 0)
    ensures Merging(now[i := Larger(a, b, p, q)], a, b, NextA(a, b, p, q), NextB(a, b, p, q), i - 1)
  {
    var p1, q1, x := NextA(a, b, p, q), NextB(a, b, p, q), Larger(a, b, p, q);
    MergeStep(a, b, p, q);
    MergeAtLeast(a[..p1 + 1], b[..q1 + 1]);
    MergingWrite(now, a, p, p1, i, x);
    Regrouped(Merge(a[..p1 + 1], b[..q1 + 1]), x, now[i + 1..]);
  }

  lemma Regrouped(c: seq<int>, x: int, m: seq<int>)
    ensures (c + [x]) + m == c + ([x] + m)
  {
  }

  lemma {:induction false} MergeAtLeast(a: seq<int>, b: seq<int>)
    ensures |Merge(a, b)| >= |a|
    decreases |a| + |b|
  {
    if |a| > 0 && |b| > 0 {
      var x, y := a[|a| - 1], b[|b| - 1];
      MergeAtLeast(if x < y then a else a[..|a| - 1], if y < x then b else b[..|b| - 1]);
    }
  }

  lemma MergingWrite(now: seq<int>, a: seq<int>, p: int, p1: int, i: int, x: int)
    requires -1 <= p1 <= p < |a| && p1 < i && p <= i < |now| && now[..p + 1] == a[..p + 1]
    ensures now[i := x][i..] == [x] + now[i + 1..]
    ensures now[i := x][..p1 + 1] == a[..p1 + 1]
  {
    assert now[i := x][..p1 + 1] == now[..p + 1][..p1 + 1] == a[..p + 1][..p1 + 1];
  }

  /** The first a elements have been kept or erased, the first m positions hold those kept. */
  ghost predicate Moving(now: seq<int>, was: seq<int>, t: seq<int>, a: nat, m: nat, erased: nat) {
    && |now| == |was| && m <= a <= |was| && m == a - erased
    && now[..m] == Filter(was[..a], t, false) && (forall k :: a <= k < |was| ==> now[k] == was[k])
    && erased == |Filter(was[..a], t, true)|
  }

  lemma MovingErase(now: seq<int>, was: seq<int>, t: seq<int>, a: nat, m: nat, erased: nat)
    requires Moving(now, was, t, a, m, erased) && a < |was| && was[a] in t
    ensures Moving(now, was, t, a + 1, m, erased + 1)
  {
    FilterNext(was, t, false, a);
    FilterNext(was, t, true, a);
  }

  lemma MovingKeep(now: seq<int>, was: seq<int>, t: seq<int>, a: nat, m: nat, erased: nat)
    requires Moving(now, was, t, a, m, erased) && a < |was| && was[a] !in t
    ensures Moving(now[m := was[a]], was, t, a + 1, m + 1, erased)
    ensures m == a ==> now[m := was[a]] == now
  {
    FilterNext(was, t, false, a);
    FilterNext(was, t, true, a);
    assert now[m := was[a]][..m + 1] == now[..m] + [was[a]];
  }

  ghost predicate Erasing(now: seq<int>, was: seq<int>, t: seq<int>, a: nat, b: nat, m: nat, erased: nat) {
    Walking(was, t, a, b) && Moving(now, was, t, a, m, erased)
  }

  /** One round of the first loop, in each of its three cases. */
  lemma ErasingStep(now: seq<int>, was: seq<int>, t: seq<int>, a: nat, b: nat, m: nat, erased: nat)
    requires Erasing(now, was, t, a, b, m, erased) && a < |was| && b < |t|
    ensures now[a] == was[a]
    ensures was[a] == t[b] ==> Erasing(now, was, t, a + 1, b + 1, m, erased + 1)
    ensures was[a] < t[b] ==> Erasing(now[m := was[a]], was, t, a + 1, b, m + 1, erased)
    ensures was[a] < t[b] && m == a ==> Erasing(now, was, t, a + 1, b, m + 1, erased)
    ensures was[a] > t[b] ==> Erasing(now, was, t, a, b + 1, m, erased)
  {
    WalkingStep(was, t, a, b);
    if was[a] == t[b] {
      MovingErase(now, was, t, a, m, erased);
    } else if was[a] < t[b] {
      MovingKeep(now, was, t, a, m, erased);
    }
  }

  /** When only elements to keep are left. */
  lemma MovingEnd(now: seq<int>, was: seq<int>, t: seq<int>, a: nat, m: nat, erased: nat)
    requires Moving(now, was, t, a, m, erased) && Outside(was, t, a)
    ensures a == |was| ==> now[..m] == Filter(was, t, false)
    ensures m == a ==> now == Filter(was, t, false)
    ensures erased == |Filter(was, t, true)|
  {
    FilterTail(was, t, a);
    assert now == now[..a] + now[a..] && now[a..] == was[a..];
  }

  /** All that is ahead is kept once one of the lists is at its end. */
  lemma WalkingEnd(s: seq<int>, t: seq<int>, a: nat, b: nat)
    requires Walking(s, t, a, b) && (a == |s| || b == |t|)
    ensures Outside(s, t, a) && Outside(t, s, b)
  {
  }

  class VSet {
    var vset: seq<int>

    ghost predicate Valid()
      reads this
    {
      Sorted(vset)
    }

    constructor ()
      ensures Valid() && vset == []
    {
      vset := [];
    }

    method Find(x: int) returns (k: nat)
      requires Valid()
      ensures k <= |vset| && (k < |vset| <==> x in vset) && (k < |vset| ==> vset[k] == x)
    {
      k := LowerBound(vset, x);
      if k < |vset| && vset[k] != x { k := |vset|; }
    }

    /** insert(el). */
    method Insert(x: int) returns (inserted: bool)
      requires Valid()
      modifies this
      ensures Valid() && inserted == (x !in old(vset))
      ensures forall y :: y in vset <==> y in old(vset) || y == x
      ensures |vset| == |old(vset)| + if inserted then 1 else 0
    {
      var k := LowerBound(vset, x);
      if k == |vset| || vset[k] != x {
        Inserted(vset, k, x);
        vset := vset[..k] + [x] + vset[k..];
        return true;
      }
      assert vset[k] in vset;
      inserted := false;
    }

    /** The first loop of the bulk insertion: how many elements of s are new. */
    method CountNew(s: VSet) returns (count: nat)
      requires Valid() && s.Valid()
      ensures count == |Filter(s.vset, vset, false)|
    {
      var a, b := 0, 0;
      count := 0;
      while a < |vset| && b < |s.vset|
        invariant Counting(vset, s.vset, a, b, count)
        decreases |vset| - a + |s.vset| - b
      {
        CountingStep(vset, s.vset, a, b, count);
        if vset[a] < s.vset[b] {
          a := a + 1;
        } else if vset[a] == s.vset[b] {
          a, b := a + 1, b + 1;
        } else {
          b, count := b + 1, count + 1;
        }
      }
      CountingEnd(vset, s.vset, a, b, count);
      if b < |s.vset| { count := count + (|s.vset| - b); }
    }

    /** One round of the second loop: fills position i from either set. */
    method Fill(ghost a: seq<int>, b: seq<int>, idxA: int, idxB: int, i: int) returns (nextA: int, nextB: int)
      requires Merging(vset, a, b, idxA, idxB, i) && i >= 0
      modifies this
      ensures |vset| == |old(vset)| && Merging(vset, a, b, nextA, nextB, i - 1)
    {
      MergingReads(vset, a, b, idxA, idxB, i);
      MergingStep(vset, a, b, idxA, idxB, i);
      if idxA < 0 || (idxB >= 0 && vset[idxA] < b[idxB]) {
        vset := vset[i := b[idxB]];
        nextA, nextB := idxA, idxB - 1;
      } else if idxA >= 0 && idxB >= 0 && vset[idxA] == b[idxB] {
        vset := vset[i := vset[idxA]];
        nextA, nextB := idxA - 1, idxB - 1;
      } else {
        vset := vset[i := vset[idxA]];
        nextA, nextB := idxA - 1, idxB;
      }
    }

    /** The second loop: grows the vector and fills it from its end, while its own elements are still being read. */
    method MergeBackwards(s: VSet, count: nat)
      requires Valid() && s.Valid() && s != this && |vset| > 0
      requires count == |Filter(s.vset, vset, false)|
      modifies this
      ensures vset == Merge(old(vset), s.vset)
    {
      ghost var a := vset;
      var b := s.vset;
      var idxA: int, idxB: int := |vset| - 1, |b| - 1;
      MergeSize(a, b);
      var filler := vset[0];
      vset := vset + seq(count, _ => filler);
      var i: int := |vset| - 1;
      assert a[..idxA + 1] == a && b[..idxB + 1] == b && vset[i + 1..] == [];
      while i >= 0
        invariant -1 <= i && Merging(vset, a, b, idxA, idxB, i)
      {
        idxA, idxB := Fill(a, b, idxA, idxB, i);
        i := i - 1;
      }
      assert vset[0..] == vset;
    }

    /** insert(VSet): the union in place, and the number of elements that were new. */
    method InsertAll(s: VSet) returns (count: nat)
      requires Valid() && s.Valid()
      modifies this
      ensures Valid() && forall x :: x in vset <==> x in old(vset) || x in old(s.vset)
      ensures count == |Filter(old(s.vset), old(vset), false)| && |vset| == |old(vset)| + count
    {
      MergeIsUnion(vset, s.vset);
      MergeSize(vset, s.vset);
      if vset == [] {
        vset := s.vset;
        return |s.vset|;
      }
      if s.vset == [] { return 0; }
      if |s.vset| == 1 {
        assert Filter(s.vset, vset, false) == if s.vset[0] in vset then [] else s.vset;
        var x := s.vset[0];
        var inserted := Insert(x);
        return if inserted then 1 else 0;
      }
      count := CountNew(s);
      if count == 0 {
        NothingMissing(s.vset, vset);
        return;
      }
      NothingNew(vset);
      MergeBackwards(s, count);
    }

    /** erase(el). */
    method Erase(x: int) returns (erased: bool)
      requires Valid()
      modifies this
      ensures Valid() && erased == (x in old(vset))
      ensures forall y :: y in vset <==> y in old(vset) && y != x
    {
      var k := LowerBound(vset, x);
      if k == |vset| || vset[k] != x { return false; }
      assert vset[k] in vset;
      Erased(vset, k);
      vset := vset[..k] + vset[k + 1..];
      erased := true;
    }

    /** The element at a, x, stays and moves to aMov. */
    method Keep(ghost x: int, a: nat, aMov: nat)
      requires aMov <= a < |vset| && vset[a] == x
      modifies this
      ensures vset == old(vset)[aMov := x]
    {
      if aMov != a { vset := vset[aMov := vset[a]]; }
    }

    /** One round of the first loop of the bulk erasure. */
    method EraseOrKeep(s: VSet, ghost was: seq<int>, a: nat, b: nat, aMov: nat, erased: nat)
      returns (nextA: nat, nextB: nat, nextMov: nat, nextErased: nat)
      requires Erasing(vset, was, s.vset, a, b, aMov, erased) && a < |was| && b < |s.vset|
      requires s == this ==> a == b && vset == was
      modifies this
      ensures s.vset == old(s.vset) && (s == this ==> nextA == nextB)
      ensures Erasing(vset, was, s.vset, nextA, nextB, nextMov, nextErased)
      ensures nextA >= a && nextB >= b && nextA + nextB > a + b
    {
      ErasingStep(vset, was, s.vset, a, b, aMov, erased);
      if vset[a] == s.vset[b] {
        return a + 1, b + 1, aMov, erased + 1;
      } else if vset[a] < s.vset[b] {
        Keep(was[a], a, aMov);
        return a + 1, b, aMov + 1, erased;
      } else {
        return a, b + 1, aMov, erased;
      }
    }

    /** The first loop of the bulk erasure. */
    method EraseCommon(s: VSet) returns (a: nat, aMov: nat, erased: nat)
      requires Valid() && s.Valid()
      modifies this
      ensures s.vset == old(s.vset) && (s == this ==> a == |vset|)
      ensures Moving(vset, old(vset), s.vset, a, aMov, erased)
      ensures Outside(old(vset), s.vset, a)
    {
      ghost var was, t := vset, s.vset;
      var b: nat := 0;
      a, aMov, erased := 0, 0, 0;
      while a < |vset| && b < |s.vset|
        invariant s.vset == t && (s == this ==> a == b)
        invariant Erasing(vset, was, t, a, b, aMov, erased)
        decreases |was| + |t| - a - b
      {
        a, b, aMov, erased := EraseOrKeep(s, was, a, b, aMov, erased);
      }
      WalkingEnd(was, t, a, b);
    }

    /** One round of the second loop of the bulk erasure. */
    method KeepNext(ghost was: seq<int>, ghost t: seq<int>, a: nat, aMov: nat, ghost erased: nat)
      requires Moving(vset, was, t, a, aMov, erased) && a < |was| && was[a] !in t
      modifies this
      ensures Moving(vset, was, t, a + 1, aMov + 1, erased)
    {
      MovingKeep(vset, was, t, a, aMov, erased);
      Keep(was[a], a, aMov);
    }

    /** The second loop of the bulk erasure. */
    method KeepRest(ghost was: seq<int>, ghost t: seq<int>, a0: nat, aMov0: nat, ghost erased: nat) returns (aMov: nat)
      requires Moving(vset, was, t, a0, aMov0, erased) && Outside(was, t, a0)
      modifies this
      ensures Moving(vset, was, t, |was|, aMov, erased)
    {
      var a: nat := a0;
      aMov := aMov0;
      while a < |vset|
        invariant a0 <= a && Moving(vset, was, t, a, aMov, erased)
        decreases |was| - a
      {
        KeepNext(was, t, a, aMov, erased);
        a, aMov := a + 1, aMov + 1;
      }
    }

    /** erase(VSet), even of the set itself: the difference in place, and the number of elements it lost. */
    method EraseAll(s: VSet) returns (erased: nat)
      requires Valid() && s.Valid()
      modifies this
      ensures Valid() && vset == Filter(old(vset), old(s.vset), false)
      ensures erased == |Filter(old(vset), old(s.vset), true)| && |vset| == |old(vset)| - erased
    {
      ghost var was, t := vset, s.vset;
      FilterBoth(was, t);
      FilterSorted(was, t, false);
      if vset == [] || s.vset == [] {
        NothingErased(was, t);
        return 0;
      }
      var a, aMov;
      a, aMov, erased := EraseCommon(s);
      MovingEnd(vset, was, t, a, aMov, erased);
      if aMov != a {
        aMov := KeepRest(was, t, a, aMov, erased);
        MovingEnd(vset, was, t, |was|, aMov, erased);
        vset := vset[..aMov];
      }
    }

    method SubsetOf(s: VSet) returns (yes: bool)
      requires Valid() && s.Valid()
      ensures yes <==> forall x :: x in vset ==> x in s.vset
    {
      if |vset| > |s.vset| {
        SubsetIsSmaller(vset, s.vset);
        return false;
      }
      var a, b := 0, 0;
      while a < |vset|
        invariant Walking(vset, s.vset, a, b) && forall x :: x in vset[..a] ==> x in s.vset
        decreases |s.vset| - b
      {
        assert vset[a] in vset && vset[..a + 1] == vset[..a] + [vset[a]];
        if |vset| - a > |s.vset| - b {
          TailIsSmaller(vset, s.vset, a, b);
          return false;
        }
        WalkingStep(vset, s.vset, a, b);
        if vset[a] < s.vset[b] { return false; }
        if vset[a] == s.vset[b] {
          a, b := a + 1, b + 1;
        } else {
          b := b + 1;
        }
      }
      assert vset[..a] == vset;
      yes := true;
    }

    method Intersects(s: VSet) returns (yes: bool)
      requires Valid() && s.Valid()
      ensures yes <==> exists x :: x in vset && x in s.vset
    {
      var a, b := 0, 0;
      while a < |vset| && b < |s.vset|
        invariant Walking(vset, s.vset, a, b) && forall i :: 0 <= i < a ==> vset[i] !in s.vset
        decreases |vset| - a + |s.vset| - b
      {
        WalkingStep(vset, s.vset, a, b);
        if vset[a] == s.vset[b] {
          assert vset[a] in vset && vset[a] in s.vset;
          return true;
        }
        if vset[a] < s.vset[b] { a := a + 1; } else { b := b + 1; }
      }
      WalkingEnd(vset, s.vset, a, b);
      yes := false;
    }

    method IntersectWith(s: VSet) returns (result: VSet)
      requires Valid() && s.Valid()
      ensures fresh(result) && result.Valid() && result.vset == Filter(vset, s.vset, true)
    {
      result := new VSet();
      var a, b := 0, 0;
      while a < |vset| && b < |s.vset|
        invariant Walking(vset, s.vset, a, b) && fresh(result) && result.Valid()
        invariant Collected(result.vset, vset[..a], s.vset, true)
        decreases |vset| - a + |s.vset| - b
      {
        WalkingStep(vset, s.vset, a, b);
        ghost var r := result.vset;
        if vset[a] == s.vset[b] {
          var inserted := result.Insert(vset[a]);
          CollectedNext(r, result.vset, vset, s.vset, true, a);
          a, b := a + 1, b + 1;
        } else if vset[a] < s.vset[b] {
          CollectedNext(r, r, vset, s.vset, true, a);
          a := a + 1;
        } else {
          b := b + 1;
        }
      }
      WalkingEnd(vset, s.vset, a, b);
      CollectedTail(result.vset, vset, s.vset, a);
      SameFilter(result.vset, vset, s.vset, true);
    }

    method Diff(s: VSet) returns (result: VSet)
      requires Valid() && s.Valid()
      ensures fresh(result) && result.Valid() && result.vset == Filter(vset, s.vset, false)
    {
      result := new VSet();
      for k := 0 to |vset|
        invariant fresh(result) && result.Valid()
        invariant Collected(result.vset, vset[..k], s.vset, false)
      {
        ghost var r := result.vset;
        var m := s.Find(vset[k]);
        if m == |s.vset| { var inserted := result.Insert(vset[k]); }
        CollectedNext(r, result.vset, vset, s.vset, false, k);
      }
      assert vset[..|vset|] == vset;
      SameFilter(result.vset, vset, s.vset, false);
    }
  }

  lemma CollectedTail(r: seq<int>, s: seq<int>, t: seq<int>, k: nat)
    requires k <= |s| && Outside(s, t, k) && Collected(r, s[..k], t, true)
    ensures Collected(r, s, t, true)
  {
    assert s == s[..k] + s[k..];
  }

  lemma SubsetIsSmaller(s: seq<int>, t: seq<int>)
    requires Sorted(s) && Sorted(t)
    ensures (forall x :: x in s ==> x in t) ==> |s| <= |t|
  {
    if forall x :: x in s ==> x in t {
      FilterBoth(t, s);
      SameFilter(s, t, s, true);
    }
  }

  lemma TailIsSmaller(s: seq<int>, t: seq<int>, a: nat, b: nat)
    requires Walking(s, t, a, b)
    ensures (forall x :: x in s ==> x in t) ==> |s| - a <= |t| - b
  {
    SubsetIsSmaller(s[a..], t[b..]);
    if forall x :: x in s ==> x in t {
      forall x | x in s[a..] ensures x in t[b..] { assert x in t; }
    }
  }

  lemma NothingMissing(s: seq<int>, t: seq<int>)
    requires |Filter(s, t, false)| == 0
    ensures forall x :: x in s ==> x in t
  {
    FilterMembers(s, t, false);
  }

  lemma NothingErased(s: seq<int>, t: seq<int>)
    requires s == [] || t == []
    ensures Filter(s, t, false) == s && Filter(s, t, true) == []
  {
    assert s[0..] == s;
    FilterTail(s, t, 0);
  }

  lemma NothingNew(s: seq<int>)
    ensures Filter(s, s, false) == []
  {
    FilterMembers(s, s, false);
    SomeMember(Filter(s, s, false));
  }
}
