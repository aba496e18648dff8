/** Matching locks with unlocks (genmc/genmc/Execution/GraphUtils.cpp:45-95), along the program order of a thread. */
module Locks {
  import opened Options

  /** Labels as far as matching tells them apart: the writes of the various CAS operations, of unlocks, and others. */
  datatype Label = LockCas(addr: int) | TrylockCas(addr: int) | OtherCas(addr: int) | Unlock(addr: int) | Other

  predicate IsLock(lab: Label, a: int) { lab == LockCas(a) || lab == TrylockCas(a) }

  predicate IsUnlock(lab: Label, a: int) { lab == Unlock(a) }

  /** The locks minus the unlocks of address a at positions i <= k < j. */
  function Balance(po: seq<Label>, a: int, i: nat, j: nat): int
    requires i <= j <= |po|
    decreases j - i
  {
    if i == j then 0
    else Balance(po, a, i, j - 1) + if IsLock(po[j - 1], a) then 1 else if IsUnlock(po[j - 1], a) then -1 else 0
  }

  lemma {:induction false} BalanceSplits(po: seq<Label>, a: int, i: nat, m: nat, j: nat)
    requires i <= m <= j <= |po|
    ensures Balance(po, a, i, j) == Balance(po, a, i, m) + Balance(po, a, m, j)
    decreases j - m
  {
    if m < j { BalanceSplits(po, a, i, m, j - 1); }
  }

  /** Between i and j no unlock of a lacks a lock. */
  ghost predicate NeverBelow(po: seq<Label>, a: int, i: nat, j: nat)
    requires i <= j <= |po|
  {
    forall m: nat :: i <= m <= j ==> Balance(po, a, i, m) >= 0
  }

  /** Lock l and unlock u enclose a balanced stretch. */
  ghost predicate Matched(po: seq<Label>, a: int, l: nat, u: nat) {
    && l < u < |po| && IsLock(po[l], a) && IsUnlock(po[u], a)
    && Balance(po, a, l + 1, u) == 0 && NeverBelow(po, a, l + 1, u)
  }

  /** Between i and j no lock of a lacks an unlock. */
  ghost predicate NeverAbove(po: seq<Label>, a: int, i: nat, j: nat)
    requires i <= j <= |po|
  {
    forall m: nat :: i <= m <= j ==> Balance(po, a, m, j) <= 0
  }

  /** A balanced stretch can be judged from either end. */
  lemma BothEnds(po: seq<Label>, a: int, i: nat, j: nat)
    requires i <= j <= |po| && Balance(po, a, i, j) == 0
    ensures NeverBelow(po, a, i, j) <==> NeverAbove(po, a, i, j)
  {
    if NeverBelow(po, a, i, j) {
      forall m: nat | i <= m <= j ensures Balance(po, a, m, j) <= 0 { BalanceSplits(po, a, i, m, j); }
    }
    if NeverAbove(po, a, i, j) {
      forall m: nat | i <= m <= j ensures Balance(po, a, i, m) >= 0 { BalanceSplits(po, a, i, m, j); }
    }
  }

  /** The labels from i to j make a sequence of brackets of a, closed inside, and labels that have nothing to do
      with a. */
  ghost predicate Bracketed(po: seq<Label>, a: int, i: nat, j: nat)
    requires i <= j <= |po|
    decreases j - i
  {
    i == j ||
    if po[i] == LockCas(a) || po[i] == TrylockCas(a) then
      exists m: nat :: i < m < j && po[m] == Unlock(a) && Bracketed(po, a, i + 1, m) && Bracketed(po, a, m + 1, j)
    else po[i] != Unlock(a) && Bracketed(po, a, i + 1, j)
  }

  lemma {:induction false} BracketedBalance(po: seq<Label>, a: int, i: nat, j: nat)
    requires i <= j <= |po| && Bracketed(po, a, i, j)
    ensures Balance(po, a, i, j) == 0 && NeverBelow(po, a, i, j)
    decreases j - i
  {
    if i < j {
      if IsLock(po[i], a) {
        var m: nat :| i < m < j && po[m] == Unlock(a) && Bracketed(po, a, i + 1, m) && Bracketed(po, a, m + 1, j);
        BracketedBalance(po, a, i + 1, m);
        BracketedBalance(po, a, m + 1, j);
        forall x: nat | i < x <= j ensures Balance(po, a, i, x) == 1 + Balance(po, a, i + 1, x) {
          BalanceSplits(po, a, i, i + 1, x);
        }
        forall x: nat | m < x <= j ensures Balance(po, a, i, x) == Balance(po, a, m + 1, x) {
          BalanceSplits(po, a, i, m + 1, x);
          assert Balance(po, a, i, m + 1) == Balance(po, a, i, m) - 1;
        }
      } else {
        BracketedBalance(po, a, i + 1, j);
        forall x: nat | i < x <= j ensures Balance(po, a, i, x) == Balance(po, a, i + 1, x) {
          BalanceSplits(po, a, i, i + 1, x);
        }
      }
    }
  }

  /** Where the balance first comes back to zero after the lock at i. */
  lemma {:induction false} FirstReturn(po: seq<Label>, a: int, i: nat, j: nat, k: nat) returns (m: nat)
    requires i < k <= j <= |po| && Balance(po, a, i, j) == 0
    requires forall x: nat :: i < x <= k ==> Balance(po, a, i, x) > 0
    ensures k <= m < j && po[m] == Unlock(a) && Balance(po, a, i, m) == 1
    ensures forall x: nat :: i < x <= m ==> Balance(po, a, i, x) > 0
    decreases j - k
  {
    assert Balance(po, a, i, k) > 0 && k < j;
    assert Balance(po, a, i, k + 1) ==
      Balance(po, a, i, k) + if IsLock(po[k], a) then 1 else if IsUnlock(po[k], a) then -1 else 0;
    if Balance(po, a, i, k + 1) == 0 { return k; }
    m := FirstReturn(po, a, i, j, k + 1);
  }

  lemma {:induction false} BalanceBracketed(po: seq<Label>, a: int, i: nat, j: nat)
    requires i <= j <= |po| && Balance(po, a, i, j) == 0 && NeverBelow(po, a, i, j)
    ensures Bracketed(po, a, i, j)
    decreases j - i
  {
    if i < j {
      assert Balance(po, a, i, i + 1) >= 0 && Balance(po, a, i, i) == 0;
      if IsLock(po[i], a) {
        var m := FirstReturn(po, a, i, j, i + 1);
        assert Balance(po, a, i, m + 1) == 0;
        NeverBelowFrom(po, a, i, i + 1, m);
        BalanceBracketed(po, a, i + 1, m);
        NeverBelowFrom(po, a, i, m + 1, j);
        BalanceBracketed(po, a, m + 1, j);
      } else {
        NeverBelowFrom(po, a, i, i + 1, j);
        BalanceBracketed(po, a, i + 1, j);
      }
    }
  }

  lemma NeverBelowFrom(po: seq<Label>, a: int, i: nat, c: nat, j: nat)
    requires i <= c <= j <= |po|
    requires forall x: nat :: c <= x <= j ==> Balance(po, a, i, x) >= Balance(po, a, i, c)
    ensures NeverBelow(po, a, c, j) && Balance(po, a, c, j) == Balance(po, a, i, j) - Balance(po, a, i, c)
  {
    forall m: nat | c <= m <= j ensures Balance(po, a, c, m) == Balance(po, a, i, m) - Balance(po, a, i, c) {
      BalanceSplits(po, a, i, c, m);
    }
  }

  /** A lock is matched with an unlock exactly if what they enclose is bracketed. */
  lemma MatchedIsBracketed(po: seq<Label>, a: int, l: nat, u: nat)
    ensures Matched(po, a, l, u) <==>
      l < u < |po| && (po[l] == LockCas(a) || po[l] == TrylockCas(a)) && po[u] == Unlock(a) &&
      Bracketed(po, a, l + 1, u)
  {
    if l < u < |po| {
      if Bracketed(po, a, l + 1, u) { BracketedBalance(po, a, l + 1, u); }
      if Matched(po, a, l, u) { BalanceBracketed(po, a, l + 1, u); }
    }
  }

  /** Pairs are nested: a lock between a pair has its unlock between them, too. */
  lemma Nested(po: seq<Label>, a: int, l: nat, u: nat, k: nat, v: nat)
    requires Matched(po, a, l, u) && Matched(po, a, k, v) && l < k < u
    ensures v < u
  {
    BalanceSplits(po, a, l + 1, k + 1, u);
    assert Balance(po, a, l + 1, k + 1) == Balance(po, a, l + 1, k) + 1;
  }

  lemma OneUnlock(po: seq<Label>, a: int, l: nat, u: nat, v: nat)
    requires Matched(po, a, l, u) && Matched(po, a, l, v)
    ensures u == v
  {
    var x := if u < v then u else v;
    assert Balance(po, a, l + 1, x + 1) == Balance(po, a, l + 1, x) - 1;
  }

  lemma OneLock(po: seq<Label>, a: int, l: nat, k: nat, u: nat)
    requires Matched(po, a, l, u) && Matched(po, a, k, u)
    ensures l == k
  {
    if l < k { Nested(po, a, l, u, k, u); }
    if k < l { Nested(po, a, k, u, l, u); }
  }

  /** findMatchingUnlock: the unlock matched with lock l, if there is one. */
  method FindMatchingUnlock(po: seq<Label>, l: nat) returns (found: Option<nat>)
    requires l < |po| && (po[l].LockCas? || po[l].TrylockCas?)
    ensures forall u: nat :: found == Some(u) <==> Matched(po, po[l].addr, l, u)
  {
    var a := po[l].addr;
    var locLocks: seq<nat> := [];
    var k := l + 1;
    while k < |po|
      invariant l < k <= |po| && |locLocks| == Balance(po, a, l + 1, k) && NeverBelow(po, a, l + 1, k)
      invariant forall u: nat :: u < k ==> !Matched(po, a, l, u)
    {
      if IsLock(po[k], a) { locLocks := locLocks + [k]; }
      if IsUnlock(po[k], a) {
        if locLocks == [] {
          forall u: nat ensures Some(k) == Some(u) <==> Matched(po, a, l, u) {
            assert Matched(po, a, l, k);
            if Matched(po, a, l, u) { OneUnlock(po, a, l, k, u); }
          }
          return Some(k);
        }
        locLocks := locLocks[..|locLocks| - 1];
      }
      k := k + 1;
    }
    found := None;
  }

  /** findMatchingLock: the lock matched with unlock u, if there is one. */
  method FindMatchingLock(po: seq<Label>, u: nat) returns (found: Option<nat>)
    requires u < |po| && po[u].Unlock?
    ensures forall l: nat :: found == Some(l) <==> Matched(po, po[u].addr, l, u)
  {
    var a := po[u].addr;
    var locUnlocks: seq<nat> := [];
    var k: int := u - 1;
    while k >= 0
      invariant -1 <= k < u && |locUnlocks| == -Balance(po, a, k + 1, u)
      invariant NeverAbove(po, a, k + 1, u)
      invariant forall l: nat :: k < l ==> !Matched(po, a, l, u)
    {
      BalanceSplits(po, a, k, k + 1, u);
      assert Balance(po, a, k, k) == 0;
      if IsUnlock(po[k], a) { locUnlocks := locUnlocks + [k]; }
      if IsLock(po[k], a) {
        if locUnlocks == [] {
          BothEnds(po, a, k + 1, u);
          forall l: nat ensures Some(k) == Some(l) <==> Matched(po, a, l, u) {
            if Matched(po, a, l, u) { OneLock(po, a, k, l, u); }
          }
          return Some(k);
        }
        locUnlocks := locUnlocks[..|locUnlocks| - 1];
      }
      k := k - 1;
    }
    found := None;
  }

  /** Each of the two searches undoes the other. */
  method SearchesAreInverse(po: seq<Label>, l: nat, u: nat) returns (forwards: Option<nat>, backwards: Option<nat>)
    requires l < |po| && (po[l].LockCas? || po[l].TrylockCas?)
    requires u < |po| && po[u].Unlock?
    ensures forwards == Some(u) <==> backwards == Some(l)
  {
    forwards := FindMatchingUnlock(po, l);
    backwards := FindMatchingLock(po, u);
  }
}
