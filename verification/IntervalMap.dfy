/** The aggregating interval map of genmc/genmc/ADT/IntervalMap.hpp. The ordered map of the source is the sorted
    sequence of its entries, an iterator is an index into it, and keys are unbounded integers. */
module IntervalMaps {

  /** The operations a value type supplies. `plus(n, a, b)` is what `a += b` leaves in a; it may differ from one
      aggregation to the next (n counts them), so that values whose `+=` also depends on how they are stored fit. */
  datatype Ops<!V> = Ops(id: V, eq: (V, V) -> bool, plus: (nat, V, V) -> V)

  /** The equality of the values is an equivalence. */
  ghost predicate Lawful<V(!new)>(ops: Ops<V>) {
    Symmetric(ops) && forall a: V, b: V, c: V :: ops.eq(a, b) && ops.eq(b, c) ==> ops.eq(a, c)
  }

  ghost predicate Symmetric<V(!new)>(ops: Ops<V>) {
    (forall a: V :: ops.eq(a, a)) && forall a: V, b: V :: ops.eq(a, b) ==> ops.eq(b, a)
  }

  lemma NotEqualThrough<V(!new)>(ops: Ops<V>, a: V, b: V, c: V)
    requires Lawful(ops) && ops.eq(a, b) && !ops.eq(b, c)
    ensures !ops.eq(a, c) && !ops.eq(c, a)
  {
  }

  datatype Cell<V> = Cell(key: int, val: V)

  ghost predicate Sorted<V>(s: seq<Cell<V>>) {
    forall i, j :: 0 <= i < j < |s| ==> s[i].key < s[j].key
  }

  /** Number of keys up to p, the index std::map::upper_bound leads to. */
  function CountUpTo<V>(s: seq<Cell<V>>, p: int): (k: nat)
    ensures k <= |s|
    ensures k > 0 ==> s[k - 1].key <= p
    ensures forall i :: k <= i < |s| ==> p < s[i].key
  {
    if |s| == 0 then 0
    else if s[|s| - 1].key <= p then |s|
    else CountUpTo(s[..|s| - 1], p)
  }

  /** The point function the entries stand for. */
  function Raw<V>(ops: Ops<V>, s: seq<Cell<V>>, p: int): V {
    var k := CountUpTo(s, p);
    if k == 0 then ops.id else s[k - 1].val
  }

  lemma RawAt<V>(ops: Ops<V>, s: seq<Cell<V>>, k: nat, p: int)
    requires Sorted(s) && k <= |s|
    requires (k > 0 ==> s[k - 1].key <= p) && (k < |s| ==> p < s[k].key)
    ensures Raw(ops, s, p) == if k == 0 then ops.id else s[k - 1].val
  {
    forall i | 0 <= i < k ensures s[i].key <= p { assert i < k - 1 ==> s[i].key < s[k - 1].key; }
    forall i | k <= i < |s| ensures p < s[i].key { assert k < i ==> s[k].key < s[i].key; }
  }

  /** No entry before index n equals the one before it, and the first is not the identity. */
  ghost predicate StepsTo<V>(ops: Ops<V>, s: seq<Cell<V>>, n: nat)
    requires n <= |s|
  {
    && (n > 0 ==> !ops.eq(s[0].val, ops.id))
    && forall i :: 0 <= i < n - 1 ==> !ops.eq(s[i].val, s[i + 1].val)
  }

  ghost predicate Steps<V>(ops: Ops<V>, s: seq<Cell<V>>) { StepsTo(ops, s, |s|) }

  /** What every reachable map satisfies; the last entry, which reaches to infinity, is the identity. */
  ghost predicate Canonical<V>(ops: Ops<V>, s: seq<Cell<V>>) {
    Sorted(s) && Steps(ops, s) && (|s| > 0 ==> ops.eq(s[|s| - 1].val, ops.id))
  }

  ghost predicate SameAt<V>(ops: Ops<V>, s: seq<Cell<V>>, t: seq<Cell<V>>, p: int) {
    ops.eq(Raw(ops, s, p), Raw(ops, t, p))
  }

  /** Maps that stand for the same point function have the same entries. */
  lemma {:induction false} SameFunctionSameEntries<V(!new)>(ops: Ops<V>, s: seq<Cell<V>>, t: seq<Cell<V>>)
    requires Lawful(ops) && Sorted(s) && Steps(ops, s) && Sorted(t) && Steps(ops, t)
    requires forall p: int :: SameAt(ops, s, t, p)
    ensures |s| == |t|
    ensures forall i :: 0 <= i < |s| ==> s[i].key == t[i].key && ops.eq(s[i].val, t[i].val)
  {
    SameLastKey(ops, s, t);
    if |s| > 0 {
      var s', t' := s[..|s| - 1], t[..|t| - 1];
      SameWithoutLast(ops, s, t, s', t');
      SameFunctionSameEntries(ops, s', t');
      forall i | 0 <= i < |s| ensures s[i].key == t[i].key && ops.eq(s[i].val, t[i].val) {
        if i < |s| - 1 { assert s'[i] == s[i] && t'[i] == t[i]; }
      }
    }
  }

  lemma SameLastKey<V(!new)>(ops: Ops<V>, s: seq<Cell<V>>, t: seq<Cell<V>>)
    requires Lawful(ops) && Sorted(s) && Steps(ops, s) && Sorted(t) && Steps(ops, t)
    requires forall p: int :: SameAt(ops, s, t, p)
    ensures |s| == 0 <==> |t| == 0
    ensures |s| > 0 ==> s[|s| - 1].key == t[|t| - 1].key
  {
    if |s| > 0 && (|t| == 0 || s[|s| - 1].key > t[|t| - 1].key) {
      LastKeyIsSeen(ops, s, t);
    }
    if |t| > 0 && (|s| == 0 || t[|t| - 1].key > s[|s| - 1].key) {
      forall p: int ensures SameAt(ops, t, s, p) { assert SameAt(ops, s, t, p); }
      LastKeyIsSeen(ops, t, s);
    }
  }

  lemma SameWithoutLast<V>(ops: Ops<V>, s: seq<Cell<V>>, t: seq<Cell<V>>, s': seq<Cell<V>>, t': seq<Cell<V>>)
    requires Sorted(s) && Sorted(t) && |s| > 0 && |t| > 0 && s[|s| - 1].key == t[|t| - 1].key
    requires s' == s[..|s| - 1] && t' == t[..|t| - 1]
    requires forall p: int :: SameAt(ops, s, t, p)
    ensures ops.eq(s[|s| - 1].val, t[|t| - 1].val)
    ensures forall p: int :: SameAt(ops, s', t', p)
  {
    var a := s[|s| - 1].key;
    RawAt(ops, s, |s|, a);
    RawAt(ops, t, |t|, a);
    assert SameAt(ops, s, t, a) && SameAt(ops, s, t, a - 1);
    forall p: int ensures SameAt(ops, s', t', p) {
      assert SameAt(ops, s, t, p);
      DropLast(ops, s, p);
      DropLast(ops, t, p);
    }
  }

  /** Without its last entry a map reads as it did just before that entry. */
  lemma DropLast<V>(ops: Ops<V>, s: seq<Cell<V>>, p: int)
    requires Sorted(s) && |s| > 0
    ensures Raw(ops, s[..|s| - 1], p) ==
      if p < s[|s| - 1].key then Raw(ops, s, p) else Raw(ops, s, s[|s| - 1].key - 1)
  {
    var n := |s|;
    var t := s[..n - 1];
    if p < s[n - 1].key {
    } else {
      if n > 1 { assert s[n - 2].key < s[n - 1].key; }
      RawAt(ops, t, n - 1, p);
      RawAt(ops, s, n - 1, s[n - 1].key - 1);
    }
  }

  /** A last entry beyond all entries of the other map is visible as a step there. */
  lemma LastKeyIsSeen<V(!new)>(ops: Ops<V>, s: seq<Cell<V>>, t: seq<Cell<V>>)
    requires Lawful(ops) && Sorted(s) && Steps(ops, s) && Sorted(t)
    requires |s| > 0 && (|t| > 0 ==> t[|t| - 1].key < s[|s| - 1].key)
    ensures exists p: int :: !SameAt(ops, s, t, p)
  {
    var n, m := |s|, |t|;
    var a := s[n - 1].key;
    if n > 1 { assert s[n - 2].key < a; }
    RawAt(ops, s, n, a);
    RawAt(ops, s, n - 1, a - 1);
    RawAt(ops, t, m, a);
    RawAt(ops, t, m, a - 1);
    assert !SameAt(ops, s, t, a) || !SameAt(ops, s, t, a - 1);
  }

  function Insert<V>(s: seq<Cell<V>>, k: nat, c: Cell<V>): seq<Cell<V>>
    requires k <= |s|
  {
    s[..k] + [c] + s[k..]
  }

  lemma InsertIndex<V>(s: seq<Cell<V>>, k: nat, c: Cell<V>)
    requires k <= |s|
    ensures var t := Insert(s, k, c);
      && |t| == |s| + 1 && t[k] == c && (forall i :: 0 <= i < k ==> t[i] == s[i])
      && forall i :: k < i < |t| ==> t[i] == s[i - 1]
  {
  }

  /** The first u entries are those with keys up to p. */
  ghost predicate Place<V>(s: seq<Cell<V>>, p: int, u: nat) {
    u <= |s| && (u > 0 ==> s[u - 1].key <= p) && (u < |s| ==> p < s[u].key)
  }

  function InForce<V>(ops: Ops<V>, s: seq<Cell<V>>, u: nat): V
    requires u <= |s|
  {
    if u == 0 then ops.id else s[u - 1].val
  }

  lemma InsertSorted<V>(s: seq<Cell<V>>, k: nat, c: Cell<V>)
    requires Sorted(s) && k <= |s| && (k > 0 ==> s[k - 1].key < c.key) && (k < |s| ==> c.key < s[k].key)
    ensures Sorted(Insert(s, k, c))
  {
    InsertIndex(s, k, c);
    var t := Insert(s, k, c);
    forall i, j | 0 <= i < j < |t| ensures t[i].key < t[j].key {
      assert i < k - 1 ==> s[i].key < s[k - 1].key;
      assert k < j - 1 ==> s[k].key < s[j - 1].key;
      if i > k { assert s[i - 1].key < s[j - 1].key; }
    }
  }

  lemma InsertPlace<V>(ops: Ops<V>, s: seq<Cell<V>>, k: nat, key: int, p: int, u: nat)
    requires k <= |s| && (k > 0 ==> s[k - 1].key < key) && (k < |s| ==> key < s[k].key) && Place(s, p, u)
    requires (u < k ==> p < key) && (u > k ==> key <= p)
    ensures var t, w := Insert(s, k, Cell(key, InForce(ops, s, k))), if u > k || (u == k && key <= p) then u + 1 else u;
      Place(t, p, w) && InForce(ops, t, w) == InForce(ops, s, u)
  {
    InsertIndex(s, k, Cell(key, InForce(ops, s, k)));
  }

  /** An entry that repeats the value in force changes nothing. */
  lemma InsertCopy<V>(ops: Ops<V>, s: seq<Cell<V>>, k: nat, key: int, p: int)
    requires Sorted(s) && k <= |s|
    requires (k > 0 ==> s[k - 1].key < key) && (k < |s| ==> key < s[k].key)
    ensures var t := Insert(s, k, Cell(key, InForce(ops, s, k))); Sorted(t) && Raw(ops, t, p) == Raw(ops, s, p)
  {
    InsertSorted(s, k, Cell(key, InForce(ops, s, k)));
    InsertReads(ops, s, k, key, p);
  }

  lemma InsertReads<V>(ops: Ops<V>, s: seq<Cell<V>>, k: nat, key: int, p: int)
    requires Sorted(s) && k <= |s| && Sorted(Insert(s, k, Cell(key, InForce(ops, s, k))))
    requires (k > 0 ==> s[k - 1].key < key) && (k < |s| ==> key < s[k].key)
    ensures Raw(ops, Insert(s, k, Cell(key, InForce(ops, s, k))), p) == Raw(ops, s, p)
  {
    var u := CountUpTo(s, p);
    assert u < k - 1 ==> s[u].key < s[k - 1].key;
    assert k < u - 1 ==> s[k].key < s[u - 1].key;
    InsertPlace(ops, s, k, key, p, u);
    RawAt(ops, Insert(s, k, Cell(key, InForce(ops, s, k))), if u > k || (u == k && key <= p) then u + 1 else u, p);
  }

  datatype Change<V> = Aggregate(val: V) | Reset

  /** `now` is what the change makes of a point that held `was`. */
  ghost predicate Took<V>(ops: Ops<V>, change: Change<V>, was: V, now: V) {
    match change
    case Aggregate(val) => exists n: nat :: ops.eq(now, ops.plus(n, was, val))
    case Reset => ops.eq(now, ops.id)
  }

  /** At p, the function of s is that of `was` with the change applied to [start, upto). */
  ghost predicate Rewritten<V>(ops: Ops<V>, was: seq<Cell<V>>, s: seq<Cell<V>>, change: Change<V>,
                               start: int, upto: int, p: int) {
    if start <= p < upto then Took(ops, change, Raw(ops, was, p), Raw(ops, s, p))
    else ops.eq(Raw(ops, s, p), Raw(ops, was, p))
  }

  ghost predicate RewrittenOn<V>(ops: Ops<V>, was: seq<Cell<V>>, s: seq<Cell<V>>, change: Change<V>, start: int,
                                 end: int)
  {
    forall p: int :: Rewritten(ops, was, s, change, start, end, p)
  }

  /** Between two rounds of the rewriting loop: the entries before `it` are canonical, and from index `from` on
      no entry equals the next. */
  ghost predicate Shape<V>(ops: Ops<V>, s: seq<Cell<V>>, it: nat, from: nat) {
    && Sorted(s) && it < |s|
    && StepsTo(ops, s, it)
    && (forall i :: from <= i < |s| - 1 ==> !ops.eq(s[i].val, s[i + 1].val))
    && ops.eq(s[|s| - 1].val, ops.id)
  }

  /** The points before the key of `it` have been rewritten, those from there on are as they were. */
  ghost predicate Done<V>(ops: Ops<V>, was: seq<Cell<V>>, s: seq<Cell<V>>, it: nat, change: Change<V>, start: int)
    requires it < |s|
  {
    && start <= s[it].key
    && (forall p: int :: Rewritten(ops, was, s, change, start, s[it].key, p))
    && (forall p: int :: s[it].key <= p ==> Raw(ops, s, p) == Raw(ops, was, p))
  }

  ghost function Without<V>(s: seq<Cell<V>>, it: nat): seq<Cell<V>>
    requires it < |s|
  {
    s[..it] + s[it + 1..]
  }

  lemma WithoutIndex<V>(s: seq<Cell<V>>, it: nat)
    requires it < |s|
    ensures var t := Without(s, it);
      && |t| == |s| - 1 && (forall i :: 0 <= i < it ==> t[i] == s[i])
      && (forall i :: it <= i < |t| ==> t[i] == s[i + 1])
  {
  }

  /** Entry `it` repeats what is in force before it. */
  predicate Redundant<V>(ops: Ops<V>, s: seq<Cell<V>>, it: nat)
    requires it < |s|
  {
    if it == 0 then ops.eq(s[it].val, ops.id) else ops.eq(s[it - 1].val, s[it].val)
  }

  lemma WithoutSorted<V>(s: seq<Cell<V>>, it: nat)
    requires Sorted(s) && it < |s|
    ensures Sorted(Without(s, it))
  {
    WithoutIndex(s, it);
    var t := Without(s, it);
    forall i, j | 0 <= i < j < |t| ensures t[i].key < t[j].key {
      assert s[if i < it then i else i + 1].key < s[if j < it then j else j + 1].key;
    }
  }

  lemma WithoutPlace<V>(ops: Ops<V>, s: seq<Cell<V>>, it: nat, p: int, u: nat)
    requires it < |s| && Place(s, p, u) && (it > 0 ==> s[it - 1].key < s[it].key) && (u <= it ==> p < s[it].key)
    requires it + 1 < |s| ==> s[it].key < s[it + 1].key
    ensures var t, w := Without(s, it), if u <= it then u else u - 1;
      Place(t, p, w) && InForce(ops, t, w) == InForce(ops, s, if u == it + 1 then it else u)
  {
    WithoutIndex(s, it);
  }

  lemma EraseRedundant<V(!new)>(ops: Ops<V>, s: seq<Cell<V>>, it: nat, p: int)
    requires Symmetric(ops) && Sorted(s) && it < |s| && Redundant(ops, s, it)
    ensures Sorted(Without(s, it))
    ensures ops.eq(Raw(ops, Without(s, it), p), Raw(ops, s, p))
    ensures p < s[it].key || (it + 1 < |s| && s[it + 1].key <= p) ==> Raw(ops, Without(s, it), p) == Raw(ops, s, p)
  {
    WithoutSorted(s, it);
    WithoutReads(ops, s, it, p);
  }

  lemma WithoutReads<V>(ops: Ops<V>, s: seq<Cell<V>>, it: nat, p: int)
    requires Sorted(s) && it < |s| && Sorted(Without(s, it))
    ensures Raw(ops, Without(s, it), p) ==
      if s[it].key <= p && (it + 1 == |s| || p < s[it + 1].key) then InForce(ops, s, it) else Raw(ops, s, p)
    ensures s[it].key <= p && (it + 1 == |s| || p < s[it + 1].key) ==> Raw(ops, s, p) == s[it].val
  {
    var u := CountUpTo(s, p);
    assert it > 0 ==> s[it - 1].key < s[it].key;
    assert it + 1 < |s| ==> s[it].key < s[it + 1].key;
    if s[it].key <= p && (it + 1 == |s| || p < s[it + 1].key) {
      RawAt(ops, s, it + 1, p);
      WithoutPlace(ops, s, it, p, it + 1);
      RawAt(ops, Without(s, it), it, p);
    } else {
      assert u < it ==> s[u].key < s[it].key;
      assert u > it + 1 && it + 1 < |s| ==> s[it + 1].key <= s[u - 1].key;
      WithoutPlace(ops, s, it, p, u);
      RawAt(ops, Without(s, it), if u <= it then u else u - 1, p);
    }
  }

  lemma InsertSteps<V>(ops: Ops<V>, s: seq<Cell<V>>, it: nat, c: Cell<V>, from: nat)
    requires it <= |s| && it <= from <= it + 1 && (it < |s| && from <= it ==> !ops.eq(c.val, s[it].val))
    requires forall i :: it <= i < |s| - 1 ==> !ops.eq(s[i].val, s[i + 1].val)
    ensures var t := Insert(s, it, c); forall i :: from <= i < |t| - 1 ==> !ops.eq(t[i].val, t[i + 1].val)
  {
    InsertIndex(s, it, c);
    var t := Insert(s, it, c);
    forall i | from <= i < |t| - 1 ensures !ops.eq(t[i].val, t[i + 1].val) {
      if i > it { assert !ops.eq(s[i - 1].val, s[(i - 1) + 1].val); }
    }
  }

  lemma OpenedShape<V(!new)>(ops: Ops<V>, s: seq<Cell<V>>, it: nat, point: int)
    requires Symmetric(ops) && Canonical(ops, s) && it <= |s|
    requires (it > 0 ==> s[it - 1].key < point) && (it < |s| ==> point < s[it].key)
    ensures Shape(ops, Insert(s, it, Cell(point, InForce(ops, s, it))), it, it)
  {
    var c := Cell(point, InForce(ops, s, it));
    InsertCopy(ops, s, it, point, 0);
    InsertIndex(s, it, c);
    assert it > 0 && it < |s| ==> !ops.eq(s[it - 1].val, s[(it - 1) + 1].val);
    InsertSteps(ops, s, it, c, it);
  }

  /** Splitting at the far end of the rewritten interval, when no entry starts there. */
  lemma SplitShape<V(!new)>(ops: Ops<V>, s: seq<Cell<V>>, it: nat, end: int)
    requires Shape(ops, s, it, it) && s[it].key < end && (it + 1 == |s| || s[it + 1].key > end)
    ensures Shape(ops, Insert(s, it + 1, Cell(end, s[it].val)), it, it + 1)
  {
    InsertCopy(ops, s, it + 1, end, 0);
    InsertIndex(s, it + 1, Cell(end, s[it].val));
    assert it + 1 < |s| ==> !ops.eq(s[it].val, s[it + 1].val);
    InsertSteps(ops, s, it + 1, Cell(end, s[it].val), it + 1);
  }

  lemma SplitDone<V(!new)>(ops: Ops<V>, was: seq<Cell<V>>, s: seq<Cell<V>>, it: nat, change: Change<V>,
                            start: int, end: int)
    requires Sorted(s) && it < |s| && s[it].key < end && (it + 1 == |s| || s[it + 1].key > end)
    requires Done(ops, was, s, it, change, start)
    ensures Done(ops, was, Insert(s, it + 1, Cell(end, s[it].val)), it, change, start)
  {
    var t := Insert(s, it + 1, Cell(end, s[it].val));
    forall p: int ensures Raw(ops, t, p) == Raw(ops, s, p) { InsertCopy(ops, s, it + 1, end, p); }
    forall p: int ensures Rewritten(ops, was, t, change, start, t[it].key, p) {
      assert Rewritten(ops, was, s, change, start, s[it].key, p);
    }
  }

  /** One round: entry `it` takes the change, and stays unless it became redundant. */
  lemma RoundShape<V(!new)>(ops: Ops<V>, s: seq<Cell<V>>, it: nat, v: V)
    requires Shape(ops, s, it, it + 1) && it + 1 < |s|
    ensures var t := s[it := Cell(s[it].key, v)];
      if Redundant(ops, t, it) then Shape(ops, Without(t, it), it, it) else Shape(ops, t, it + 1, it + 1)
  {
    var t := s[it := Cell(s[it].key, v)];
    if Redundant(ops, t, it) {
      var e := Without(t, it);
      WithoutSorted(t, it);
      WithoutIndex(t, it);
      forall i | it <= i < |e| - 1 ensures !ops.eq(e[i].val, e[i + 1].val) {
        assert !ops.eq(s[i + 1].val, s[(i + 1) + 1].val);
      }
    }
  }

  lemma RoundDone<V(!new)>(ops: Ops<V>, was: seq<Cell<V>>, s: seq<Cell<V>>, it: nat, change: Change<V>,
                            start: int, v: V)
    requires Lawful(ops) && Sorted(s) && it + 1 < |s|
    requires Done(ops, was, s, it, change, start) && Took(ops, change, s[it].val, v)
    ensures var t := s[it := Cell(s[it].key, v)];
      if Redundant(ops, t, it) then Done(ops, was, Without(t, it), it, change, start)
      else Done(ops, was, t, it + 1, change, start)
  {
    var key := s[it + 1].key;
    var t := s[it := Cell(s[it].key, v)];
    var e := if Redundant(ops, t, it) then Without(t, it) else t;
    forall p: int
      ensures Rewritten(ops, was, e, change, start, key, p)
      ensures key <= p ==> Raw(ops, e, p) == Raw(ops, was, p)
    {
      assert Rewritten(ops, was, s, change, start, s[it].key, p);
      RoundPoint(ops, s, it, v, p);
      if s[it].key <= p < key { TookSame(ops, change, s[it].val, v, Raw(ops, e, p)); }
    }
  }

  /** A round changes what is read at the points of entry `it` only. */
  lemma RoundPoint<V(!new)>(ops: Ops<V>, s: seq<Cell<V>>, it: nat, v: V, p: int)
    requires Lawful(ops) && Sorted(s) && it + 1 < |s|
    ensures var t := s[it := Cell(s[it].key, v)];
      var e := if Redundant(ops, t, it) then Without(t, it) else t;
      if s[it].key <= p < s[it + 1].key then Raw(ops, s, p) == s[it].val && ops.eq(Raw(ops, e, p), v)
      else Raw(ops, e, p) == Raw(ops, s, p)
  {
    var t := s[it := Cell(s[it].key, v)];
    RawAt(ops, t, CountUpTo(s, p), p);
    if Redundant(ops, t, it) { EraseRedundant(ops, t, it, p); }
    if s[it].key <= p < s[it + 1].key { RawAt(ops, s, it + 1, p); }
  }

  lemma TookSame<V(!new)>(ops: Ops<V>, change: Change<V>, was: V, v: V, w: V)
    requires Lawful(ops) && Took(ops, change, was, v) && ops.eq(w, v)
    ensures Took(ops, change, was, w)
  {
    if change.Aggregate? {
      var n: nat :| ops.eq(v, ops.plus(n, was, change.val));
      assert ops.eq(w, ops.plus(n, was, change.val));
    }
  }

  /** When the loop reaches the end of the interval, dropping a redundant entry there makes the map canonical. */
  lemma Finish<V(!new)>(ops: Ops<V>, was: seq<Cell<V>>, s: seq<Cell<V>>, it: nat, change: Change<V>, start: int)
    requires Lawful(ops) && Shape(ops, s, it, it) && Done(ops, was, s, it, change, start)
    ensures var t := if Redundant(ops, s, it) then Without(s, it) else s;
      Canonical(ops, t) && forall p: int :: Rewritten(ops, was, t, change, start, s[it].key, p)
  {
    var t := if Redundant(ops, s, it) then Without(s, it) else s;
    forall p: int ensures Rewritten(ops, was, t, change, start, s[it].key, p) {
      assert Rewritten(ops, was, s, change, start, s[it].key, p);
      if Redundant(ops, s, it) { EraseRedundant(ops, s, it, p); }
    }
    FinishShape(ops, s, it);
  }

  lemma FinishShape<V(!new)>(ops: Ops<V>, s: seq<Cell<V>>, it: nat)
    requires Lawful(ops) && Shape(ops, s, it, it)
    ensures Canonical(ops, if Redundant(ops, s, it) then Without(s, it) else s)
  {
    if it + 1 < |s| && Redundant(ops, s, it) {
      NotEqualThrough(ops, InForce(ops, s, it), s[it].val, s[it + 1].val);
    }
    FinishSteps(ops, s, it);
  }

  lemma WithoutSteps<V>(ops: Ops<V>, s: seq<Cell<V>>, it: nat)
    requires it < |s| && StepsTo(ops, s, it) && (it + 1 < |s| ==> !ops.eq(InForce(ops, s, it), s[it + 1].val))
    requires it == 0 && |s| > 1 ==> !ops.eq(s[1].val, ops.id)
    requires forall i :: it <= i < |s| - 1 ==> !ops.eq(s[i].val, s[i + 1].val)
    ensures Steps(ops, Without(s, it))
  {
    WithoutIndex(s, it);
    var t := Without(s, it);
    forall i | 0 <= i < |t| - 1 ensures !ops.eq(t[i].val, t[i + 1].val) {
      if i < it - 1 {
        assert !ops.eq(s[i].val, s[i + 1].val);
      } else if i >= it {
        assert !ops.eq(s[i + 1].val, s[(i + 1) + 1].val);
      }
    }
  }

  lemma FinishSteps<V(!new)>(ops: Ops<V>, s: seq<Cell<V>>, it: nat)
    requires Shape(ops, s, it, it)
    requires Redundant(ops, s, it) && it + 1 == |s| && it > 0 ==> ops.eq(s[it - 1].val, ops.id)
    requires Redundant(ops, s, it) && it + 1 < |s| ==>
      !ops.eq(InForce(ops, s, it), s[it + 1].val) && !ops.eq(s[it + 1].val, InForce(ops, s, it))
    ensures Canonical(ops, if Redundant(ops, s, it) then Without(s, it) else s)
  {
    if Redundant(ops, s, it) {
      WithoutIndex(s, it);
      WithoutSorted(s, it);
      WithoutSteps(ops, s, it);
    }
  }

  /** Entry i is a segment with a value, one that iteration visits. */
  ghost predicate Live<V>(ops: Ops<V>, s: seq<Cell<V>>, i: nat) {
    i < |s| && !ops.eq(s[i].val, ops.id)
  }

  /** The segment of entry i reaches beyond p. */
  ghost predicate EndsAfter<V>(s: seq<Cell<V>>, i: nat, p: int)
    requires i < |s|
  {
    i + 1 == |s| || p < s[i + 1].key
  }

  /** The segment of entry i has a value and shares a point with [start, end). */
  ghost predicate Overlaps<V>(ops: Ops<V>, s: seq<Cell<V>>, i: nat, start: int, end: int) {
    Live(ops, s, i) && start < end && s[i].key < end && EndsAfter(s, i, start)
  }

  class IntervalMap<V(!new)> {
    const ops: Ops<V>
    var entries: seq<Cell<V>>
    /** Aggregations done so far. */
    var ticks: nat

    ghost predicate Valid()
      reads this
    {
      Lawful(ops) && Canonical(ops, entries)
    }

    /** The point function of the map. */
    function At(p: int): V
      reads this
    {
      Raw(ops, entries, p)
    }

    constructor (ops: Ops<V>)
      requires Lawful(ops)
      ensures Valid() && this.ops == ops && entries == []
    {
      this.ops, entries, ticks := ops, [], 0;
    }

    method Clear()
      requires Lawful(ops)
      modifies this
      ensures Valid() && entries == []
    {
      entries := [];
    }

    /** Makes sure an entry starts at `point`, without changing the function. */
    method CreateSplit(point: int) returns (it: nat)
      requires Valid()
      modifies this`entries
      ensures Shape(ops, entries, it, it) && entries[it].key == point
      ensures forall p :: At(p) == old(At(p))
    {
      var ub := CountUpTo(entries, point);
      if ub > 0 && entries[ub - 1].key == point {
        it := ub - 1;
      } else {
        it := ub;
        var prevVal := if it == 0 then ops.id else entries[it - 1].val;
        entries := Insert(entries, it, Cell(point, prevVal));
        forall p ensures At(p) == old(At(p)) { InsertCopy(ops, old(entries), it, point, p); }
        OpenedShape(ops, old(entries), it, point);
      }
    }

    /** Removes entry `it` if it repeats what is in force before it. */
    method Canonicalize(it: nat) returns (erased: bool)
      requires it < |entries|
      modifies this`entries
      ensures erased <==> Redundant(ops, old(entries), it)
      ensures entries == if erased then Without(old(entries), it) else old(entries)
    {
      erased := Redundant(ops, entries, it);
      if erased { entries := entries[..it] + entries[it + 1..]; }
    }

    /** Splits the segment of `it` at `end` if it extends beyond. */
    method SplitAtEnd(it: nat, end: int, change: Change<V>, ghost was: seq<Cell<V>>, ghost start: int)
      requires Lawful(ops) && Shape(ops, entries, it, it) && Done(ops, was, entries, it, change, start)
      requires entries[it].key < end
      modifies this`entries
      ensures Shape(ops, entries, it, it + 1) && Done(ops, was, entries, it, change, start)
      ensures it + 1 < |entries| && entries[it + 1].key <= end && entries[it] == old(entries)[it]
    {
      if it + 1 == |entries| || entries[it + 1].key > end {
        SplitShape(ops, entries, it, end);
        SplitDone(ops, was, entries, it, change, start, end);
        entries := Insert(entries, it + 1, Cell(end, entries[it].val));
      }
    }

    /** Writes entry `it`, drops it again if it became redundant, and moves on to the next one. */
    method WriteEntry(it: nat, v: V, change: Change<V>, ghost was: seq<Cell<V>>, ghost start: int) returns (next: nat)
      requires Lawful(ops) && Shape(ops, entries, it, it + 1) && Done(ops, was, entries, it, change, start)
      requires it + 1 < |entries| && Took(ops, change, entries[it].val, v)
      modifies this`entries
      ensures Shape(ops, entries, next, next) && Done(ops, was, entries, next, change, start)
      ensures entries[next].key == old(entries)[it + 1].key
    {
      RoundShape(ops, entries, it, v);
      RoundDone(ops, was, entries, it, change, start, v);
      entries := entries[it := Cell(entries[it].key, v)];
      var erased := Canonicalize(it);
      next := if erased then it else it + 1;
    }

    /** The loop that `add` and `erase` share: applies the change to every segment in [start, end). */
    method Rewrite(start: int, end: int, change: Change<V>)
      requires Valid() && start < end
      modifies this
      ensures Valid()
      ensures RewrittenOn(ops, old(entries), entries, change, start, end)
    {
      ghost var was := entries;
      var it: nat := CreateSplit(start);
      forall p: int
        ensures Rewritten(ops, was, entries, change, start, start, p) && Raw(ops, entries, p) == Raw(ops, was, p)
      {
        assert At(p) == old(At(p));
      }
      while it < |entries| && entries[it].key < end
        invariant Shape(ops, entries, it, it) && entries[it].key <= end
        invariant Done(ops, was, entries, it, change, start)
        decreases end - (if it < |entries| then entries[it].key else end)
      {
        SplitAtEnd(it, end, change, was, start);
        var held := entries[it].val;
        var v := match change
          case Aggregate(val) => ops.plus(ticks, held, val)
          case Reset => ops.id;
        ticks := ticks + 1;
        assert Took(ops, change, held, v);
        it := WriteEntry(it, v, change, was, start);
      }
      assert it < |entries| && entries[it].key == end;
      Finish(ops, was, entries, it, change, start);
      var erased := Canonicalize(it);
    }

    /** Aggregates val into exactly the points of [start, end). */
    method Add(start: int, end: int, val: V)
      requires Valid()
      modifies this
      ensures Valid()
      ensures start >= end || ops.eq(val, ops.id) ==> entries == old(entries)
      ensures start < end && !ops.eq(val, ops.id) ==>
        RewrittenOn(ops, old(entries), entries, Aggregate(val), start, end)
      ensures start < end && !ops.eq(val, ops.id) ==> forall p: int ::
        if start <= p < end then Took(ops, Aggregate(val), old(At(p)), At(p)) else ops.eq(At(p), old(At(p)))
    {
      if start >= end || ops.eq(val, ops.id) { return; }
      ghost var was := entries;
      Rewrite(start, end, Aggregate(val));
      forall p: int
        ensures if start <= p < end then Took(ops, Aggregate(val), old(At(p)), At(p)) else ops.eq(At(p), old(At(p)))
      {
        assert Rewritten(ops, was, entries, Aggregate(val), start, end, p);
      }
    }

    /** Sets exactly the points of [start, end) to the identity. */
    method Erase(start: int, end: int)
      requires Valid()
      modifies this
      ensures Valid()
      ensures start >= end ==> entries == old(entries)
      ensures start < end ==> RewrittenOn(ops, old(entries), entries, Reset, start, end)
      ensures start < end ==> forall p: int :: ops.eq(At(p), if start <= p < end then ops.id else old(At(p)))
    {
      if start >= end { return; }
      ghost var was := entries;
      Rewrite(start, end, Reset);
      forall p: int ensures ops.eq(At(p), if start <= p < end then ops.id else old(At(p))) {
        assert Rewritten(ops, was, entries, Reset, start, end, p);
      }
    }

    /** Index of the segment with a value that covers `point`, or the number of entries. */
    method FindInternal(point: int) returns (it: nat)
      requires Valid()
      ensures it == |entries| || (Live(ops, entries, it) && entries[it].key <= point && EndsAfter(entries, it, point))
      ensures it == |entries| <==> ops.eq(At(point), ops.id)
      ensures it < |entries| ==> entries[it].val == At(point)
    {
      var ub := CountUpTo(entries, point);
      if ub > 0 && !ops.eq(entries[ub - 1].val, ops.id) { return ub - 1; }
      return |entries|;
    }

    /** operator[]: the value in force at `point`. */
    method Get(point: int) returns (v: V)
      requires Valid()
      ensures ops.eq(v, At(point))
    {
      var it := FindInternal(point);
      v := if it == |entries| then ops.id else entries[it].val;
    }

    /** Moves an iterator on to the next segment with a value. */
    method SkipIdentity(from: nat) returns (it: nat)
      requires from <= |entries|
      ensures from <= it <= |entries| && (it < |entries| ==> Live(ops, entries, it))
      ensures forall j :: from <= j < it ==> !Live(ops, entries, j)
    {
      it := from;
      while it < |entries| && ops.eq(entries[it].val, ops.id)
        invariant from <= it <= |entries|
        invariant forall j :: from <= j < it ==> !Live(ops, entries, j)
      {
        it := it + 1;
      }
    }

    /** The first segment with a value that overlaps or follows [start, end). */
    method LowerBound(start: int, end: int) returns (it: nat)
      requires Valid()
      ensures it <= |entries| && (it < |entries| ==> Live(ops, entries, it))
      ensures forall j :: 0 <= j < it && Live(ops, entries, j) && start < end ==> !EndsAfter(entries, j, start)
      ensures it < |entries| ==> EndsAfter(entries, it, start) && start < end
      ensures start >= end ==> it == |entries|
    {
      if start >= end { return |entries|; }
      it := CountUpTo(entries, start);
      if it > 0 { it := it - 1; }
      // The segment reached contains start or follows it, so the scan for one that ends after start stops here.
      assert it < |entries| ==> EndsAfter(entries, it, start);
      assert forall j :: 0 <= j < it ==> !EndsAfter(entries, j, start);
      ghost var from := it;
      it := SkipIdentity(it);
      assert it < |entries| && from < it ==> entries[from].key < entries[it].key;
    }

    /** The first segment with a value strictly after [start, end). */
    method UpperBound(start: int, end: int) returns (it: nat)
      requires Valid()
      ensures it <= |entries| && (it < |entries| ==> Live(ops, entries, it))
      ensures forall j :: it <= j < |entries| ==> !Overlaps(ops, entries, j, start, end)
      ensures start < end ==> forall j :: 0 <= j < it && Live(ops, entries, j) ==> entries[j].key < end
      ensures start < end && it < |entries| ==> end <= entries[it].key
      ensures start >= end ==> it == |entries|
    {
      if start >= end { return |entries|; }
      it := CountUpTo(entries, end - 1);
      ghost var from := it;
      it := SkipIdentity(it);
      assert it < |entries| && from < it ==> entries[from].key < entries[it].key;
    }

    /** The bounds of an interval: iterating from the one to the other visits exactly the segments that overlap it. */
    method Range(start: int, end: int) returns (lb: nat, ub: nat)
      requires Valid()
      ensures lb <= ub <= |entries|
      ensures (lb < |entries| ==> Live(ops, entries, lb)) && (ub < |entries| ==> Live(ops, entries, ub))
      ensures forall j: nat :: Live(ops, entries, j) ==> (lb <= j < ub <==> Overlaps(ops, entries, j, start, end))
    {
      lb := LowerBound(start, end);
      ub := UpperBound(start, end);
      forall i, j | 0 <= i < j < |entries| ensures entries[i].key < entries[j].key { }
      forall j: nat | lb <= j < |entries| && start < end ensures EndsAfter(entries, j, start) {
        assert j > lb && j + 1 < |entries| ==> entries[lb + 1].key < entries[j + 1].key;
      }
    }
  }
}
