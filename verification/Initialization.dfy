/** Which write first initialized each byte (genmc/genmc/Execution/ExecutionState.cpp:495-516, over
    genmc/genmc/ADT/IntervalSet.hpp). */
module Initialization {
  import opened Events
  import opened Clocks
  import opened AdaptiveViews
  import opened IntervalMaps
  import opened RaceSummary

  /** The set of points: an interval map of booleans. */
  function SetOps(): Ops<bool> {
    Ops(false, (a, b) => a == b, (n, a, b) => a || b)
  }

  function MaxInt(a: int, b: int): int { if a < b then b else a }
  function MinInt(a: int, b: int): int { if a < b then a else b }

  /** Point p lies in a segment with a value before index `upto`. */
  ghost predicate Visited<V>(ops: Ops<V>, s: seq<Cell<V>>, upto: nat, p: int) {
    var k := CountUpTo(s, p);
    0 < k <= upto && Live(ops, s, k - 1)
  }

  /** The points of the segment at `it` are those that fall in right after its entry. */
  lemma SegmentPoints<V>(s: seq<Cell<V>>, it: nat, p: int)
    requires Sorted(s) && it + 1 < |s|
    ensures s[it].key <= p < s[it + 1].key <==> CountUpTo(s, p) == it + 1
  {
    assert forall i, j :: 0 <= i <= j < |s| ==> s[i].key <= s[j].key;
  }

  lemma VisitNext<V>(ops: Ops<V>, s: seq<Cell<V>>, it: nat, next: nat, p: int)
    requires Sorted(s) && it + 1 < |s| && Live(ops, s, it) && it < next
    requires forall j: nat :: it < j < next ==> !Live(ops, s, j)
    ensures Visited(ops, s, next, p) <==> Visited(ops, s, it, p) || s[it].key <= p < s[it + 1].key
  {
    SegmentPoints(s, it, p);
  }

  /** All points of [start, end) with a value are in segments from lb on before ub. */
  lemma RangeVisits<V>(ops: Ops<V>, s: seq<Cell<V>>, lb: nat, ub: nat, start: int, end: int, p: int)
    requires Sorted(s) && start <= p < end
    requires forall j: nat :: Live(ops, s, j) ==> (lb <= j < ub <==> Overlaps(ops, s, j, start, end))
    ensures !Visited(ops, s, lb, p)
    ensures Visited(ops, s, ub, p) <==> !ops.eq(Raw(ops, s, p), ops.id) && CountUpTo(s, p) > 0
  {
    var k := CountUpTo(s, p);
    if k > 0 && Live(ops, s, k - 1) { assert Overlaps(ops, s, k - 1, start, end); }
  }

  /** What is left of [start, end) without the points visited. */
  ghost predicate Remaining<V>(u: seq<Cell<bool>>, ops: Ops<V>, s: seq<Cell<V>>, upto: nat, start: int, end: int) {
    forall p: int :: Raw(SetOps(), u, p) <==> start <= p < end && !Visited(ops, s, upto, p)
  }

  lemma RemainingFirst<V>(u: seq<Cell<bool>>, ops: Ops<V>, s: seq<Cell<V>>, lb: nat, ub: nat, start: int, end: int)
    requires if start < end then RewrittenOn(SetOps(), [], u, Aggregate(true), start, end) else u == []
    requires Sorted(s)
    requires forall j: nat :: Live(ops, s, j) ==> (lb <= j < ub <==> Overlaps(ops, s, j, start, end))
    ensures Remaining(u, ops, s, lb, start, end)
  {
    forall p: int ensures Raw(SetOps(), u, p) <==> start <= p < end && !Visited(ops, s, lb, p) {
      if start < end { assert Rewritten(SetOps(), [], u, Aggregate(true), start, end, p); }
      if start <= p < end { RangeVisits(ops, s, lb, ub, start, end, p); }
    }
  }

  /** The points of another segment have been taken out. */
  lemma RemainingNext<V>(was: seq<Cell<bool>>, u: seq<Cell<bool>>, ops: Ops<V>, s: seq<Cell<V>>, it: nat, next: nat,
                         start: int, end: int)
    requires Remaining(was, ops, s, it, start, end) && Sorted(s) && it + 1 < |s| && Live(ops, s, it) && it < next
    requires forall j: nat :: it < j < next ==> !Live(ops, s, j)
    requires var from, upto := MaxInt(s[it].key, start), MinInt(s[it + 1].key, end);
      if from < upto then RewrittenOn(SetOps(), was, u, Reset, from, upto) else u == was
    ensures Remaining(u, ops, s, next, start, end)
  {
    var from, upto := MaxInt(s[it].key, start), MinInt(s[it + 1].key, end);
    forall p: int ensures Raw(SetOps(), u, p) <==> start <= p < end && !Visited(ops, s, next, p) {
      VisitNext(ops, s, it, next, p);
      if from < upto { assert Rewritten(SetOps(), was, u, Reset, from, upto, p); }
    }
  }

  lemma RemainingLast<V>(u: seq<Cell<bool>>, ops: Ops<V>, s: seq<Cell<V>>, lb: nat, ub: nat,
                         start: int, end: int, p: int)
    requires Remaining(u, ops, s, ub, start, end) && Sorted(s) && ops.eq(ops.id, ops.id)
    requires forall j: nat :: Live(ops, s, j) ==> (lb <= j < ub <==> Overlaps(ops, s, j, start, end))
    ensures Raw(SetOps(), u, p) <==> start <= p < end && ops.eq(Raw(ops, s, p), ops.id)
  {
    if start <= p < end { RangeVisits(ops, s, lb, ub, start, end, p); }
  }

  /** The parts of [start, end) that hold the identity. */
  method Uninitialized<V(!new)>(m: IntervalMap<V>, start: int, end: int) returns (uninit: IntervalMap<bool>)
    requires m.Valid()
    ensures fresh(uninit) && uninit.Valid() && uninit.ops == SetOps()
    ensures forall p: int :: uninit.At(p) <==> start <= p < end && m.ops.eq(m.At(p), m.ops.id)
  {
    ghost var ops, s := m.ops, m.entries;
    uninit := new IntervalMap<bool>(SetOps());
    uninit.Add(start, end, true);
    var it, ie := m.Range(start, end);
    ghost var lb := it;
    RemainingFirst(uninit.entries, ops, s, it, ie, start, end);
    while it != ie
      invariant it <= ie <= |s| && (it < |s| ==> Live(ops, s, it))
      invariant fresh(uninit) && uninit.Valid() && uninit.ops == SetOps()
      invariant Remaining(uninit.entries, ops, s, it, start, end)
      decreases ie - it
    {
      ghost var was, i := uninit.entries, it;
      assert it + 1 < |s|;
      uninit.Erase(MaxInt(m.entries[it].key, start), MinInt(m.entries[it + 1].key, end));
      it := m.SkipIdentity(it + 1);
      RemainingNext(was, uninit.entries, ops, s, i, it, start, end);
    }
    forall p: int ensures uninit.At(p) <==> start <= p < end && ops.eq(m.At(p), ops.id) {
      RemainingLast(uninit.entries, ops, s, lb, ie, start, end, p);
    }
  }

  /** The value is what aggregating v makes of an identity. */
  ghost predicate Initialized<V(!new)>(ops: Ops<V>, v: V, now: V) {
    exists n: nat, a: V :: ops.eq(a, ops.id) && ops.eq(now, ops.plus(n, a, v))
  }

  /** The segments of u before index `upto` have been given the value v. */
  ghost predicate Given<V(!new)>(ops: Ops<V>, was: seq<Cell<V>>, s: seq<Cell<V>>, u: seq<Cell<bool>>, upto: nat, v: V,
                                   p: int)
  {
    if Visited(SetOps(), u, upto, p) then Initialized(ops, v, Raw(ops, s, p))
      else ops.eq(Raw(ops, s, p), Raw(ops, was, p))
  }

  /** The points of the segment at `it` take v, like those of the segments before. */
  lemma GivenNext<V(!new)>(ops: Ops<V>, was: seq<Cell<V>>, s: seq<Cell<V>>, now: seq<Cell<V>>, u: seq<Cell<bool>>,
                           it: nat, next: nat, v: V, p: int)
    requires Lawful(ops) && Sorted(u) && it + 1 < |u| && Live(SetOps(), u, it) && it < next
    requires forall j: nat :: it < j < next ==> !Live(SetOps(), u, j)
    requires Given(ops, was, s, u, it, v, p)
    requires Rewritten(ops, s, now, Aggregate(v), u[it].key, u[it + 1].key, p)
    requires u[it].key <= p < u[it + 1].key ==> ops.eq(Raw(ops, was, p), ops.id)
    ensures Given(ops, was, now, u, next, v, p)
  {
    VisitNext(SetOps(), u, it, next, p);
    SegmentPoints(u, it, p);
    if u[it].key <= p < u[it + 1].key {
      assert !Visited(SetOps(), u, it, p) && ops.eq(Raw(ops, s, p), ops.id);
      var n: nat :| ops.eq(Raw(ops, now, p), ops.plus(n, Raw(ops, s, p), v));
    } else if Visited(SetOps(), u, it, p) {
      var n: nat, a: V :| ops.eq(a, ops.id) && ops.eq(Raw(ops, s, p), ops.plus(n, a, v));
      assert ops.eq(Raw(ops, now, p), ops.plus(n, a, v));
    }
  }

  /** The points of another part of the interval take the value. */
  method GiveSegment<V(!new)>(m: IntervalMap<V>, ghost was: seq<Cell<V>>, u: IntervalMap<bool>, it: nat, v: V)
    returns (next: nat)
    requires m.Valid() && u.Valid() && u.ops == SetOps() && m as object != u && !m.ops.eq(v, m.ops.id)
    requires it < |u.entries| && Live(u.ops, u.entries, it)
    requires forall p: int :: u.At(p) ==> m.ops.eq(Raw(m.ops, was, p), m.ops.id)
    requires forall p: int :: Given(m.ops, was, m.entries, u.entries, it, v, p)
    modifies m
    ensures m.Valid() && it < next <= |u.entries| && (next < |u.entries| ==> Live(u.ops, u.entries, next))
    ensures forall p: int :: Given(m.ops, was, m.entries, u.entries, next, v, p)
  {
    ghost var s := m.entries;
    assert it + 1 < |u.entries|;
    var from, upto := u.entries[it].key, u.entries[it + 1].key;
    m.Add(from, upto, v);
    next := u.SkipIdentity(it + 1);
    forall p: int ensures Given(m.ops, was, m.entries, u.entries, next, v, p) {
      assert Rewritten(m.ops, s, m.entries, Aggregate(v), from, upto, p);
      SegmentPoints(u.entries, it, p);
      assert from <= p < upto ==> u.At(p);
      GivenNext(m.ops, was, s, m.entries, u.entries, it, next, v, p);
    }
  }

  /** Give every segment of u the value. */
  method GiveAll<V(!new)>(m: IntervalMap<V>, u: IntervalMap<bool>, v: V)
    requires m.Valid() && u.Valid() && u.ops == SetOps() && m as object != u && !m.ops.eq(v, m.ops.id)
    requires forall p: int :: u.At(p) ==> m.ops.eq(m.At(p), m.ops.id)
    modifies m
    ensures m.Valid()
    ensures forall p: int :: if u.At(p) then Initialized(m.ops, v, m.At(p)) else m.ops.eq(m.At(p), old(m.At(p)))
  {
    ghost var was := m.entries;
    var it := u.SkipIdentity(0);
    forall p: int ensures Given(m.ops, was, m.entries, u.entries, it, v, p) { NothingBefore(u.entries, it, p); }
    forall p: int
      ensures u.At(p) ==> m.ops.eq(Raw(m.ops, was, p), m.ops.id)
    {
      assert u.At(p) ==> m.ops.eq(m.At(p), m.ops.id);
    }
    while it < |u.entries|
      invariant it <= |u.entries| && (it < |u.entries| ==> Live(u.ops, u.entries, it)) && m.Valid()
      invariant forall p: int :: Given(m.ops, was, m.entries, u.entries, it, v, p)
    {
      it := GiveSegment(m, was, u, it, v);
    }
    forall p: int ensures if u.At(p) then Initialized(m.ops, v, m.At(p)) else m.ops.eq(m.At(p), Raw(m.ops, was, p)) {
      assert Given(m.ops, was, m.entries, u.entries, it, v, p);
    }
  }

  /** find(interval) leads to a segment that holds all of it. */
  lemma FoundWhole<V>(ops: Ops<V>, s: seq<Cell<V>>, found: nat, start: int, end: int)
    requires Canonical(ops, s) && Live(ops, s, found) && s[found].key <= start
    requires found + 1 == |s| || s[found + 1].key >= end
    ensures forall p: int :: start <= p < end ==> !ops.eq(Raw(ops, s, p), ops.id)
  {
    assert found + 1 < |s|;
    forall p: int | start <= p < end ensures !ops.eq(Raw(ops, s, p), ops.id) { SegmentPoints(s, found, p); }
  }

  /** markInitialized: points of [start, end) without a value take v, all others stay. */
  method MarkInitialized<V(!new)>(m: IntervalMap<V>, start: int, end: int, v: V)
    requires m.Valid() && !m.ops.eq(v, m.ops.id)
    modifies m
    ensures m.Valid()
    ensures forall p: int ::
      if start <= p < end && m.ops.eq(old(m.At(p)), m.ops.id) then Initialized(m.ops, v, m.At(p))
      else m.ops.eq(m.At(p), old(m.At(p)))
  {
    var found := m.FindInternal(start);
    if found < |m.entries| && (found + 1 == |m.entries| || m.entries[found + 1].key >= end) {
      FoundWhole(m.ops, m.entries, found, start, end);
      return;
    }
    var uninit := Uninitialized(m, start, end);
    GiveAll(m, uninit, v);
  }

  lemma NothingBefore(u: seq<Cell<bool>>, it: nat, p: int)
    requires forall j: nat :: j < it ==> !Live(SetOps(), u, j)
    ensures !Visited(SetOps(), u, it, p)
  {
  }

  /** The write that first initialized each byte, if any, as a history of one record. */
  ghost function Firsts(first: int -> seq<Record>, r: Record): int -> seq<Record> {
    p => if first(p) == [] && r.access.Touches(p) then [r] else first(p)
  }

  /** The map answers, byte by byte, as the first write to the byte does. */
  ghost predicate InitializedBy(m: IntervalMap<Storage>, orc: Oracle, first: int -> seq<Record>)
    reads m
  {
    m.Valid() && m.ops == SummaryOps(orc) && SoundOracle(orc) && FirstsOf(m.entries, orc, first)
  }

  ghost predicate FirstsOf(s: seq<Cell<Storage>>, orc: Oracle, first: int -> seq<Record>) {
    forall p: int :: AnswersFirst(Raw(SummaryOps(orc), s, p), first(p), p)
  }

  ghost predicate AnswersFirst(s: Storage, h: seq<Record>, p: int) {
    (h == [] <==> Equal(s, Empty)) && forall c: Clock :: Answers(h, s, p, c)
  }

  lemma AnswersNow(orc: Oracle, r: Record, was: Storage, now: Storage, h: seq<Record>, p: int)
    requires SoundOracle(orc) && AnswersFirst(was, h, p)
    requires if r.access.Touches(p) && Equal(was, Empty) then Initialized(SummaryOps(orc), Update(r.pos, r.view), now)
             else Equal(now, was)
    ensures AnswersFirst(now, if h == [] && r.access.Touches(p) then [r] else h, p)
  {
    if r.access.Touches(p) && Equal(was, Empty) {
      var n: nat, a: Storage :| Equal(a, Empty) && Equal(now, Accumulated(orc(n), a, Update(r.pos, r.view)));
      forall c: Clock ensures Answers([r], now, p, c) {
        EqualBelow(a, Empty, c);
        RecordByte(orc, [], r, a, now, n, p, c);
        assert [] + [r] == [r];
      }
    } else {
      EqualIsEquivalence(now, was, Empty);
      EqualIsEquivalence(was, now, Empty);
      forall c: Clock ensures Answers(h, now, p, c) {
        assert Answers(h, was, p, c);
        EqualBelow(now, was, c);
      }
    }
  }

  /** markInitialized on the map of first writes: every byte keeps the first write to it. */
  method MarkFirstWrite(m: IntervalMap<Storage>, ghost orc: Oracle, ghost first: int -> seq<Record>,
                        access: Access, pos: Event, view: Clock)
    requires InitializedBy(m, orc, first)
    modifies m
    ensures InitializedBy(m, orc, Firsts(first, Record(access, pos, view)))
    ensures forall p: int :: AnswersFirst(m.At(p),
      if access.Touches(p) && first(p) == [] then [Record(access, pos, view)] else first(p), p)
    ensures forall p: int :: access.Touches(p) ==> !Equal(m.At(p), Empty)
  {
    ghost var was, r := m.entries, Record(access, pos, view);
    MarkInitialized(m, access.addr, access.addr + access.size, Update(pos, view));
    forall p: int ensures AnswersFirst(Raw(SummaryOps(orc), m.entries, p), Firsts(first, r)(p), p) {
      assert AnswersFirst(Raw(SummaryOps(orc), was, p), first(p), p);
      AnswersNow(orc, r, Raw(m.ops, was, p), m.At(p), first(p), p);
    }
  }
}
