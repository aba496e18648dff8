/** Race detection (genmc/genmc/Execution/ExecutionState.cpp): an interval map of compressed summaries replaces the
    full history of accesses and answers, for clocks that contain the causes of what they contain, exactly as the
    history would. */
module RaceSummary {
  import opened Events
  import opened Clocks
  import opened AdaptiveViews
  import opened IntervalMaps

  /** An access of `size` bytes from `addr`. */
  datatype Access = Access(addr: int, size: nat) {
    predicate Touches(p: int) { addr <= p < addr + size }
  }

  /** A recorded access: who made it, and what its clock had seen. */
  datatype Record = Record(access: Access, pos: Event, view: Clock)

  ghost predicate Overlap(a: Access, b: Access) {
    exists p: int :: a.Touches(p) && b.Touches(p)
  }

  /** c contains the causes of every recorded access it contains. */
  ghost predicate Closed(h: seq<Record>, c: Clock) {
    forall i :: 0 <= i < |h| && Has(c, h[i].pos) ==> Leq(h[i].view, c)
  }

  /** c has seen every recorded access to byte p. */
  ghost predicate SeenAt(h: seq<Record>, p: int, c: Clock) {
    forall i :: 0 <= i < |h| && h[i].access.Touches(p) ==> Has(c, h[i].pos)
  }

  /** c has seen every recorded access that overlaps a. */
  ghost predicate SeenAll(h: seq<Record>, a: Access, c: Clock) {
    forall i :: 0 <= i < |h| && Overlap(h[i].access, a) ==> Has(c, h[i].pos)
  }

  type Oracle = nat -> ((Clock, Clock) -> bool)

  /** The n-th inclusion test the map performs; it may depend on how the clocks are represented at that moment. */
  ghost predicate SoundOracle(orc: Oracle) {
    forall n: nat :: Sound(orc(n))
  }

  function SummaryOps(orc: Oracle): Ops<Storage> {
    Ops(Empty, Equal, (n, a, b) => Accumulated(orc(n), a, b))
  }

  lemma SummaryLawful(orc: Oracle)
    ensures Lawful(SummaryOps(orc))
  {
    forall a: Storage, b: Storage, c: Storage
      ensures Equal(a, a) && (Equal(a, b) ==> Equal(b, a)) && (Equal(a, b) && Equal(b, c) ==> Equal(a, c))
    {
      EqualIsEquivalence(a, b, c);
    }
  }

  /** The summary of byte p answers for clock c as the history does. */
  ghost predicate Answers(h: seq<Record>, s: Storage, p: int, c: Clock) {
    Closed(h, c) ==> (Below(s, c) <==> SeenAt(h, p, c))
  }

  ghost predicate Summarizes(m: IntervalMap<Storage>, orc: Oracle, h: seq<Record>)
    reads m
  {
    m.Valid() && m.ops == SummaryOps(orc) && SoundOracle(orc) && SummaryOf(m.entries, orc, h)
  }

  ghost predicate SummaryOf(s: seq<Cell<Storage>>, orc: Oracle, h: seq<Record>) {
    forall p: int, c: Clock :: Answers(h, Raw(SummaryOps(orc), s, p), p, c)
  }

  method NewSummary(orc: Oracle, ghost others: set<object>) returns (m: IntervalMap<Storage>)
    requires SoundOracle(orc)
    ensures fresh(m) && m !in others && Summarizes(m, orc, [])
  {
    SummaryLawful(orc);
    m := new IntervalMap(SummaryOps(orc));
  }

  /** Recording one more access turns the summary of a byte into the summary of the longer history. */
  lemma RecordByte(orc: Oracle, h: seq<Record>, r: Record, was: Storage, now: Storage, n: nat, p: int, c: Clock)
    requires SoundOracle(orc) && Answers(h, was, p, c)
    requires if r.access.Touches(p) then Equal(now, Accumulated(orc(n), was, Update(r.pos, r.view)))
      else Equal(now, was)
    ensures Answers(h + [r], now, p, c)
  {
    var g := h + [r];
    if Closed(g, c) {
      assert g[|h|] == r;
      assert Closed(h, c) by {
        forall i | 0 <= i < |h| && Has(c, h[i].pos) ensures Leq(h[i].view, c) { assert g[i] == h[i]; }
      }
      assert SeenAt(g, p, c) <==> SeenAt(h, p, c) && (r.access.Touches(p) ==> Has(c, r.pos)) by {
        assert forall i :: 0 <= i < |h| ==> g[i] == h[i];
      }
      if r.access.Touches(p) {
        EqualBelow(now, Accumulated(orc(n), was, Update(r.pos, r.view)), c);
        AccumulatedBelow(orc(n), was, r.pos, r.view, c);
      } else {
        EqualBelow(now, was, c);
      }
    }
  }

  /** recordMemAccess on one map. */
  method RecordIn(m: IntervalMap<Storage>, ghost orc: Oracle, ghost h: seq<Record>, access: Access, pos: Event,
                  view: Clock)
    requires Summarizes(m, orc, h)
    modifies m
    ensures Summarizes(m, orc, h + [Record(access, pos, view)])
  {
    ghost var was := m.entries;
    m.Add(access.addr, access.addr + access.size, Update(pos, view));
    ghost var r := Record(access, pos, view);
    forall p: int, c: Clock ensures Answers(h + [r], Raw(SummaryOps(orc), m.entries, p), p, c) {
      assert Answers(h, Raw(SummaryOps(orc), was, p), p, c);
      var n: nat := 0;
      if access.size > 0 {
        assert Rewritten(m.ops, was, m.entries, Aggregate(Update(pos, view)),
                         access.addr, access.addr + access.size, p);
        if access.Touches(p) {
          n :| Equal(m.At(p), Accumulated(orc(n), Raw(m.ops, was, p), Update(pos, view)));
        }
      }
      EqualIsEquivalence(m.At(p), m.At(p), m.At(p));
      RecordByte(orc, h, r, Raw(m.ops, was, p), m.At(p), n, p, c);
    }
  }

  /** The segments before index `upto` that access a touches stand for nothing c has not seen. */
  ghost predicate SegmentsBelow(ops: Ops<Storage>, s: seq<Cell<Storage>>, upto: nat, a: Access, c: Clock) {
    forall j: nat :: j < upto && Overlaps(ops, s, j, a.addr, a.addr + a.size) ==> Below(s[j].val, c)
  }

  lemma NextSegment(ops: Ops<Storage>, s: seq<Cell<Storage>>, it: nat, next: nat, a: Access, c: Clock)
    requires it < |s| && it < next && Overlaps(ops, s, it, a.addr, a.addr + a.size)
    requires forall j: nat :: it < j < next ==> !Live(ops, s, j)
    ensures SegmentsBelow(ops, s, next, a, c) <==> SegmentsBelow(ops, s, it, a, c) && Below(s[it].val, c)
  {
  }

  /** The loop of getMaxView: joins the summaries of all segments the access touches. */
  method JoinSegments(m: IntervalMap<Storage>, access: Access) returns (result: AdaptiveView)
    requires m.Valid()
    ensures fresh(result)
    ensures forall c: Clock :: Below(result.storage, c) <==> SegmentsBelow(m.ops, m.entries, |m.entries|, access, c)
  {
    ghost var ops, s := m.ops, m.entries;
    result := new AdaptiveView(Empty);
    var it, ie := m.Range(access.addr, access.addr + access.size);
    assert forall c: Clock :: SegmentsBelow(ops, s, it, access, c);
    while it != ie
      invariant fresh(result) && it <= ie <= |s| && (it < |s| ==> Live(ops, s, it))
      invariant forall c: Clock :: Below(result.storage, c) <==> SegmentsBelow(ops, s, it, access, c)
      decreases ie - it
    {
      var segment := new AdaptiveView(m.entries[it].val);
      ghost var was := result.storage;
      result.Join(segment);
      var next := m.SkipIdentity(it + 1);
      forall c: Clock ensures Below(result.storage, c) <==> SegmentsBelow(ops, s, next, access, c) {
        JoinedBelow(was, segment.storage, c);
        NextSegment(ops, s, it, next, access, c);
      }
      it := next;
    }
    assert forall c: Clock :: SegmentsBelow(ops, s, ie, access, c) <==> SegmentsBelow(ops, s, |s|, access, c);
  }

  /** getMaxView answers as the full history: for every clock that contains the causes of what it contains, the view
      is below it exactly when it has seen every recorded access that overlaps the given one. So a view found to be
      contained in the clock means that there is no race. */
  method GetMaxView(m: IntervalMap<Storage>, ghost orc: Oracle, ghost h: seq<Record>, access: Access)
    returns (result: AdaptiveView)
    requires Summarizes(m, orc, h)
    ensures fresh(result)
    ensures forall c: Clock :: Closed(h, c) ==> (Below(result.storage, c) <==> SeenAll(h, access, c))
    ensures forall c: Clock, covers: (Clock, Clock) -> bool ::
      Closed(h, c) && Sound(covers) && result.ContainedIn(c, covers) ==> SeenAll(h, access, c)
  {
    result := JoinSegments(m, access);
    forall c: Clock | Closed(h, c) ensures Below(result.storage, c) <==> SeenAll(h, access, c) {
      SegmentsAnswer(m, orc, h, access, c);
    }
  }

  /** The segments an access touches, taken together, answer for exactly the records that overlap it. */
  lemma SegmentsAnswer(m: IntervalMap<Storage>, orc: Oracle, h: seq<Record>, access: Access, c: Clock)
    requires Summarizes(m, orc, h) && Closed(h, c)
    ensures SeenAll(h, access, c) <==> SegmentsBelow(m.ops, m.entries, |m.entries|, access, c)
  {
    var start, end := access.addr, access.addr + access.size;
    if SeenAll(h, access, c) {
      forall j: nat | Overlaps(m.ops, m.entries, j, start, end) ensures Below(m.entries[j].val, c) {
        var p := if m.entries[j].key < start then start else m.entries[j].key;
        assert j + 1 < |m.entries| ==> m.entries[j].key < m.entries[j + 1].key;
        RawAt(m.ops, m.entries, j + 1, p);
        assert Answers(h, m.At(p), p, c);
        assert access.Touches(p);
      }
    }
    if SegmentsBelow(m.ops, m.entries, |m.entries|, access, c) {
      forall i | 0 <= i < |h| && Overlap(h[i].access, access) ensures Has(c, h[i].pos) {
        var p: int :| h[i].access.Touches(p) && access.Touches(p);
        assert Answers(h, m.At(p), p, c);
        var k := CountUpTo(m.entries, p);
        if k > 0 && Live(m.ops, m.entries, k - 1) {
          assert Overlaps(m.ops, m.entries, k - 1, start, end);
        } else {
          EqualBelow(m.At(p), Empty, c);
        }
      }
    }
  }
}
