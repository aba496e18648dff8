/** Which non-atomic write to each byte was the last one (genmc/genmc/Execution/ExecutionState.cpp:183-196, 485-488). */
module LastWrites {
  import opened Options
  import opened Events
  import opened IntervalMaps
  import opened RaceSummary

  /** Bytes never written to hold None; aggregating an event overwrites. */
  function EventOps(): Ops<Option<Event>> {
    Ops(None, (a, b) => a == b, (n, a, b: Option<Event>) => if b.Some? then b else a)
  }

  /** Of the recorded writes, the last one that touches byte p. */
  function LastWriter(h: seq<Record>, p: int): Option<Event> {
    if |h| == 0 then None
    else if h[|h| - 1].access.Touches(p) then Some(h[|h| - 1].pos)
    else LastWriter(h[..|h| - 1], p)
  }

  /** The last writer of a byte touched it, and no write after it did; without one, no write did. */
  lemma {:induction false} LastWriterIsLast(h: seq<Record>, p: int)
    ensures forall e: Event :: LastWriter(h, p) == Some(e) <==> WroteLast(h, p, e)
    ensures LastWriter(h, p) == None <==> forall i :: 0 <= i < |h| ==> !h[i].access.Touches(p)
  {
    if |h| > 0 {
      var front := h[..|h| - 1];
      LastWriterIsLast(front, p);
      if h[|h| - 1].access.Touches(p) {
        assert IsLast(h, p, |h| - 1);
      } else {
        forall e: Event ensures WroteLast(h, p, e) <==> WroteLast(front, p, e) { UntouchedLast(h, p, e); }
      }
    }
  }

  /** A write that does not touch the byte does not change which write was the last. */
  lemma UntouchedLast(h: seq<Record>, p: int, e: Event)
    requires |h| > 0 && !h[|h| - 1].access.Touches(p)
    ensures WroteLast(h, p, e) <==> WroteLast(h[..|h| - 1], p, e)
  {
    var front := h[..|h| - 1];
    forall i: nat | i < |front| ensures IsLast(h, p, i) <==> IsLast(front, p, i) {
      assert forall j :: i < j < |front| ==> front[j] == h[j];
    }
    if WroteLast(front, p, e) {
      var i :| 0 <= i < |front| && IsLast(front, p, i) && front[i].pos == e;
      assert IsLast(h, p, i) && h[i].pos == e;
    }
  }

  /** The i-th write touches byte p, and no later one does. */
  ghost predicate IsLast(h: seq<Record>, p: int, i: nat)
    requires i < |h|
  {
    h[i].access.Touches(p) && forall j :: i < j < |h| ==> !h[j].access.Touches(p)
  }

  /** Event e made the last write to byte p. */
  ghost predicate WroteLast(h: seq<Record>, p: int, e: Event) {
    exists i :: 0 <= i < |h| && IsLast(h, p, i) && h[i].pos == e
  }

  /** The map holds the last writer of every byte. */
  ghost predicate Remembers(m: IntervalMap<Option<Event>>, h: seq<Record>)
    reads m
  {
    m.Valid() && m.ops == EventOps() && LastWritersOf(m.entries, h)
  }

  ghost predicate LastWritersOf(s: seq<Cell<Option<Event>>>, h: seq<Record>) {
    forall p: int :: Raw(EventOps(), s, p) == LastWriter(h, p)
  }

  /** The first statement of recordNAWrite. */
  method Remember(m: IntervalMap<Option<Event>>, ghost h: seq<Record>, ghost r: Record, access: Access, pos: Event)
    requires Remembers(m, h) && r.access == access && r.pos == pos
    modifies m
    ensures Remembers(m, h + [r])
    ensures forall p: int :: m.At(p) == if access.Touches(p) then Some(pos) else old(m.At(p))
  {
    ghost var was := m.entries;
    m.Add(access.addr, access.addr + access.size, Some(pos));
    forall p: int ensures Raw(EventOps(), m.entries, p) == LastWriter(h + [r], p) {
      assert (h + [r])[..|h|] == h && Raw(EventOps(), was, p) == LastWriter(h, p);
      if access.size > 0 {
        assert Rewritten(EventOps(), was, m.entries, Aggregate(Some(pos)), access.addr, access.addr + access.size, p);
      }
    }
  }

  /** e was the last to write to some byte of the access. */
  ghost predicate WroteLastIn(h: seq<Record>, access: Access, e: Event) {
    exists p: int :: access.Touches(p) && LastWriter(h, p) == Some(e)
  }

  lemma WroteLastInAccess(h: seq<Record>, access: Access, e: Event)
    ensures WroteLastIn(h, access, e) <==> exists p: int :: access.Touches(p) && WroteLast(h, p, e)
  {
    forall p: int ensures LastWriter(h, p) == Some(e) <==> WroteLast(h, p, e) { LastWriterIsLast(h, p); }
  }

  /** getMaxNAWriteEvent: exactly the events that were the last to write to some byte of the access. */
  method GetMaxNAWriteEvent(m: IntervalMap<Option<Event>>, ghost h: seq<Record>, access: Access)
    returns (result: seq<Event>)
    requires Remembers(m, h)
    ensures forall e: Event :: e in result <==> exists p: int :: access.Touches(p) && WroteLast(h, p, e)
  {
    result := [];
    var it, ie := m.Range(access.addr, access.addr + access.size);
    ghost var s := m.entries;
    while it != ie
      invariant it <= ie <= |s| && (it < |s| ==> Live(m.ops, s, it))
      invariant forall e: Event :: e in result <==> SegmentBefore(s, it, access, e)
      decreases ie - it
    {
      ghost var i := it;
      result := result + [m.entries[it].val.value];
      it := m.SkipIdentity(it + 1);
      NextBefore(s, i, it, access);
    }
    SegmentsWrote(m, h, access, ie);
    forall e: Event ensures e in result <==> exists p: int :: access.Touches(p) && WroteLast(h, p, e) {
      WroteLastInAccess(h, access, e);
    }
  }

  /** A segment before index `upto` that the access touches holds e. */
  ghost predicate SegmentBefore(s: seq<Cell<Option<Event>>>, upto: nat, access: Access, e: Event) {
    exists j: nat :: j < upto && Overlaps(EventOps(), s, j, access.addr, access.addr + access.size) &&
      s[j].val == Some(e)
  }

  lemma NextBefore(s: seq<Cell<Option<Event>>>, it: nat, next: nat, access: Access)
    requires it < |s| && it < next && s[it].val.Some?
    requires Overlaps(EventOps(), s, it, access.addr, access.addr + access.size)
    requires forall j: nat :: it < j < next ==> !Live(EventOps(), s, j)
    ensures forall e: Event ::
      SegmentBefore(s, next, access, e) <==> SegmentBefore(s, it, access, e) || s[it].val == Some(e)
  {
    forall e: Event
      ensures SegmentBefore(s, next, access, e) <==> SegmentBefore(s, it, access, e) || s[it].val == Some(e)
    {
      if SegmentBefore(s, it, access, e) {
        var j: nat :| j < it && Overlaps(EventOps(), s, j, access.addr, access.addr + access.size) &&
          s[j].val == Some(e);
        assert j < next;
      }
    }
  }

  lemma SegmentsWrote(m: IntervalMap<Option<Event>>, h: seq<Record>, access: Access, ub: nat)
    requires Remembers(m, h)
    requires forall j: nat :: Live(m.ops, m.entries, j) ==>
      (Overlaps(m.ops, m.entries, j, access.addr, access.addr + access.size) ==> j < ub)
    ensures forall e: Event :: SegmentBefore(m.entries, ub, access, e) <==> WroteLastIn(h, access, e)
  {
    var s := m.entries;
    forall e: Event ensures SegmentBefore(s, ub, access, e) <==> WroteLastIn(h, access, e) {
      if SegmentBefore(s, ub, access, e) { SegmentWrote(s, h, access, ub, e); }
      if WroteLastIn(h, access, e) {
        var p: int :| access.Touches(p) && LastWriter(h, p) == Some(e);
        var k := WriterSegment(s, h, access, p, e);
      }
    }
  }

  lemma SegmentWrote(s: seq<Cell<Option<Event>>>, h: seq<Record>, access: Access, ub: nat, e: Event)
    requires Sorted(s) && LastWritersOf(s, h) && SegmentBefore(s, ub, access, e)
    ensures WroteLastIn(h, access, e)
  {
    var j: nat :| j < ub && Overlaps(EventOps(), s, j, access.addr, access.addr + access.size) && s[j].val == Some(e);
    var p := if s[j].key < access.addr then access.addr else s[j].key;
    assert j + 1 < |s| ==> s[j].key < s[j + 1].key;
    RawAt(EventOps(), s, j + 1, p);
    assert Raw(EventOps(), s, p) == LastWriter(h, p) && access.Touches(p);
  }

  lemma WriterSegment(s: seq<Cell<Option<Event>>>, h: seq<Record>, access: Access, p: int, e: Event) returns (k: nat)
    requires Sorted(s) && LastWritersOf(s, h) && access.Touches(p) && LastWriter(h, p) == Some(e)
    ensures Overlaps(EventOps(), s, k, access.addr, access.addr + access.size) && k < |s| && s[k].val == Some(e)
  {
    assert Raw(EventOps(), s, p) == Some(e);
    k := CountUpTo(s, p) - 1;
  }
}
