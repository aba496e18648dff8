/** The execution graph as an object (genmc/genmc/Execution/ExecutionGraph.cpp, EventLabel.cpp): its methods change
    the event lists, reader lists, coherence lists and insertion order in place, and are proved against the
    functions on graph values of the module Graphs. */
module ExecutionGraphs {
  import opened Options
  import opened Events
  import opened Relation
  import opened Clocks
  import opened Graphs
  import opened GraphEffects

  /** removeReader for one read. */
  method EraseReader(list: seq<Event>, r: Event) returns (out: seq<Event>)
    ensures out == Drop(list, r)
  {
    out := list;
    var it := 0;
    ghost var k := 0;
    while it < |out|
      invariant 0 <= it && 0 <= k <= |list| && Passing(out, list, Drop(list[..k], r), it, k)
      decreases |list| - k
    {
      PassingStep(out, list, Drop(list[..k], r), it, k);
      DropNext(list, r, k);
      if out[it] == r {
        out := out[..it] + out[it + 1..];
      } else {
        it := it + 1;
      }
      k := k + 1;
    }
    assert list[..|list|] == list;
  }

  /** removeReader, and erasing from coherence and insertion order, for everything outside the view. */
  method EraseOutside(list: seq<Event>, v: Clock) returns (out: seq<Event>)
    ensures out == Keep(list, v)
  {
    out := list;
    var it := 0;
    ghost var k := 0;
    while it < |out|
      invariant 0 <= it && 0 <= k <= |list| && Passing(out, list, Keep(list[..k], v), it, k)
      decreases |list| - k
    {
      PassingStep(out, list, Keep(list[..k], v), it, k);
      KeepNext(list, v, k);
      if !Has(v, out[it]) {
        out := out[..it] + out[it + 1..];
      } else {
        it := it + 1;
      }
      k := k + 1;
    }
    assert list[..|list|] == list;
  }

  function Filtered(lists: map<int, seq<Event>>, keep: set<int>, v: Clock): map<int, seq<Event>> {
    map a | a in lists && a in keep :: Keep(lists[a], v)
  }

  /** The lists of the locations in `todo` are as they were, the others have been filtered. */
  ghost predicate Filtering(now: map<int, seq<Event>>, was: map<int, seq<Event>>, todo: set<int>, keep: set<int>,
                         v: Clock)
  {
    now.Keys == todo + (was.Keys * keep) &&
    forall a :: a in now && a in was ==> now[a] == if a in todo then was[a] else Keep(was[a], v)
  }

  lemma FilteringStep(now: map<int, seq<Event>>, was: map<int, seq<Event>>, todo: set<int>, keep: set<int>,
                      v: Clock, a: int)
    requires Filtering(now, was, todo, keep, v) && a in todo && todo <= was.Keys
    ensures now[a] == was[a]
    ensures a !in keep ==> Filtering(now - {a}, was, todo - {a}, keep, v)
    ensures a in keep ==> Filtering(now[a := Keep(was[a], v)], was, todo - {a}, keep, v)
  {
  }

  lemma FilteringDone(now: map<int, seq<Event>>, was: map<int, seq<Event>>, keep: set<int>, v: Clock)
    requires Filtering(now, was, {}, keep, v)
    ensures now == Filtered(was, keep, v)
  {
    var goal := Filtered(was, keep, v);
    forall a ensures a in now <==> a in goal { assert a in now.Keys <==> a in was.Keys * keep; }
    forall a | a in now ensures now[a] == goal[a] { }
  }

  lemma Inhabited(s: set<int>)
    requires s != {}
    ensures exists a :: a in s
  {
    assert (forall a :: a !in s) ==> s == {};
  }

  /** The loop of removeAfter: drops the locations that are not to be kept, and erases what is outside the view from
      the coherence and reader lists of the others. */
  method FilterLocations(coherence0: map<int, seq<Event>>, initRfs0: map<int, seq<Event>>, keep: set<int>, preds: Clock)
    returns (coherence: map<int, seq<Event>>, initRfs: map<int, seq<Event>>)
    requires initRfs0.Keys == coherence0.Keys
    ensures coherence == Filtered(coherence0, keep, preds) && initRfs == Filtered(initRfs0, keep, preds)
  {
    coherence, initRfs := coherence0, initRfs0;
    var todo: set<int> := coherence0.Keys;
    while todo != {}
      invariant todo <= coherence0.Keys
      invariant Filtering(coherence, coherence0, todo, keep, preds) && Filtering(initRfs, initRfs0, todo, keep, preds)
      decreases |todo|
    {
      Inhabited(todo);
      var a: int :| a in todo;
      FilteringStep(coherence, coherence0, todo, keep, preds, a);
      FilteringStep(initRfs, initRfs0, todo, keep, preds, a);
      todo := todo - {a};
      if a !in keep {
        initRfs := initRfs - {a};
        coherence := coherence - {a};
      } else {
        var stores := EraseOutside(coherence[a], preds);
        coherence := coherence[a := stores];
        var readers := EraseOutside(initRfs[a], preds);
        initRfs := initRfs[a := readers];
      }
    }
    FilteringDone(coherence, coherence0, keep, preds);
    FilteringDone(initRfs, initRfs0, keep, preds);
  }

  class ExecutionGraph {
    var events: seq<seq<Label>>
    var initRfs: map<int, seq<Event>>
    var coherence: map<int, seq<Event>>
    var insertionOrder: seq<Event>
    var timestamp: nat

    function State(): Graph
      reads this
    {
      Graph(events, initRfs, coherence, insertionOrder, timestamp)
    }

    ghost predicate Valid()
      reads this
    {
      State().WellFormed()
    }

    constructor ()
      ensures Valid() && State() == Graph([[Label(Init, 0, None, [])]], map[], map[], [INIT], 1)
    {
      events, initRfs, coherence, insertionOrder, timestamp := [[Label(Init, 0, None, [])]], map[], map[], [INIT], 1;
    }

    method TrackCoherenceAtLoc(a: int)
      modifies this`coherence, this`initRfs
      ensures coherence == if a in old(coherence) then old(coherence) else old(coherence)[a := []]
      ensures initRfs == if a in old(initRfs) then old(initRfs) else old(initRfs)[a := []]
    {
      if a !in coherence { coherence := coherence[a := []]; }
      if a !in initRfs { initRfs := initRfs[a := []]; }
    }

    /** addLabelToGraph, for a new label without a stamp. */
    method AddLabel(t: nat, kind: Kind) returns (e: Event)
      requires t < |events|
      modifies this
      ensures State() == Added(old(State()), t, kind) && e == Event(t, |old(events)[t]|)
      ensures events == old(events)[t := old(events)[t] + [Label(kind, old(timestamp), None, [])]]
      ensures insertionOrder == old(insertionOrder) + [e] && timestamp == old(timestamp) + 1
      ensures Tracks(old(coherence), coherence, kind) && Tracks(old(initRfs), initRfs, kind)
      ensures old(Valid()) && (kind.Read? || kind.Write? || kind.Other?) ==> Valid()
    {
      if old(Valid()) && (kind.Read? || kind.Write? || kind.Other?) { AddedWellFormed(State(), t, kind); }
      AddedEffect(State(), t, kind);
      e := Append(t, kind);
    }

    /** The steps of addLabelToGraph. */
    method Append(t: nat, kind: Kind) returns (e: Event)
      requires t < |events|
      modifies this
      ensures State() == Added(old(State()), t, kind) && e == Event(t, |old(events)[t]|)
    {
      var stamp := timestamp;
      timestamp := timestamp + 1;
      if kind.Read? || kind.Write? { TrackCoherenceAtLoc(kind.addr); }
      e := Event(t, |events[t]|);
      events := events[t := events[t] + [Label(kind, stamp, None, [])]];
      insertionOrder := insertionOrder + [e];
    }

    /** A new thread with its begin label. */
    method AddThread() returns (t: nat)
      requires Valid()
      modifies this
      ensures Valid() && t == |old(events)|
      ensures State() == Added(old(State()).(events := old(events) + [[]]), t, Start)
      ensures events == old(events) + [[Label(Start, old(timestamp), None, [])]]
      ensures insertionOrder == old(insertionOrder) + [Event(t, 0)] && timestamp == old(timestamp) + 1
      ensures coherence == old(coherence) && initRfs == old(initRfs)
    {
      t := |events|;
      events := events + [[]];
      ThreadAdded(old(State()), State());
      var e := AddLabel(t, Start);
      ghost var begin := Label(Start, old(timestamp), None, []);
      assert [] + [begin] == [begin];
      assert (old(events) + [[]])[t := [begin]] == old(events) + [[begin]];
    }

    method SetLabel(e: Event, lab: Label)
      requires State().Contains(e)
      modifies this`events
      ensures State() == old(State()).With(e, lab)
    {
      events := events[e.thread := events[e.thread][e.index := lab]];
    }

    /** Takes read r out of the reader list of its source. */
    method Unlink(r: Event, src: Option<Event>)
      requires src == Some(INIT) ==>
        State().Contains(r) && State().At(r).kind.Read? && State().At(r).kind.addr in initRfs
      requires src.Some? && src.value != INIT ==> State().Contains(src.value)
      modifies this`events, this`initRfs
      ensures State() == Unlinked(old(State()), r, src)
    {
      if src.None? { return; }
      var w := src.value;
      if w == INIT {
        var a := State().At(r).kind.addr;
        var list := EraseReader(initRfs[a], r);
        initRfs := initRfs[a := list];
      } else {
        var list := EraseReader(State().At(w).readers, r);
        SetLabel(w, State().At(w).(readers := list));
      }
    }

    /** The reads in rs read from nothing. */
    method ClearRfs(rs: seq<Event>)
      modifies this`events
      ensures State() == RfsCleared(old(State()), rs)
    {
      for i := 0 to |rs|
        invariant State() == RfsCleared(old(State()), rs[..i])
      {
        assert rs[..i + 1][..i] == rs[..i];
        if State().Contains(rs[i]) { SetLabel(rs[i], State().At(rs[i]).(rf := None)); }
      }
      assert rs[..|rs|] == rs;
    }

    /** The steps of setRf. */
    method Relink(r: Event, src: Option<Event>)
      requires State().Contains(r) && State().At(r).kind.Read? && State().At(r).kind.addr in initRfs
      requires var was := State().At(r).rf; was.Some? && was.value != INIT ==> State().Contains(was.value)
      requires src.Some? && src.value != INIT ==> State().Contains(src.value)
      modifies this`events, this`initRfs
      ensures State() == RfSet(old(State()), r, src)
    {
      var oldRf, a := State().At(r).rf, State().At(r).kind.addr;
      SetLabel(r, State().At(r).(rf := src));
      ghost var g := State();
      Unlink(r, oldRf);
      ListLabels(g, r, oldRf, State(), r);
      if src.None? { return; }
      if src.value == INIT {
        initRfs := initRfs[a := initRfs[a] + [r]];
      } else {
        SetLabel(src.value, State().At(src.value).(readers := State().At(src.value).readers + [r]));
      }
    }

    /** ReadLabel::setRf: moves the read from the reader list of its old source to that of the new one. */
    method SetRf(r: Event, src: Option<Event>)
      requires Valid() && State().Contains(r) && State().At(r).kind.Read?
      requires src.Some? ==> State().Source(src.value)
      modifies this`events, this`initRfs
      ensures Valid() && State() == RfSet(old(State()), r, src)
      ensures forall x: Event :: State().Contains(x) <==> old(State()).Contains(x)
      ensures forall x: Event :: State().Contains(x) ==>
        State().At(x).kind == old(State()).At(x).kind && State().At(x).stamp == old(State()).At(x).stamp
      ensures forall x: Event :: State().Contains(x) ==>
        State().At(x).rf == if x == r then src else old(State()).At(x).rf
      ensures forall w: Event :: State().Contains(w) && w != INIT ==>
        Relists(old(State()).At(w).readers, State().At(w).readers, r, old(State().At(r)).rf == Some(w), src == Some(w))
      ensures initRfs.Keys == old(initRfs).Keys
      ensures forall a :: a in initRfs ==> var here := a == old(State().At(r)).kind.addr;
        Relists(old(initRfs)[a], initRfs[a], r, here && old(State().At(r)).rf == Some(INIT), here && src == Some(INIT))
    {
      RfSetWellFormed(State(), r, src);
      RfSetEffect(State(), r, src);
      assert State().LabelOk(r);
      Relink(r, src);
    }

    /** The steps of addCo. */
    method InsertCo(w: Event, a: int, pred: Event)
      requires a in coherence && (pred == INIT || pred in coherence[a])
      modifies this`coherence
      ensures State() == CoAdded(old(State()), w, a, pred)
    {
      var coh := coherence[a];
      var k := 0;
      if pred != INIT {
        while coh[k] != pred
          invariant 0 <= k < |coh| && k <= IndexOf(coh, pred)
          decreases |coh| - k
        {
          k := k + 1;
        }
        k := k + 1;
      }
      coherence := coherence[a := coh[..k] + [w] + coh[k..]];
    }

    /** WriteLabel::addCo. */
    method AddCo(w: Event, a: int, pred: Event)
      requires a in coherence && (pred == INIT || pred in coherence[a])
      modifies this`coherence
      ensures State() == CoAdded(old(State()), w, a, pred)
      ensures coherence == old(coherence)[a := coherence[a]] && PlacedAfter(old(coherence)[a], coherence[a], w, pred)
      ensures old(Valid() && State().IsWrite(w, a) && w !in coherence[a]) ==> Valid()
    {
      CoAddedEffect(State(), w, a, pred);
      if old(Valid() && State().IsWrite(w, a) && w !in coherence[a]) { CoAddedWellFormed(State(), w, a, pred); }
      InsertCo(w, a, pred);
    }

    /** WriteLabel::moveCo. */
    method MoveCo(w: Event, a: int, pred: Event) returns (ghost others: seq<Event>)
      requires Valid() && a in coherence && w in coherence[a] && pred != w && (pred == INIT || pred in coherence[a])
      modifies this`coherence
      ensures Valid() && State() == CoMoved(old(State()), w, a, pred)
      ensures Relists(old(coherence)[a], others, w, true, false) && coherence == old(coherence)[a := coherence[a]]
      ensures PlacedAfter(others, coherence[a], w, pred)
    {
      others := CoMovedEffect(State(), w, a, pred);
      CoMovedWellFormed(State(), w, a, pred);
      var rest := EraseReader(coherence[a], w);
      coherence := coherence[a := rest];
      InsertCo(w, a, pred);
    }

    /** The steps of removeLast before the label goes. */
    method Detach(e: Event)
      requires State().Contains(e)
      requires var lab := State().At(e);
        lab.rf.Some? ==>
          if lab.rf.value == INIT then lab.kind.Read? && lab.kind.addr in initRfs else State().Contains(lab.rf.value)
      modifies this`events, this`initRfs
      ensures State() == Detached(old(State()), e) && SameSizes(State(), old(State()))
    {
      ghost var g := State();
      var lab := State().At(e);
      Unlink(e, lab.rf);
      ListLabels(g, e, lab.rf, State(), e);
      RfsClearedLabels(State(), lab.readers);
      if lab.kind.Write? { ClearRfs(lab.readers); }
    }

    /** The steps of removeLast. */
    method RemoveLabel(t: nat)
      requires t < |events| && |events[t]| > 0
      requires var lab := State().At(LastOf(State(), t));
        lab.rf.Some? ==>
          if lab.rf.value == INIT then lab.kind.Read? && lab.kind.addr in initRfs else State().Contains(lab.rf.value)
      modifies this`events, this`initRfs, this`insertionOrder
      ensures State() == Removed(old(State()), t)
    {
      var e := LastOf(State(), t);
      Detach(e);
      PopLast(t, e);
    }

    /** removeLast: the graph stays well-formed exactly when the label is in no coherence list. */
    method RemoveLast(t: nat)
      requires Valid() && t < |events| && |events[t]| > 1
      modifies this`events, this`initRfs, this`insertionOrder
      ensures State() == Removed(old(State()), t)
      ensures var e := Event(t, |old(events)[t]| - 1);
        && (forall x: Event :: State().Contains(x) <==> old(State()).Contains(x) && x != e)
        && (forall x: Event :: State().Contains(x) ==>
              State().At(x).kind == old(State()).At(x).kind && State().At(x).stamp == old(State()).At(x).stamp)
        && (forall x: Event :: State().Contains(x) ==>
              State().At(x).rf == if old(State()).At(x).rf == Some(e) then None else old(State()).At(x).rf)
        && (forall w: Event :: State().Contains(w) && w != INIT ==>
              Relists(old(State()).At(w).readers, State().At(w).readers, e, old(State()).ReadsFrom(e, w), false))
      ensures initRfs.Keys == old(initRfs).Keys
      ensures var e := Event(t, |old(events)[t]| - 1);
        && (forall a :: a in initRfs ==> Relists(old(initRfs)[a], initRfs[a], e, old(State()).ReadsInit(e, a), false))
        && Relists(old(insertionOrder), insertionOrder, e, true, false)
      ensures Valid() <==> forall a :: a in coherence ==> Event(t, |old(events)[t]| - 1) !in coherence[a]
    {
      RemovedEffect(State(), t);
      RemovedWellFormed(State(), t);
      assert State().LabelOk(LastOf(State(), t));
      RemoveLabel(t);
    }

    /** Takes the last label of a thread out of the event and insertion-order lists. */
    method PopLast(t: nat, e: Event)
      requires t < |events| && |events[t]| > 0
      modifies this`events, this`insertionOrder
      ensures State() == old(State()).(events := old(events)[t := old(events)[t][..|old(events)[t]| - 1]],
                                       order := Drop(old(insertionOrder), e))
    {
      var order := EraseReader(insertionOrder, e);
      insertionOrder := order;
      events := events[t := events[t][..|events[t]| - 1]];
    }

    /** The readers listed by a write are there and read from it. */
    method CheckReaders(w: Event) returns (ok: bool)
      requires State().Contains(w)
      ensures ok <==> forall r: Event :: r in State().At(w).readers ==> State().ReadsFrom(r, w)
    {
      var readers := State().At(w).readers;
      for i := 0 to |readers|
        invariant forall k :: 0 <= k < i ==> State().ReadsFrom(readers[k], w)
      {
        assert readers[i] in readers;
        if !State().Contains(readers[i]) || State().At(readers[i]).rf != Some(w) { return false; }
      }
      ok := true;
    }

    /** validate: whether reads-from edges and reader lists agree. */
    method Validate() returns (ok: bool)
      requires forall e: Event :: e in insertionOrder <==> State().Contains(e)
      requires forall e: Event :: State().Contains(e) && State().At(e).rf.Some? ==> State().At(e).kind.Read?
      ensures ok <==>
        && (forall r: Event :: State().Contains(r) && State().At(r).rf.Some? ==>
              State().Contains(State().At(r).rf.value))
        && forall w: Event, r: Event :: State().Contains(w) && State().At(w).kind.Write? ==>
          (r in State().At(w).readers <==> State().ReadsFrom(r, w))
      ensures Valid() ==> ok
    {
      if Valid() { ValidLinksAgree(State()); }
      for i := 0 to |insertionOrder|
        invariant forall k :: 0 <= k < i ==> LinksChecked(State(), insertionOrder[k])
      {
        var e := insertionOrder[i];
        assert State().Contains(e);
        var lab := State().At(e);
        if lab.rf.Some? {
          var w := lab.rf.value;
          if !State().Contains(w) { return false; }
          if State().At(w).kind.Write? && e !in State().At(w).readers {
            assert State().ReadsFrom(e, w);
            return false;
          }
        }
        if lab.kind.Write? {
          var fine := CheckReaders(e);
          if !fine { return false; }
        }
      }
      assert forall e: Event :: State().Contains(e) ==> e in insertionOrder;
      CheckedLinksAgree(State());
      ok := true;
    }

    /** The last label of a thread stamped at most `stamp`, or -1. */
    method LastUpTo(t: nat, stamp: nat) returns (j: int)
      requires t < |events|
      ensures -1 <= j < |events[t]| && (j >= 0 ==> events[t][j].stamp <= stamp)
      ensures forall k :: j < k < |events[t]| ==> events[t][k].stamp > stamp
    {
      j := |events[t]| - 1;
      while j >= 0
        invariant -1 <= j < |events[t]|
        invariant forall k :: j < k < |events[t]| ==> events[t][k].stamp > stamp
      {
        if events[t][j].stamp <= stamp { break; }
        j := j - 1;
      }
    }

    /** getViewFromStamp: per thread, up to the last label stamped at most `stamp`. */
    method GetViewFromStamp(stamp: nat) returns (preds: Clock)
      requires Valid()
      ensures UpToStamp(State(), stamp, preds)
      ensures forall e: Event :: State().Contains(e) ==>
        (Has(preds, e) <==> e.index == 0 || State().At(e).stamp <= stamp)
    {
      preds := [];
      for i := 0 to |events|
        invariant |preds| <= i && Fits(State(), preds) && UpToStampBefore(State(), stamp, preds, i)
      {
        var j := LastUpTo(i, stamp);
        UpToStampStep(State(), stamp, preds, i, j);
        if j >= 0 { preds := See(preds, Event(i, j)); }
      }
    }

    /** The locations accessed inside the view. */
    method KeptLocations(preds: Clock) returns (keep: set<int>)
      requires Fits(State(), preds) && |preds| <= |events|
      requires forall e: Event :: State().Contains(e) && (State().At(e).kind.Read? || State().At(e).kind.Write?) ==>
        e.index > 0
      ensures forall a :: a in keep <==> KeptLoc(State(), preds, a)
    {
      keep := {};
      for i := 0 to |preds|
        invariant forall a :: a in keep <==> AccessedBefore(State(), preds, i, 0, a)
      {
        for j := 0 to preds[i] + 1
          invariant forall a :: a in keep <==> AccessedBefore(State(), preds, i, j, a)
        {
          var kind := events[i][j].kind;
          if kind.Read? || kind.Write? { keep := keep + {kind.addr}; }
          assert State().Contains(Event(i, j)) && Has(preds, Event(i, j)) && State().At(Event(i, j)).kind == kind;
        }
      }
    }

    /** removeAfter. */
    method RemoveAfter(preds: Clock)
      requires Valid() && Fits(State(), preds) && |preds| <= |events|
      modifies this`coherence, this`initRfs
      ensures coherence == Cut(old(State()), preds).coherence
      ensures initRfs == Cut(old(State()), preds).initRfs
      ensures LocationsThinned(old(State()), coherence, initRfs, preds)
    {
      CutLocationsEffect(State(), preds);
      var keep := KeptLocations(preds);
      coherence, initRfs := FilterLocations(coherence, initRfs, keep, preds);
      CutLocations(old(State()), preds, keep);
    }

    /** Removes the links of the labels inside the view to labels outside. */
    method FixPointers(preds: Clock)
      requires Fits(State(), preds)
      modifies this`events
      ensures Unlinkings(State(), old(State()), preds, |events|, 0)
    {
      ghost var g := State();
      for i := 0 to |events|
        invariant Unlinkings(State(), g, preds, i, 0)
      {
        for j := 0 to GetMax(preds, i) + 1
          invariant Unlinkings(State(), g, preds, i, j)
        {
          var lab := events[i][j];
          assert g.Contains(Event(i, j)) && State().At(Event(i, j)) == lab;
          if lab.kind.Write? {
            var readers := EraseOutside(lab.readers, preds);
            lab := lab.(readers := readers);
          }
          if lab.kind.Read? {
            if lab.rf.Some? && !Has(preds, lab.rf.value) { lab := lab.(rf := None); }
          }
          UnlinkingsStep(State(), g, preds, i, j);
          SetLabel(Event(i, j), lab);
        }
      }
    }

    /** Drops the labels outside the view. */
    method Truncate(preds: Clock)
      requires Fits(State(), preds)
      modifies this`events
      ensures |events| == |old(events)|
      ensures forall t :: 0 <= t < |events| ==> events[t] == old(events)[t][..GetMax(preds, t) + 1]
    {
      for i := 0 to |events|
        invariant |events| == |old(events)|
        invariant forall t :: 0 <= t < i ==> events[t] == old(events)[t][..GetMax(preds, t) + 1]
        invariant forall t :: i <= t < |events| ==> events[t] == old(events)[t]
      {
        events := events[i := events[i][..GetMax(preds, i) + 1]];
      }
    }

    /** Stamps the labels anew, along the insertion order. */
    method Restamp()
      requires NoDup(insertionOrder) && forall e: Event :: e in insertionOrder ==> State().Contains(e)
      modifies this`events, this`timestamp
      ensures Stamped(State(), old(State()), insertionOrder) && timestamp == |insertionOrder|
    {
      ghost var g := State();
      timestamp := 0;
      for i := 0 to |insertionOrder|
        invariant timestamp == i && Stamped(State(), g, insertionOrder[..i])
      {
        var e := insertionOrder[i];
        assert g.Contains(e);
        SameContents(State(), g);
        StampedStep(State(), g, insertionOrder[..i], e);
        assert insertionOrder[..i + 1] == insertionOrder[..i] + [e];
        SetLabel(e, State().At(e).(stamp := timestamp));
        timestamp := timestamp + 1;
      }
      assert insertionOrder[..|insertionOrder|] == insertionOrder;
    }

    /** Cuts the event lists down to the view and stamps what remains anew. */
    method CutLists(preds: Clock)
      requires Fits(State(), preds) && NoDup(insertionOrder)
      requires forall e: Event :: e in insertionOrder <==> State().Contains(e)
      requires forall e: Event :: State().Contains(e) ==> LinksOk(State().At(e))
      modifies this`events, this`insertionOrder, this`timestamp
      ensures events == Cut(old(State()), preds).events
      ensures insertionOrder == Keep(old(insertionOrder), preds) && timestamp == |insertionOrder|
    {
      ghost var g := State();
      var order := EraseOutside(insertionOrder, preds);
      insertionOrder := order;
      FixPointers(preds);
      ghost var fixed := State();
      Truncate(preds);
      ghost var short := State();
      TruncatedContents(g, fixed, short, preds);
      Restamp();
      CutLabelsAre(g, fixed, short, State(), preds);
    }

    /** The steps of cutToStamp, for any view that fits. */
    method CutTo(view: Clock)
      requires Valid() && Fits(State(), view) && |view| <= |events|
      modifies this
      ensures State() == Cut(old(State()), view)
    {
      LinksAreOk(State());
      RemoveAfter(view);
      CutLists(view);
    }

    /** cutToStamp. */
    method CutToStamp(stamp: nat) returns (ghost preds: Clock)
      requires Valid()
      modifies this
      ensures UpToStamp(old(State()), stamp, preds)
      ensures Valid() && State() == Cut(old(State()), preds)
      ensures forall e: Event :: State().Contains(e) <==>
        old(State()).Contains(e) && (e.index == 0 || old(State()).At(e).stamp <= stamp)
      ensures forall e: Event :: State().Contains(e) ==> Has(preds, e) && State().At(e).kind == old(State()).At(e).kind
      ensures forall r: Event, w: Event ::
        State().ReadsFrom(r, w) <==> old(State()).ReadsFrom(r, w) && State().Contains(r) && State().Contains(w)
      ensures ListsThinned(old(State()), State(), preds)
    {
      var view := GetViewFromStamp(stamp);
      preds := view;
      CutWellFormed(State(), view);
      CutEffect(State(), view);
      EdgesInside(State());
      CutTo(view);
    }
  }

  /** Exactly the labels stamped at most `stamp`, and the begin labels, remain. */
  lemma CutAtStamp(g: Graph, stamp: nat, v: Clock)
    requires UpToStamp(g, stamp, v)
    ensures forall e: Event ::
      Cut(g, v).Contains(e) <==> g.Contains(e) && (e.index == 0 || g.At(e).stamp <= stamp)
  {
    CutLabels(g, v);
  }

  lemma LinksAreOk(g: Graph)
    requires g.RfOk()
    ensures forall e: Event :: g.Contains(e) ==> LinksOk(g.At(e))
  {
    forall e: Event | g.Contains(e) ensures LinksOk(g.At(e)) { assert g.LabelOk(e); }
  }

  /** Reads read from labels that are there, and are exactly the readers those list. */
  ghost predicate LinksAgree(g: Graph) {
    && (forall r: Event :: g.Contains(r) && g.At(r).rf.Some? ==> g.Contains(g.At(r).rf.value))
    && forall w: Event, r: Event :: g.Contains(w) && g.At(w).kind.Write? ==>
      (r in g.At(w).readers <==> g.ReadsFrom(r, w))
  }

  /** What validate asks of one label. */
  ghost predicate LinksChecked(g: Graph, e: Event) {
    && g.Contains(e)
    && (g.At(e).rf.Some? ==> var w := g.At(e).rf.value; g.Contains(w) && (g.At(w).kind.Write? ==> e in g.At(w).readers))
    && (g.At(e).kind.Write? ==> forall r: Event :: r in g.At(e).readers ==> g.ReadsFrom(r, e))
  }

  lemma CheckedLinksAgree(g: Graph)
    requires forall e: Event :: g.Contains(e) ==> LinksChecked(g, e)
    ensures LinksAgree(g)
  {
    forall w: Event, r: Event | g.Contains(w) && g.At(w).kind.Write?
      ensures r in g.At(w).readers <==> g.ReadsFrom(r, w)
    {
      assert LinksChecked(g, w);
      assert g.Contains(r) ==> LinksChecked(g, r);
    }
  }

  lemma ValidLinksAgree(g: Graph)
    requires g.WellFormed()
    ensures LinksAgree(g)
  {
    forall r: Event | g.Contains(r) && g.At(r).rf.Some? ensures g.Contains(g.At(r).rf.value) { assert g.LabelOk(r); }
  }

  /** Inside v are exactly the labels stamped at most `stamp`, and the begin labels. */
  ghost predicate UpToStamp(g: Graph, stamp: nat, v: Clock) {
    Fits(g, v) && |v| <= |g.events| && UpToStampBefore(g, stamp, v, |g.events|)
  }

  ghost predicate UpToStampBefore(g: Graph, stamp: nat, v: Clock, i: nat) {
    forall e: Event :: g.Contains(e) && e.thread < i ==> (Has(v, e) <==> e.index == 0 || g.At(e).stamp <= stamp)
  }

  lemma UpToStampStep(g: Graph, stamp: nat, v: Clock, i: nat, j: int)
    requires g.OrderOk() && Fits(g, v) && |v| <= i && UpToStampBefore(g, stamp, v, i)
    requires i < |g.events| && -1 <= j < |g.events[i]| && (j >= 0 ==> g.events[i][j].stamp <= stamp)
    requires forall k :: j < k < |g.events[i]| ==> g.events[i][k].stamp > stamp
    ensures var w := if j >= 0 then See(v, Event(i, j)) else v;
      Fits(g, w) && |w| <= i + 1 && UpToStampBefore(g, stamp, w, i + 1)
  {
    var w := if j >= 0 then See(v, Event(i, j)) else v;
    forall e: Event | g.Contains(e) && e.thread < i + 1 ensures Has(w, e) <==> e.index == 0 || g.At(e).stamp <= stamp {
      if e.thread == i && e.index < j { assert g.events[i][e.index].stamp < g.events[i][j].stamp; }
    }
  }

  /** Only reads read from something, only writes have readers. */
  predicate LinksOk(lab: Label) {
    (lab.rf.Some? ==> lab.kind.Read?) && (lab.readers != [] ==> lab.kind.Write?)
  }

  lemma CutLocations(g: Graph, v: Clock, keep: set<int>)
    requires Fits(g, v) && forall a :: a in keep <==> KeptLoc(g, v, a)
    ensures Cut(g, v).coherence == Filtered(g.coherence, keep, v) && Cut(g, v).initRfs == Filtered(g.initRfs, keep, v)
  {
  }

  /** Some label inside the view and before (i, j) accesses location a. */
  ghost predicate AccessedBefore(g: Graph, v: Clock, i: nat, j: nat, a: int) {
    exists e: Event ::
      g.Contains(e) && Has(v, e) && (e.thread < i || (e.thread == i && e.index < j)) && AccessesLoc(g.At(e).kind, a)
  }

  /** The label without its links out of the view. */
  function Unlinking(lab: Label, v: Clock): Label {
    Label(lab.kind, lab.stamp,
          if lab.kind.Read? && lab.rf.Some? && !Has(v, lab.rf.value) then None else lab.rf,
          if lab.kind.Write? then Keep(lab.readers, v) else lab.readers)
  }

  /** The labels inside the view in threads before i, or in thread i before index j, have no links out of it. */
  ghost predicate Unlinkings(now: Graph, was: Graph, v: Clock, i: nat, j: nat) {
    SameSizes(now, was) && forall e: Event :: was.Contains(e) && now.Contains(e) ==>
      now.At(e) ==
        if Has(v, e) && (e.thread < i || (e.thread == i && e.index < j)) then Unlinking(was.At(e), v) else was.At(e)
  }

  lemma UnlinkingsStep(now: Graph, was: Graph, v: Clock, i: nat, j: nat)
    requires Unlinkings(now, was, v, i, j) && now.Contains(Event(i, j)) && Has(v, Event(i, j))
    ensures was.Contains(Event(i, j))
    ensures Unlinkings(now.With(Event(i, j), Unlinking(was.At(Event(i, j)), v)), was, v, i, j + 1)
  {
    WithLabels(now, Event(i, j), Unlinking(was.At(Event(i, j)), v));
  }

  ghost predicate Truncated(short: Graph, fixed: Graph, v: Clock) {
    |short.events| == |fixed.events| && forall t :: 0 <= t < |short.events| ==>
      GetMax(v, t) < |fixed.events[t]| && short.events[t] == fixed.events[t][..GetMax(v, t) + 1]
  }

  lemma TruncatedContents(g: Graph, fixed: Graph, short: Graph, v: Clock)
    requires SameSizes(fixed, g) && Truncated(short, fixed, v)
    ensures forall e: Event :: short.Contains(e) <==> g.Contains(e) && Has(v, e)
    ensures forall e: Event :: short.Contains(e) ==> fixed.Contains(e) && short.At(e) == fixed.At(e)
  {
  }

  /** Unlinked, truncated and stamped labels are those of the cut. */
  lemma CutLabelsAre(g: Graph, fixed: Graph, short: Graph, now: Graph, v: Clock)
    requires Fits(g, v) && (forall e: Event :: e in g.order <==> g.Contains(e))
    requires forall e: Event :: g.Contains(e) ==> LinksOk(g.At(e))
    requires Unlinkings(fixed, g, v, |g.events|, 0) && Truncated(short, fixed, v) &&
      Stamped(now, short, Keep(g.order, v))
    ensures now.events == Cut(g, v).events
  {
    TruncatedContents(g, fixed, short, v);
    SameContents(now, short);
    forall t, i | 0 <= t < |now.events| && 0 <= i < |now.events[t]| ensures now.events[t][i] == Cut(g, v).events[t][i] {
      CutLabelIs(g, fixed, short, now, v, Event(t, i));
    }
    SameEvents(now.events, Cut(g, v).events);
  }

  lemma CutLabelIs(g: Graph, fixed: Graph, short: Graph, now: Graph, v: Clock, e: Event)
    requires Fits(g, v) && g.Contains(e) && e in g.order && LinksOk(g.At(e)) && Has(v, e)
    requires fixed.Contains(e) && short.Contains(e) && now.Contains(e) && short.At(e) == fixed.At(e)
    requires Unlinkings(fixed, g, v, |g.events|, 0) && Stamped(now, short, Keep(g.order, v))
    ensures now.At(e) == CutLabel(g.At(e), e, Keep(g.order, v), v)
  {
    assert e in Keep(g.order, v);
    assert g.At(e).readers == [] ==> Keep(g.At(e).readers, v) == [];
  }

  lemma SameEvents(a: seq<seq<Label>>, b: seq<seq<Label>>)
    requires |a| == |b| && forall t :: 0 <= t < |a| ==> |a[t]| == |b[t]|
    requires forall t, i :: 0 <= t < |a| && 0 <= i < |a[t]| ==> a[t][i] == b[t][i]
    ensures a == b
  {
    forall t | 0 <= t < |a| ensures a[t] == b[t] { }
  }

  /** A graph with a thread that has no labels yet. */
  lemma EmptyThread(g: Graph, h: Graph)
    requires g.OrderOk() && g.RfOk() && h == g.(events := g.events + [[]])
    ensures h.OrderOk() && h.RfOk()
    ensures forall x: Event :: h.Contains(x) <==> g.Contains(x)
    ensures forall x: Event :: g.Contains(x) ==> h.At(x) == g.At(x)
  {
    assert forall x: Event :: h.Contains(x) <==> g.Contains(x);
    assert forall x: Event :: g.Contains(x) ==> h.At(x) == g.At(x) && (g.LabelOk(x) ==> h.LabelOk(x));
    assert forall x: Event, y: Event :: g.ReadsFrom(x, y) <==> h.ReadsFrom(x, y);
    assert forall x: Event, a :: g.ReadsInit(x, a) <==> h.ReadsInit(x, a);
  }

  lemma ThreadAdded(g: Graph, h: Graph)
    requires g.WellFormed() && h == g.(events := g.events + [[]])
    ensures Added(h, |g.events|, Start).WellFormed()
  {
    var t := |g.events|;
    var k := Added(h, t, Start);
    EmptyThread(g, h);
    AddedOrder(h, t, Start);
    AddedRf(h, t, Start);
    AddedLabels(h, t, Start);
    ThreadAddedRest(g, h, k);
  }

  lemma ThreadAddedRest(g: Graph, h: Graph, k: Graph)
    requires g.BeginsOk() && g.CoOk() && h.events == g.events + [[]]
    requires k.events == h.events[|g.events| := h.events[|g.events|] + [Label(Start, h.timestamp, None, [])]]
    requires k.coherence == g.coherence && k.initRfs == g.initRfs
    ensures k.BeginsOk() && k.CoOk()
  {
    var e := Event(|g.events|, 0);
    assert forall x: Event :: k.Contains(x) <==> g.Contains(x) || x == e;
    assert forall x: Event :: g.Contains(x) ==> k.At(x) == g.At(x);
    forall a, w: Event | a in k.coherence && w in k.coherence[a] ensures k.IsWrite(w, a) { assert g.IsWrite(w, a); }
  }
}
