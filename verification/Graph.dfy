/** Execution graphs as values (genmc/genmc/Execution/ExecutionGraph.hpp, ExecutionGraph.cpp, EventLabel.cpp): what a
    well-formed graph is, what each operation makes of it, and that every operation keeps it well-formed. A pointer
    to a label is the position of that label. */
module Graphs {
  import opened Options
  import opened Events
  import opened Relation
  import opened Clocks

  datatype Kind = Init | Start | Read(addr: int) | Write(addr: int) | Other

  /** A read knows what it reads from; a write lists its readers. */
  datatype Label = Label(kind: Kind, stamp: nat, rf: Option<Event>, readers: seq<Event>)

  datatype Graph = Graph(
    events: seq<seq<Label>>,
    initRfs: map<int, seq<Event>>,
    coherence: map<int, seq<Event>>,
    order: seq<Event>,
    timestamp: nat)
  {
    predicate Contains(e: Event) {
      e.thread < |events| && e.index < |events[e.thread]|
    }

    function At(e: Event): Label
      requires Contains(e)
    {
      events[e.thread][e.index]
    }

    function With(e: Event, lab: Label): Graph
      requires Contains(e)
    {
      this.(events := events[e.thread := events[e.thread][e.index := lab]])
    }

    ghost predicate IsWrite(e: Event, a: int) {
      Contains(e) && At(e).kind == Write(a)
    }

    /** r is a read of location a that reads from the initializer. */
    ghost predicate ReadsInit(r: Event, a: int) {
      Contains(r) && At(r).kind == Read(a) && At(r).rf == Some(INIT)
    }

    ghost predicate ReadsFrom(r: Event, w: Event) {
      Contains(r) && At(r).rf == Some(w)
    }

    /** Threads begin with their begin label, and only there. */
    ghost predicate BeginsOk() {
      && Contains(INIT) && At(INIT).kind == Init
      && (forall t :: 0 <= t < |events| ==> |events[t]| > 0)
      && forall e: Event :: Contains(e) && e != INIT ==> (At(e).kind == Start <==> e.index == 0) && At(e).kind != Init
    }

    /** The insertion order lists every label once, by increasing stamps, which also increase along po. */
    ghost predicate OrderOk() {
      && NoDup(order)
      && (forall e: Event :: e in order <==> Contains(e))
      && (forall i, j :: 0 <= i < j < |order| && Contains(order[i]) && Contains(order[j]) ==>
            At(order[i]).stamp < At(order[j]).stamp)
      && (forall e: Event :: Contains(e) ==> At(e).stamp < timestamp)
      && (forall t, i, j :: 0 <= t < |events| && 0 <= i < j < |events[t]| ==> events[t][i].stamp < events[t][j].stamp)
    }

    /** Something that can be read from. */
    ghost predicate Source(w: Event) {
      w == INIT || (Contains(w) && At(w).kind.Write?)
    }

    /** A read reads from nothing, the initializer or a write; only writes have readers. */
    ghost predicate LabelOk(e: Event)
      requires Contains(e)
    {
      && (At(e).rf.Some? ==> At(e).kind.Read? && Source(At(e).rf.value))
      && (At(e).readers != [] ==> At(e).kind.Write?)
      && (At(e).kind.Read? || At(e).kind.Write? ==> At(e).kind.addr in coherence)
    }

    /** Reads-from edges and reader lists say the same, for writes and, per location, for the initializer. */
    ghost predicate RfOk() {
      && (forall e: Event :: Contains(e) ==> LabelOk(e))
      && (forall w: Event :: Contains(w) && At(w).kind.Write? ==> NoDup(At(w).readers))
      && (forall w: Event, r: Event :: Contains(w) && At(w).kind.Write? ==> (r in At(w).readers <==> ReadsFrom(r, w)))
      && (forall a :: a in initRfs ==> NoDup(initRfs[a]))
      && (forall a, r: Event :: a in initRfs ==> (r in initRfs[a] <==> ReadsInit(r, a)))
    }

    /** Coherence lists are duplicate-free lists of writes to their location. */
    ghost predicate CoOk() {
      && initRfs.Keys == coherence.Keys
      && (forall a :: a in coherence ==> NoDup(coherence[a]))
      && (forall a, w: Event :: a in coherence && w in coherence[a] ==> IsWrite(w, a))
    }

    ghost predicate WellFormed() {
      BeginsOk() && OrderOk() && RfOk() && CoOk()
    }
  }

  /** s without the occurrences of e. */
  function Drop(s: seq<Event>, e: Event): (r: seq<Event>)
    ensures forall x :: x in r <==> x in s && x != e
    ensures NoDup(s) ==> NoDup(r)
  {
    if |s| == 0 then []
    else
      var last := s[|s| - 1];
      assert s == s[..|s| - 1] + [last];
      assert NoDup(s) ==> last !in s[..|s| - 1];
      if last == e then Drop(s[..|s| - 1], e) else Drop(s[..|s| - 1], e) + [last]
  }

  /** The part of s inside the view, in the same order. */
  function Keep(s: seq<Event>, v: Clock): (r: seq<Event>)
    ensures forall x :: x in r <==> x in s && Has(v, x)
    ensures NoDup(s) ==> NoDup(r)
  {
    if |s| == 0 then []
    else
      var last := s[|s| - 1];
      assert s == s[..|s| - 1] + [last];
      assert NoDup(s) ==> last !in s[..|s| - 1];
      if Has(v, last) then Keep(s[..|s| - 1], v) + [last] else Keep(s[..|s| - 1], v)
  }

  lemma DropNext(s: seq<Event>, e: Event, k: nat)
    requires k < |s|
    ensures Drop(s[..k + 1], e) == if s[k] == e then Drop(s[..k], e) else Drop(s[..k], e) + [s[k]]
  {
    assert s[..k + 1][..k] == s[..k];
  }

  lemma KeepNext(s: seq<Event>, v: Clock, k: nat)
    requires k < |s|
    ensures Keep(s[..k + 1], v) == if Has(v, s[k]) then Keep(s[..k], v) + [s[k]] else Keep(s[..k], v)
  {
    assert s[..k + 1][..k] == s[..k];
  }

  /** An in-place pass over a list: `kept` is what is left of the first k elements, the rest has not been looked at. */
  ghost predicate Passing(now: seq<Event>, list: seq<Event>, kept: seq<Event>, it: nat, k: nat) {
    k <= |list| && it == |kept| && now == kept + list[k..]
  }

  lemma PassingStep(now: seq<Event>, list: seq<Event>, kept: seq<Event>, it: nat, k: nat)
    requires Passing(now, list, kept, it, k) && it < |now|
    ensures k < |list| && now[it] == list[k]
    ensures Passing(now[..it] + now[it + 1..], list, kept, it, k + 1)
    ensures Passing(now, list, kept + [list[k]], it + 1, k + 1)
  {
    assert now[it + 1..] == list[k + 1..] && now[..it] == kept;
  }

  // ---- Adding labels.

  function Tracked(g: Graph, kind: Kind): Graph {
    if kind.Read? || kind.Write? then
      g.(coherence := if kind.addr in g.coherence then g.coherence else g.coherence[kind.addr := []],
         initRfs := if kind.addr in g.initRfs then g.initRfs else g.initRfs[kind.addr := []])
    else g
  }

  /** addLabelToGraph: appends a label to its thread with the next stamp. */
  function Added(g: Graph, t: nat, kind: Kind): Graph
    requires t < |g.events|
  {
    var h := Tracked(g, kind);
    h.(events := h.events[t := h.events[t] + [Label(kind, h.timestamp, None, [])]],
       order := h.order + [Event(t, |h.events[t]|)],
       timestamp := h.timestamp + 1)
  }

  lemma AddedLabels(g: Graph, t: nat, kind: Kind)
    requires t < |g.events|
    ensures var h, e := Added(g, t, kind), Event(t, |g.events[t]|);
      && !g.Contains(e) && h.Contains(e) && h.At(e) == Label(kind, g.timestamp, None, [])
      && (forall x: Event :: h.Contains(x) <==> g.Contains(x) || x == e)
      && (forall x: Event :: g.Contains(x) ==> h.At(x) == g.At(x))
  {
  }

  lemma AddedOrder(g: Graph, t: nat, kind: Kind)
    requires g.OrderOk() && t < |g.events|
    ensures Added(g, t, kind).OrderOk()
  {
    var h, e := Added(g, t, kind), Event(t, |g.events[t]|);
    AddedLabels(g, t, kind);
    assert h.order == g.order + [e];
    forall i | 0 <= i < |g.events[t]| ensures g.events[t][i].stamp < g.timestamp { assert g.Contains(Event(t, i)); }
    forall i, j | 0 <= i < j < |h.order| && h.Contains(h.order[i]) && h.Contains(h.order[j])
      ensures h.At(h.order[i]).stamp < h.At(h.order[j]).stamp && h.order[i] != h.order[j]
    {
      assert g.order[i] in g.order;
      if j < |g.order| { assert g.order[j] in g.order; }
    }
  }

  lemma AddedRf(g: Graph, t: nat, kind: Kind)
    requires g.RfOk() && g.initRfs.Keys == g.coherence.Keys && t < |g.events| && g.Contains(INIT)
    ensures Added(g, t, kind).RfOk()
  {
    var h, e := Added(g, t, kind), Event(t, |g.events[t]|);
    AddedLabels(g, t, kind);
    forall x: Event | h.Contains(x) ensures h.LabelOk(x) { if x != e { assert g.LabelOk(x); } }
    forall w: Event | h.Contains(w) && h.At(w).kind.Write? ensures NoDup(h.At(w).readers) { }
    forall w: Event, r: Event | h.Contains(w) && h.At(w).kind.Write?
      ensures r in h.At(w).readers <==> h.ReadsFrom(r, w)
    {
      assert h.ReadsFrom(r, w) <==> g.ReadsFrom(r, w);
      assert g.Contains(r) ==> g.LabelOk(r);
    }
    forall a, r: Event | a in h.initRfs ensures r in h.initRfs[a] <==> h.ReadsInit(r, a) {
      assert h.ReadsInit(r, a) <==> g.ReadsInit(r, a);
      assert g.Contains(r) ==> g.LabelOk(r);
    }
  }

  lemma AddedWellFormed(g: Graph, t: nat, kind: Kind)
    requires g.WellFormed() && t < |g.events| && (kind.Read? || kind.Write? || kind.Other?)
    ensures Added(g, t, kind).WellFormed()
  {
    AddedLabels(g, t, kind);
    AddedOrder(g, t, kind);
    AddedRf(g, t, kind);
  }

  // ---- Changing reads-from edges.

  /** Read r no longer appears in the reader list of src. */
  function Unlinked(g: Graph, r: Event, src: Option<Event>): Graph {
    match src
    case None => g
    case Some(w) =>
      if w == INIT then
        if g.Contains(r) && g.At(r).kind.Read? && g.At(r).kind.addr in g.initRfs then
          var a := g.At(r).kind.addr;
          g.(initRfs := g.initRfs[a := Drop(g.initRfs[a], r)])
        else g
      else if g.Contains(w) then g.With(w, g.At(w).(readers := Drop(g.At(w).readers, r)))
      else g
  }

  /** Read r is appended to the reader list of src. */
  function Linked(g: Graph, r: Event, src: Option<Event>): Graph {
    match src
    case None => g
    case Some(w) =>
      if w == INIT then
        if g.Contains(r) && g.At(r).kind.Read? && g.At(r).kind.addr in g.initRfs then
          var a := g.At(r).kind.addr;
          g.(initRfs := g.initRfs[a := g.initRfs[a] + [r]])
        else g
      else if g.Contains(w) then g.With(w, g.At(w).(readers := g.At(w).readers + [r]))
      else g
  }

  /** ReadLabel::setRf. */
  function RfSet(g: Graph, r: Event, src: Option<Event>): Graph
    requires g.Contains(r)
  {
    Linked(Unlinked(g.With(r, g.At(r).(rf := src)), r, g.At(r).rf), r, src)
  }

  /** The reader list of w once r reads from `now` instead of `was`. */
  function Relisted(list: seq<Event>, r: Event, w: Event, was: Option<Event>, now: Option<Event>): (s: seq<Event>)
    ensures forall x :: x in s <==> (x in list && !(was == Some(w) && x == r)) || (now == Some(w) && x == r)
    ensures NoDup(list) && (r in list ==> was == Some(w)) ==> NoDup(s)
  {
    var rest := if was == Some(w) then Drop(list, r) else list;
    assert (r in list ==> was == Some(w)) ==> r !in rest;
    if now == Some(w) then rest + [r] else rest
  }

  /** What the labels of a graph look like after setRf. */
  ghost predicate AfterRfSet(g: Graph, h: Graph, r: Event, src: Option<Event>)
    requires g.Contains(r) && g.At(r).kind.Read? && g.At(r).kind.addr in g.initRfs
  {
    && h.coherence == g.coherence && h.order == g.order && h.timestamp == g.timestamp
    && |h.events| == |g.events| && (forall t :: 0 <= t < |g.events| ==> |h.events[t]| == |g.events[t]|)
    && (forall x: Event :: g.Contains(x) ==> SameButRf(g, h, r, src, x))
    && h.initRfs == g.initRfs[g.At(r).kind.addr := Relisted(g.initRfs[g.At(r).kind.addr], r, INIT, g.At(r).rf, src)]
  }

  ghost predicate SameButRf(g: Graph, h: Graph, r: Event, src: Option<Event>, x: Event)
    requires g.Contains(r) && g.Contains(x)
  {
    h.Contains(x) && h.At(x) ==
      Label(g.At(x).kind, g.At(x).stamp, if x == r then src else g.At(x).rf,
            if x == INIT then g.At(x).readers else Relisted(g.At(x).readers, r, x, g.At(r).rf, src))
  }

  lemma WithLabels(g: Graph, e: Event, lab: Label)
    requires g.Contains(e)
    ensures var h := g.With(e, lab);
      && |h.events| == |g.events| && (forall t :: 0 <= t < |g.events| ==> |h.events[t]| == |g.events[t]|)
      && forall x: Event :: g.Contains(x) ==> h.Contains(x) && h.At(x) == if x == e then lab else g.At(x)
  {
  }

  /** Both list operations change the readers of the source only, if it is a write. */
  lemma ListLabels(g: Graph, r: Event, src: Option<Event>, h: Graph, x: Event)
    requires h == Unlinked(g, r, src) || h == Linked(g, r, src)
    requires g.Contains(x)
    ensures |h.events| == |g.events| && (forall t :: 0 <= t < |g.events| ==> |h.events[t]| == |g.events[t]|)
    ensures h.Contains(x)
    ensures !(src == Some(x) && x != INIT) ==> h.At(x) == g.At(x)
    ensures src == Some(x) && x != INIT ==>
      h.At(x) == g.At(x).(
        readers := if h == Unlinked(g, r, src) then Drop(g.At(x).readers, r) else g.At(x).readers + [r])
  {
    if src.Some? && src.value != INIT && g.Contains(src.value) {
      WithLabels(g, src.value, g.At(src.value).(readers := Drop(g.At(src.value).readers, r)));
      WithLabels(g, src.value, g.At(src.value).(readers := g.At(src.value).readers + [r]));
    }
  }

  lemma RfSetLabels(g: Graph, r: Event, src: Option<Event>)
    requires g.Contains(r) && g.At(r).kind.Read? && g.Contains(INIT)
    requires g.LabelOk(r) && g.At(r).kind.addr in g.initRfs && (src.Some? ==> g.Source(src.value))
    ensures AfterRfSet(g, RfSet(g, r, src), r, src)
  {
    var was := g.At(r).rf;
    var g1 := g.With(r, g.At(r).(rf := src));
    var g2 := Unlinked(g1, r, was);
    var h := Linked(g2, r, src);
    WithLabels(g, r, g.At(r).(rf := src));
    ListLabels(g1, r, was, g2, r);
    ListLabels(g2, r, src, h, r);
    forall x: Event | g.Contains(x) ensures SameButRf(g, h, r, src, x) {
      ListLabels(g1, r, was, g2, x);
      ListLabels(g2, r, src, h, x);
    }
    RfSetInitList(g, g1, g2, h, r, src);
  }

  lemma RfSetInitList(g: Graph, g1: Graph, g2: Graph, h: Graph, r: Event, src: Option<Event>)
    requires g.Contains(r) && g.At(r).kind.Read? && g.At(r).kind.addr in g.initRfs
    requires g1.Contains(r) && g1.At(r).kind == g.At(r).kind && g1.initRfs == g.initRfs
    requires g2 == Unlinked(g1, r, g.At(r).rf) && g2.Contains(r) && g2.At(r).kind == g.At(r).kind
    requires h == Linked(g2, r, src)
    ensures var a := g.At(r).kind.addr;
      h.initRfs == g.initRfs[a := Relisted(g.initRfs[a], r, INIT, g.At(r).rf, src)]
  {
    var a := g.At(r).kind.addr;
    assert g.initRfs == g.initRfs[a := g.initRfs[a]];
  }

  lemma RfSetReaders(g: Graph, h: Graph, r: Event, src: Option<Event>, w: Event)
    requires g.RfOk() && g.Contains(r) && g.At(r).kind.Read? && g.At(r).kind.addr in g.initRfs
    requires AfterRfSet(g, h, r, src) && w != INIT
    requires h.Contains(w) && h.At(w).kind.Write?
    ensures NoDup(h.At(w).readers) && forall x: Event :: x in h.At(w).readers <==> h.ReadsFrom(x, w)
  {
    assert g.Contains(w) && SameButRf(g, h, r, src, w);
    assert r in g.At(w).readers <==> g.ReadsFrom(r, w);
    forall x: Event ensures x in h.At(w).readers <==> h.ReadsFrom(x, w) {
      assert x in g.At(w).readers <==> g.ReadsFrom(x, w);
      assert h.Contains(x) <==> g.Contains(x);
      assert g.Contains(x) ==> SameButRf(g, h, r, src, x);
    }
  }

  lemma RfSetInit(g: Graph, h: Graph, r: Event, src: Option<Event>, b: int)
    requires g.RfOk() && g.Contains(r) && g.At(r).kind.Read? && g.At(r).kind.addr in g.initRfs
    requires AfterRfSet(g, h, r, src) && b in g.initRfs
    ensures NoDup(h.initRfs[b]) && forall x: Event :: x in h.initRfs[b] <==> h.ReadsInit(x, b)
  {
    var a := g.At(r).kind.addr;
    assert r in g.initRfs[a] <==> g.ReadsInit(r, a);
    forall x: Event ensures x in h.initRfs[b] <==> h.ReadsInit(x, b) {
      assert x in g.initRfs[b] <==> g.ReadsInit(x, b);
      assert h.Contains(x) <==> g.Contains(x);
      assert g.Contains(x) ==> SameButRf(g, h, r, src, x);
    }
  }

  lemma RfSetRf(g: Graph, h: Graph, r: Event, src: Option<Event>)
    requires g.RfOk() && g.Contains(r) && g.At(r).kind.Read? && g.At(r).kind.addr in g.initRfs
    requires AfterRfSet(g, h, r, src) && (src.Some? ==> g.Source(src.value)) && g.Contains(INIT) &&
      g.At(INIT).kind == Init
    ensures h.RfOk()
  {
    forall x: Event | h.Contains(x) ensures h.LabelOk(x) {
      assert g.Contains(x) && SameButRf(g, h, r, src, x) && g.LabelOk(x);
      if h.At(x).rf.Some? { assert g.Contains(h.At(x).rf.value) ==> SameButRf(g, h, r, src, h.At(x).rf.value); }
      if x != INIT && src == Some(x) { assert g.At(x).kind.Write?; }
    }
    assert SameButRf(g, h, r, src, INIT);
    forall w: Event | h.Contains(w) && h.At(w).kind.Write?
      ensures NoDup(h.At(w).readers) && forall x: Event :: x in h.At(w).readers <==> h.ReadsFrom(x, w)
    {
      RfSetReaders(g, h, r, src, w);
    }
    forall b | b in h.initRfs
      ensures NoDup(h.initRfs[b]) && forall x: Event :: x in h.initRfs[b] <==> h.ReadsInit(x, b)
    {
      RfSetInit(g, h, r, src, b);
    }
  }

  lemma RfSetWellFormed(g: Graph, r: Event, src: Option<Event>)
    requires g.WellFormed() && g.Contains(r) && g.At(r).kind.Read? && (src.Some? ==> g.Source(src.value))
    ensures RfSet(g, r, src).WellFormed()
  {
    assert g.LabelOk(r);
    var h := RfSet(g, r, src);
    RfSetLabels(g, r, src);
    assert AfterRfSet(g, h, r, src);
    RfSetRf(g, h, r, src);
    assert forall x: Event :: h.Contains(x) <==> g.Contains(x);
    forall x: Event | g.Contains(x) ensures h.At(x).kind == g.At(x).kind && h.At(x).stamp == g.At(x).stamp {
      assert SameButRf(g, h, r, src, x);
    }
    SameShape(g, h);
  }

  /** Order and coherence only look at positions, kinds and stamps. */
  lemma SameShape(g: Graph, h: Graph)
    requires g.BeginsOk() && g.OrderOk() && g.CoOk()
    requires h.order == g.order && h.timestamp == g.timestamp && h.coherence == g.coherence &&
      h.initRfs.Keys == g.initRfs.Keys
    requires |h.events| == |g.events| && (forall t :: 0 <= t < |g.events| ==> |h.events[t]| == |g.events[t]|)
    requires forall x: Event :: g.Contains(x) ==> h.At(x).kind == g.At(x).kind && h.At(x).stamp == g.At(x).stamp
    ensures h.BeginsOk() && h.OrderOk() && h.CoOk()
  {
    assert forall x: Event :: h.Contains(x) <==> g.Contains(x);
    forall t, i, j | 0 <= t < |h.events| && 0 <= i < j < |h.events[t]|
      ensures h.events[t][i].stamp < h.events[t][j].stamp
    {
      assert g.Contains(Event(t, i)) && g.Contains(Event(t, j));
      assert h.At(Event(t, i)).stamp == g.At(Event(t, i)).stamp && h.At(Event(t, j)).stamp == g.At(Event(t, j)).stamp;
      assert g.events[t][i].stamp < g.events[t][j].stamp;
    }
    forall a, w: Event | a in h.coherence && w in h.coherence[a] ensures h.IsWrite(w, a) { assert g.IsWrite(w, a); }
  }

  // ---- Coherence.

  function IndexOf(s: seq<Event>, e: Event): (i: nat)
    ensures i <= |s| && (i < |s| <==> e in s) && (i < |s| ==> s[i] == e)
    ensures forall j :: 0 <= j < i ==> s[j] != e
  {
    if |s| == 0 then 0 else if s[0] == e then 0 else 1 + IndexOf(s[1..], e)
  }

  /** WriteLabel::addCo: inserts w right after pred, or first if pred is the initializer. */
  function CoAdded(g: Graph, w: Event, a: int, pred: Event): Graph
    requires a in g.coherence && (pred == INIT || pred in g.coherence[a])
  {
    var coh := g.coherence[a];
    var k := if pred == INIT then 0 else IndexOf(coh, pred) + 1;
    g.(coherence := g.coherence[a := coh[..k] + [w] + coh[k..]])
  }

  /** WriteLabel::moveCo. */
  function CoMoved(g: Graph, w: Event, a: int, pred: Event): Graph
    requires a in g.coherence && pred != w && (pred == INIT || pred in g.coherence[a])
  {
    CoAdded(g.(coherence := g.coherence[a := Drop(g.coherence[a], w)]), w, a, pred)
  }

  /** Changing the coherence lists of tracked locations concerns CoOk only. */
  lemma OnlyCoherence(g: Graph, h: Graph)
    requires g.WellFormed() && h == g.(coherence := h.coherence) && h.coherence.Keys == g.coherence.Keys
    ensures h.BeginsOk() && h.OrderOk() && h.RfOk()
    ensures forall x: Event, b :: g.IsWrite(x, b) <==> h.IsWrite(x, b)
  {
    assert forall x: Event :: h.Contains(x) <==> g.Contains(x);
    assert forall x: Event :: g.Contains(x) ==> h.At(x) == g.At(x) && (g.LabelOk(x) ==> h.LabelOk(x));
    assert forall x: Event, y: Event :: g.ReadsFrom(x, y) <==> h.ReadsFrom(x, y);
    assert forall x: Event, b :: g.ReadsInit(x, b) <==> h.ReadsInit(x, b);
  }

  lemma CoAddedWellFormed(g: Graph, w: Event, a: int, pred: Event)
    requires g.WellFormed() && g.IsWrite(w, a) && a in g.coherence && w !in g.coherence[a]
    requires pred == INIT || pred in g.coherence[a]
    ensures CoAdded(g, w, a, pred).WellFormed()
  {
    var h := CoAdded(g, w, a, pred);
    var k := if pred == INIT then 0 else IndexOf(g.coherence[a], pred) + 1;
    Inserted(g.coherence[a], w, k);
    OnlyCoherence(g, h);
  }

  lemma Inserted(s: seq<Event>, w: Event, k: nat)
    requires NoDup(s) && w !in s && k <= |s|
    ensures NoDup(s[..k] + [w] + s[k..])
    ensures forall x :: x in s[..k] + [w] + s[k..] <==> x in s || x == w
  {
    forall x ensures x in s[..k] + [w] + s[k..] <==> x in s || x == w { assert s == s[..k] + s[k..]; }
  }

  lemma CoMovedWellFormed(g: Graph, w: Event, a: int, pred: Event)
    requires g.WellFormed() && a in g.coherence && w in g.coherence[a] && pred != w
    requires pred == INIT || pred in g.coherence[a]
    ensures CoMoved(g, w, a, pred).WellFormed()
  {
    var h := g.(coherence := g.coherence[a := Drop(g.coherence[a], w)]);
    OnlyCoherence(g, h);
    CoAddedWellFormed(h, w, a, pred);
  }

  // ---- Removing the last label of a thread.

  /** The reads in rs read from nothing. */
  function RfsCleared(g: Graph, rs: seq<Event>): Graph {
    if |rs| == 0 then g
    else
      var h := RfsCleared(g, rs[..|rs| - 1]);
      var r := rs[|rs| - 1];
      if h.Contains(r) then h.With(r, h.At(r).(rf := None)) else h
  }

  lemma {:induction false} RfsClearedLabels(g: Graph, rs: seq<Event>)
    ensures var h := RfsCleared(g, rs);
      && h == g.(events := h.events)
      && |h.events| == |g.events| && (forall t :: 0 <= t < |g.events| ==> |h.events[t]| == |g.events[t]|)
      && forall x: Event :: g.Contains(x) ==>
        h.Contains(x) && h.At(x) == if x in rs then g.At(x).(rf := None) else g.At(x)
  {
    if |rs| > 0 {
      var front, r := rs[..|rs| - 1], rs[|rs| - 1];
      assert rs == front + [r];
      RfsClearedLabels(g, front);
      var h := RfsCleared(g, front);
      if h.Contains(r) { WithLabels(h, r, h.At(r).(rf := None)); }
    }
  }

  function LastOf(g: Graph, t: nat): Event
    requires t < |g.events| && |g.events[t]| > 0
  {
    Event(t, |g.events[t]| - 1)
  }

  /** The first two steps of removeLast: the read leaves its reader list, the readers of the write read from nothing. */
  function Detached(g: Graph, e: Event): Graph
    requires g.Contains(e)
  {
    var h := Unlinked(g, e, g.At(e).rf);
    if g.At(e).kind.Write? then RfsCleared(h, g.At(e).readers) else h
  }

  /** removeLast: a removed read leaves its reader list, the readers of a removed write read from nothing. */
  function Removed(g: Graph, t: nat): Graph
    requires t < |g.events| && |g.events[t]| > 0
  {
    var e := LastOf(g, t);
    var k := Detached(g, e);
    if t < |k.events| && |k.events[t]| > 0 then
      k.(events := k.events[t := k.events[t][..|k.events[t]| - 1]], order := Drop(k.order, e))
    else k
  }

  ghost predicate SameButLast(g: Graph, h: Graph, e: Event, x: Event)
    requires g.Contains(e) && g.Contains(x)
  {
    h.Contains(x) && h.At(x) ==
      Label(g.At(x).kind, g.At(x).stamp,
            if g.At(e).kind.Write? && x in g.At(e).readers then None else g.At(x).rf,
            if g.At(e).rf == Some(x) && x != INIT then Drop(g.At(x).readers, e) else g.At(x).readers)
  }

  ghost predicate AfterRemoval(g: Graph, h: Graph, e: Event) {
    && g.Contains(e) && e.index > 0 && e.index == |g.events[e.thread]| - 1
    && h.coherence == g.coherence && h.timestamp == g.timestamp && h.order == Drop(g.order, e)
    && |h.events| == |g.events|
    && (forall u :: 0 <= u < |g.events| ==> |h.events[u]| == |g.events[u]| - if u == e.thread then 1 else 0)
    && (forall x: Event :: h.Contains(x) <==> g.Contains(x) && x != e)
    && (forall x: Event :: g.Contains(x) && x != e ==> SameButLast(g, h, e, x))
    && h.initRfs == (if g.At(e).rf == Some(INIT) && g.At(e).kind.Read? && g.At(e).kind.addr in g.initRfs
                     then g.initRfs[g.At(e).kind.addr := Drop(g.initRfs[g.At(e).kind.addr], e)] else g.initRfs)
  }

  lemma DetachedLabels(g: Graph, e: Event)
    requires g.Contains(e) && g.LabelOk(e)
    ensures var k := Detached(g, e);
      && |k.events| == |g.events| && (forall t :: 0 <= t < |g.events| ==> |k.events[t]| == |g.events[t]|)
      && k.order == g.order && k.coherence == g.coherence && k.timestamp == g.timestamp
      && k.initRfs == Unlinked(g, e, g.At(e).rf).initRfs
      && forall x: Event :: g.Contains(x) ==> SameButLast(g, k, e, x)
  {
    var h := Unlinked(g, e, g.At(e).rf);
    ListLabels(g, e, g.At(e).rf, h, e);
    RfsClearedLabels(h, g.At(e).readers);
    forall x: Event | g.Contains(x) ensures SameButLast(g, Detached(g, e), e, x) { ListLabels(g, e, g.At(e).rf, h, x); }
  }

  lemma RemovedLabels(g: Graph, t: nat)
    requires t < |g.events| && |g.events[t]| > 1 && g.LabelOk(LastOf(g, t)) && g.Contains(INIT)
    ensures AfterRemoval(g, Removed(g, t), LastOf(g, t))
  {
    DetachedLabels(g, LastOf(g, t));
  }

  /** Removing keeps the graph well-formed exactly when the label is in no coherence list, where it would dangle. */
  lemma RemovedWellFormed(g: Graph, t: nat)
    requires g.WellFormed() && t < |g.events| && |g.events[t]| > 1
    ensures Removed(g, t).WellFormed() <==> forall a :: a in g.coherence ==> LastOf(g, t) !in g.coherence[a]
  {
    var h, e := Removed(g, t), LastOf(g, t);
    assert g.LabelOk(e);
    RemovedLabels(g, t);
    if a :| a in g.coherence && e in g.coherence[a] {
      assert !h.IsWrite(e, a) && !h.CoOk();
    } else {
      RemovedOrder(g, h, e);
      RemovedRf(g, h, e);
      RemovedCo(g, h, e);
    }
  }

  lemma RemovedCo(g: Graph, h: Graph, e: Event)
    requires g.CoOk() && AfterRemoval(g, h, e) && forall a :: a in g.coherence ==> e !in g.coherence[a]
    ensures h.CoOk()
  {
    forall a, w: Event | a in h.coherence && w in h.coherence[a] ensures h.IsWrite(w, a) {
      assert g.IsWrite(w, a) && SameButLast(g, h, e, w);
    }
  }

  lemma RemovedOrder(g: Graph, h: Graph, e: Event)
    requires g.BeginsOk() && g.OrderOk() && AfterRemoval(g, h, e)
    ensures h.BeginsOk() && h.OrderOk()
  {
    forall x: Event | h.Contains(x) ensures h.At(x).kind == g.At(x).kind && h.At(x).stamp == g.At(x).stamp {
      assert SameButLast(g, h, e, x);
    }
    forall i, j | 0 <= i < j < |h.order| && h.Contains(h.order[i]) && h.Contains(h.order[j])
      ensures h.At(h.order[i]).stamp < h.At(h.order[j]).stamp
    {
      var k, l := DropPairs(g.order, e, i, j);
    }
    forall u, i, j | 0 <= u < |h.events| && 0 <= i < j < |h.events[u]|
      ensures h.events[u][i].stamp < h.events[u][j].stamp
    {
      assert h.At(Event(u, i)).stamp == g.At(Event(u, i)).stamp && h.At(Event(u, j)).stamp == g.At(Event(u, j)).stamp;
      assert g.events[u][i].stamp < g.events[u][j].stamp;
    }
  }

  lemma {:induction false} DropPairs(s: seq<Event>, e: Event, i: nat, j: nat) returns (k: nat, l: nat)
    requires i < j < |Drop(s, e)|
    ensures k < l < |s| && s[k] == Drop(s, e)[i] && s[l] == Drop(s, e)[j]
  {
    var front, last := s[..|s| - 1], s[|s| - 1];
    if j < |Drop(front, e)| {
      k, l := DropPairs(front, e, i, j);
    } else {
      l := |s| - 1;
      assert Drop(front, e)[i] in Drop(front, e);
      k :| 0 <= k < |front| && front[k] == Drop(front, e)[i];
    }
  }

  lemma RemovedRf(g: Graph, h: Graph, e: Event)
    requires g.BeginsOk() && g.RfOk() && g.CoOk() && AfterRemoval(g, h, e)
    ensures h.RfOk()
  {
    assert g.LabelOk(e);
    forall x: Event | h.Contains(x) ensures h.LabelOk(x) {
      assert SameButLast(g, h, e, x) && g.LabelOk(x);
      if h.At(x).rf.Some? && h.At(x).rf.value != INIT {
        var w := h.At(x).rf.value;
        assert g.ReadsFrom(x, w);
        assert g.At(e).kind.Write? ==> (x in g.At(e).readers <==> g.ReadsFrom(x, e));
        assert w != e && SameButLast(g, h, e, w);
      }
    }
    forall w: Event | h.Contains(w) && h.At(w).kind.Write?
      ensures NoDup(h.At(w).readers) && forall x: Event :: x in h.At(w).readers <==> h.ReadsFrom(x, w)
    {
      assert SameButLast(g, h, e, w) && w != INIT;
      forall x: Event ensures x in h.At(w).readers <==> h.ReadsFrom(x, w) {
        assert x in g.At(w).readers <==> g.ReadsFrom(x, w);
        assert h.Contains(x) ==> SameButLast(g, h, e, x);
        assert g.At(e).kind.Write? ==> (x in g.At(e).readers <==> g.ReadsFrom(x, e));
      }
    }
    forall a, x: Event | a in h.initRfs ensures x in h.initRfs[a] <==> h.ReadsInit(x, a) {
      assert x in g.initRfs[a] <==> g.ReadsInit(x, a);
      assert h.Contains(x) ==> SameButLast(g, h, e, x);
      assert g.At(e).kind.Write? ==> (x in g.At(e).readers <==> g.ReadsFrom(x, e));
    }
  }

  // ---- Cutting.

  /** v stays within the graph, thread by thread. */
  ghost predicate Fits(g: Graph, v: Clock) {
    forall t :: 0 <= t < |g.events| ==> GetMax(v, t) < |g.events[t]|
  }

  /** Some label inside v accesses location a. */
  ghost predicate KeptLoc(g: Graph, v: Clock, a: int) {
    exists e: Event :: g.Contains(e) && Has(v, e) && AccessesLoc(g.At(e).kind, a)
  }

  predicate AccessesLoc(kind: Kind, a: int) {
    kind == Read(a) || kind == Write(a)
  }

  /** What is left of a label: its new stamp is its place in the remaining insertion order. */
  function CutLabel(lab: Label, e: Event, order: seq<Event>, v: Clock): Label {
    Label(lab.kind, IndexOf(order, e),
          if lab.rf.Some? && Has(v, lab.rf.value) then lab.rf else None,
          Keep(lab.readers, v))
  }

  /** Per location accessed inside v, the part of its list inside v. */
  ghost function KeptLists(lists: map<int, seq<Event>>, g: Graph, v: Clock): map<int, seq<Event>> {
    map a | a in lists && KeptLoc(g, v, a) :: Keep(lists[a], v)
  }

  /** The part of the graph inside v. */
  ghost function Cut(g: Graph, v: Clock): Graph
    requires Fits(g, v)
  {
    var order := Keep(g.order, v);
    Graph(
      seq(|g.events|, t requires 0 <= t < |g.events| =>
        seq(GetMax(v, t) + 1, i requires 0 <= i <= GetMax(v, t) => CutLabel(g.events[t][i], Event(t, i), order, v))),
      KeptLists(g.initRfs, g, v),
      KeptLists(g.coherence, g, v),
      order,
      |order|)
  }

  lemma CutLabels(g: Graph, v: Clock)
    requires Fits(g, v)
    ensures forall e: Event :: Cut(g, v).Contains(e) <==> g.Contains(e) && Has(v, e)
    ensures forall e: Event :: g.Contains(e) && Has(v, e) ==>
      Cut(g, v).Contains(e) && Cut(g, v).At(e) == CutLabel(g.At(e), e, Keep(g.order, v), v)
  {
  }

  lemma {:induction false} KeepPairs(s: seq<Event>, v: Clock, i: nat, j: nat) returns (k: nat, l: nat)
    requires i < j < |Keep(s, v)|
    ensures k < l < |s| && s[k] == Keep(s, v)[i] && s[l] == Keep(s, v)[j]
  {
    var front, last := s[..|s| - 1], s[|s| - 1];
    if j < |Keep(front, v)| {
      k, l := KeepPairs(front, v, i, j);
    } else {
      l := |s| - 1;
      assert Keep(front, v)[i] in Keep(front, v);
      k :| 0 <= k < |front| && front[k] == Keep(front, v)[i];
    }
  }

  lemma IndexOfUnique(s: seq<Event>, i: nat)
    requires NoDup(s) && i < |s|
    ensures IndexOf(s, s[i]) == i
  {
    assert s[i] in s;
  }

  /** Renumbering by the remaining insertion order keeps the order of the stamps. */
  lemma CutStamps(g: Graph, v: Clock, d: Event, e: Event)
    requires g.OrderOk() && g.Contains(d) && g.Contains(e) && Has(v, d) && Has(v, e)
    requires g.At(d).stamp < g.At(e).stamp
    ensures IndexOf(Keep(g.order, v), d) < IndexOf(Keep(g.order, v), e) < |Keep(g.order, v)|
  {
    var order := Keep(g.order, v);
    var i, j := IndexOf(order, d), IndexOf(order, e);
    assert d in order && e in order && order[i] == d && order[j] == e && i != j;
    var k, l := KeepPairs(g.order, v, if i < j then i else j, if i < j then j else i);
    assert g.At(g.order[k]).stamp < g.At(g.order[l]).stamp;
  }

  lemma CutPo(g: Graph, v: Clock, t: nat, i: nat, j: nat)
    requires g.OrderOk() && Fits(g, v) && t < |g.events| && i < j <= GetMax(v, t)
    ensures Cut(g, v).events[t][i].stamp < Cut(g, v).events[t][j].stamp
  {
    assert g.events[t][i].stamp < g.events[t][j].stamp;
    CutStamps(g, v, Event(t, i), Event(t, j));
  }

  lemma CutEnumerated(g: Graph, v: Clock)
    requires g.OrderOk() && Fits(g, v)
    ensures var h := Cut(g, v);
      && (forall e: Event :: h.Contains(e) ==> h.At(e).stamp < h.timestamp)
      && (forall i, j :: 0 <= i < j < |h.order| && h.Contains(h.order[i]) && h.Contains(h.order[j]) ==>
            h.At(h.order[i]).stamp < h.At(h.order[j]).stamp)
  {
    var h, order := Cut(g, v), Keep(g.order, v);
    CutLabels(g, v);
    forall e: Event | h.Contains(e) ensures h.At(e).stamp < h.timestamp { assert e in order; }
    forall i, j | 0 <= i < j < |order| && h.Contains(order[i]) && h.Contains(order[j])
      ensures h.At(order[i]).stamp < h.At(order[j]).stamp
    {
      IndexOfUnique(order, i);
      IndexOfUnique(order, j);
    }
  }

  lemma CutOrder(g: Graph, v: Clock)
    requires g.OrderOk() && Fits(g, v)
    ensures Cut(g, v).OrderOk()
  {
    var h := Cut(g, v);
    CutLabels(g, v);
    CutEnumerated(g, v);
    forall t, i, j | 0 <= t < |h.events| && 0 <= i < j < |h.events[t]|
      ensures h.events[t][i].stamp < h.events[t][j].stamp
    {
      CutPo(g, v, t, i, j);
    }
  }

  lemma CutRf(g: Graph, v: Clock)
    requires g.BeginsOk() && g.RfOk() && g.CoOk() && Fits(g, v)
    ensures Cut(g, v).RfOk()
  {
    var h := Cut(g, v);
    CutLabels(g, v);
    forall e: Event | h.Contains(e) ensures h.LabelOk(e) {
      assert g.LabelOk(e);
      if AccessesLoc(g.At(e).kind, if g.At(e).kind.Read? || g.At(e).kind.Write? then g.At(e).kind.addr else 0) {
        assert KeptLoc(g, v, g.At(e).kind.addr);
      }
      if g.At(e).readers == [] { assert h.At(e).readers == []; }
    }
    forall w: Event, r: Event | h.Contains(w) && h.At(w).kind.Write?
      ensures r in h.At(w).readers <==> h.ReadsFrom(r, w)
    {
      assert r in g.At(w).readers <==> g.ReadsFrom(r, w);
    }
    forall a, r: Event | a in h.initRfs ensures r in h.initRfs[a] <==> h.ReadsInit(r, a) {
      assert r in g.initRfs[a] <==> g.ReadsInit(r, a);
    }
  }

  lemma CutBegins(g: Graph, v: Clock)
    requires g.BeginsOk() && Fits(g, v)
    ensures Cut(g, v).BeginsOk()
  {
    CutLabels(g, v);
  }

  lemma CutCo(g: Graph, v: Clock)
    requires g.CoOk() && Fits(g, v)
    ensures Cut(g, v).CoOk()
  {
    CutLabels(g, v);
    var h := Cut(g, v);
    forall a, w: Event | a in h.coherence && w in h.coherence[a] ensures h.IsWrite(w, a) { assert g.IsWrite(w, a); }
  }

  /** Cutting keeps a graph well-formed. */
  lemma CutWellFormed(g: Graph, v: Clock)
    requires g.WellFormed() && Fits(g, v)
    ensures Cut(g, v).WellFormed()
  {
    CutOrder(g, v);
    CutRf(g, v);
    CutBegins(g, v);
    CutCo(g, v);
  }

  // ---- Stamping labels anew.

  ghost predicate SameSizes(h: Graph, k: Graph) {
    |h.events| == |k.events| && forall t :: 0 <= t < |h.events| ==> |h.events[t]| == |k.events[t]|
  }

  lemma SameContents(h: Graph, k: Graph)
    requires SameSizes(h, k)
    ensures forall e: Event :: h.Contains(e) <==> k.Contains(e)
  {
  }

  /** The labels in `done` have their place in it as their stamp. */
  ghost predicate Stamped(now: Graph, was: Graph, done: seq<Event>) {
    SameSizes(now, was) && forall e: Event :: was.Contains(e) && now.Contains(e) ==>
      now.At(e) == if e in done then was.At(e).(stamp := IndexOf(done, e)) else was.At(e)
  }

  lemma StampedStep(now: Graph, was: Graph, done: seq<Event>, e: Event)
    requires Stamped(now, was, done) && e !in done && now.Contains(e)
    ensures Stamped(now.With(e, now.At(e).(stamp := |done|)), was, done + [e])
  {
    var next := now.With(e, now.At(e).(stamp := |done|));
    WithLabels(now, e, now.At(e).(stamp := |done|));
    forall x: Event | was.Contains(x) && next.Contains(x)
      ensures next.At(x) == if x in done + [e] then was.At(x).(stamp := IndexOf(done + [e], x)) else was.At(x)
    {
      IndexOfAppended(done, e, x);
    }
  }

  lemma IndexOfAppended(s: seq<Event>, e: Event, x: Event)
    requires e !in s
    ensures IndexOf(s + [e], x) == if x == e then |s| else if x in s then IndexOf(s, x) else |s| + 1
  {
    var i := IndexOf(s + [e], x);
    if x in s {
      assert s[IndexOf(s, x)] == (s + [e])[IndexOf(s, x)] == x;
    }
  }

  // ---- From-reads.

  /** co_max: the last write to a in coherence, or the initializer. */
  function CoMax(g: Graph, a: int): Event
    requires a in g.coherence
  {
    var coh := g.coherence[a];
    if |coh| == 0 then INIT else coh[|coh| - 1]
  }

  /** fr_imm_succ: the first write coherence-after the source of read r. */
  function FrImmSucc(g: Graph, r: Event): Option<Event>
    requires g.Contains(r) && g.At(r).kind.Read? && g.At(r).kind.addr in g.coherence
  {
    var coh := g.coherence[g.At(r).kind.addr];
    var rf := g.At(r).rf;
    var k := if rf.Some? && rf.value in coh then IndexOf(coh, rf.value) + 1 else 0;
    if k < |coh| then Some(coh[k]) else None
  }

  /** fr_imm_preds: the readers of the immediate coherence predecessor of write w. */
  function FrImmPreds(g: Graph, w: Event): seq<Event>
    requires g.Contains(w) && g.At(w).kind.Write?
    requires g.At(w).kind.addr in g.coherence && g.At(w).kind.addr in g.initRfs && w in g.coherence[g.At(w).kind.addr]
  {
    var a := g.At(w).kind.addr;
    var k := IndexOf(g.coherence[a], w);
    if k == 0 then g.initRfs[a]
    else
      var p := g.coherence[a][k - 1];
      if g.Contains(p) then g.At(p).readers else []
  }

  /** r reads from the initializer or from a write that is in the coherence list of its location. */
  ghost predicate Sourced(g: Graph, r: Event, a: int)
    requires g.Contains(r) && a in g.coherence
  {
    g.At(r).rf == Some(INIT) || (g.At(r).rf.Some? && g.At(r).rf.value in g.coherence[a])
  }

  /** x comes first in coherence, if r reads from the initializer, or directly after what r reads from. */
  ghost predicate NextInCo(coh: seq<Event>, rf: Option<Event>, x: Event) {
    if rf == Some(INIT) then |coh| > 0 && coh[0] == x
    else exists i :: 0 <= i < |coh| - 1 && Some(coh[i]) == rf && coh[i + 1] == x
  }

  /** fr_imm_succ of a read with a source in coherence is the write that comes next, if there is one. */
  lemma FrImmSuccIsNext(g: Graph, r: Event, a: int)
    requires g.WellFormed() && g.Contains(r) && g.At(r).kind == Read(a) && a in g.coherence && Sourced(g, r, a)
    ensures forall x: Event :: FrImmSucc(g, r) == Some(x) <==> NextInCo(g.coherence[a], g.At(r).rf, x)
    ensures FrImmSucc(g, r) == None <==> forall x: Event :: !NextInCo(g.coherence[a], g.At(r).rf, x)
  {
    var coh, rf := g.coherence[a], g.At(r).rf;
    forall x | x in coh ensures x != INIT { assert g.IsWrite(x, a); }
    var k := if rf == Some(INIT) then 0 else IndexOf(coh, rf.value) + 1;
    assert FrImmSucc(g, r) == if k < |coh| then Some(coh[k]) else None;
    if 0 < k < |coh| { assert Some(coh[k - 1]) == rf && NextInCo(coh, rf, coh[k - 1 + 1]); }
    forall x: Event | NextInCo(coh, rf, x) ensures k < |coh| && coh[k] == x { NextIsAt(coh, rf, x, k); }
  }

  lemma NextIsAt(coh: seq<Event>, rf: Option<Event>, x: Event, k: nat)
    requires NoDup(coh) && rf.Some? && NextInCo(coh, rf, x)
    requires k == if rf == Some(INIT) then 0 else IndexOf(coh, rf.value) + 1
    ensures k < |coh| && coh[k] == x
  {
    if rf != Some(INIT) {
      var i: nat :| i < |coh| - 1 && Some(coh[i]) == rf && coh[i + 1] == x;
      IndexOfUnique(coh, i);
    }
  }

  /** fr_imm_preds of a write are the reads of what comes directly before it in coherence. */
  lemma FrImmPredsRead(g: Graph, w: Event, a: int)
    requires g.WellFormed() && g.IsWrite(w, a) && a in g.coherence && w in g.coherence[a]
    ensures forall i: nat, r: Event :: i < |g.coherence[a]| && g.coherence[a][i] == w ==>
      (r in FrImmPreds(g, w) <==> if i == 0 then g.ReadsInit(r, a) else g.ReadsFrom(r, g.coherence[a][i - 1]))
  {
    var coh := g.coherence[a];
    forall i: nat, r: Event | i < |coh| && coh[i] == w
      ensures r in FrImmPreds(g, w) <==> if i == 0 then g.ReadsInit(r, a) else g.ReadsFrom(r, coh[i - 1])
    {
      IndexOfUnique(coh, i);
      if i == 0 {
        assert r in g.initRfs[a] <==> g.ReadsInit(r, a);
      } else {
        assert coh[i - 1] in coh && g.IsWrite(coh[i - 1], a);
        assert r in g.At(coh[i - 1]).readers <==> g.ReadsFrom(r, coh[i - 1]);
      }
    }
  }

  /** The two directions of immediate from-reads agree on whether write w is the one after the source of read r. */
  ghost predicate AgreeOn(g: Graph, r: Event, w: Event, a: int) {
    g.Contains(r) && g.At(r).kind == Read(a) && g.IsWrite(w, a) && a in g.initRfs && a in g.coherence &&
    w in g.coherence[a] ==>
      (FrImmSucc(g, r) == Some(w) <==> r in FrImmPreds(g, w))
  }

  /** The two directions agree on all writes to the location exactly if the read has a source in coherence, or there is
      no write; otherwise they disagree on the first write. What they agree on is the write next to the source. */
  lemma FromReadsAgree(g: Graph, r: Event, a: int)
    requires g.WellFormed() && g.Contains(r) && g.At(r).kind == Read(a) && a in g.coherence
    ensures (forall w: Event :: AgreeOn(g, r, w, a)) <==> g.coherence[a] == [] || Sourced(g, r, a)
    ensures Sourced(g, r, a) ==>
      forall x: Event :: FrImmSucc(g, r) == Some(x) <==> NextInCo(g.coherence[a], g.At(r).rf, x)
    ensures Sourced(g, r, a) && FrImmSucc(g, r) == None ==> forall x: Event :: !NextInCo(g.coherence[a], g.At(r).rf, x)
  {
    var coh := g.coherence[a];
    if Sourced(g, r, a) {
      FrImmSuccIsNext(g, r, a);
      forall w: Event | g.IsWrite(w, a) && w in coh ensures AgreeOn(g, r, w, a) { SourcedAgree(g, r, w, a); }
    } else if coh != [] {
      assert coh[0] in coh && g.IsWrite(coh[0], a);
      IndexOfUnique(coh, 0);
      assert r in g.initRfs[a] <==> g.ReadsInit(r, a);
      assert !AgreeOn(g, r, coh[0], a);
    }
  }

  lemma SourcedAgree(g: Graph, r: Event, w: Event, a: int)
    requires g.WellFormed() && g.Contains(r) && g.At(r).kind == Read(a) && a in g.coherence
    requires g.IsWrite(w, a) && w in g.coherence[a] && Sourced(g, r, a)
    ensures FrImmSucc(g, r) == Some(w) <==> r in FrImmPreds(g, w)
  {
    var coh, k := g.coherence[a], IndexOf(g.coherence[a], w);
    forall x | x in coh ensures x != INIT { assert g.IsWrite(x, a); }
    if k > 0 {
      var p := coh[k - 1];
      assert p in coh && g.IsWrite(p, a);
      assert r in g.At(p).readers <==> g.ReadsFrom(r, p);
      IndexOfUnique(coh, k - 1);
    } else {
      assert r in g.initRfs[a] <==> g.ReadsInit(r, a);
    }
    if g.At(r).rf.value in coh {
      var s := IndexOf(coh, g.At(r).rf.value);
      if s + 1 < |coh| { IndexOfUnique(coh, s + 1); }
    }
  }
}
