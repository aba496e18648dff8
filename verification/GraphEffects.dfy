/** What the operations on graphs do, said on labels and lists one by one, apart from the functions of the module Graphs
    that compute the new graphs. */
module GraphEffects {
  import opened Options
  import opened Events
  import opened Relation
  import opened Clocks
  import opened Graphs

  /** x stands before y in s. */
  ghost predicate Before(s: seq<Event>, x: Event, y: Event) {
    exists i, j :: 0 <= i < j < |s| && s[i] == x && s[j] == y
  }

  /** `now` is the part of `was` inside v, in the same order. */
  ghost predicate Thinned(was: seq<Event>, now: seq<Event>, v: Clock) {
    && (forall x: Event :: x in now <==> x in was && Has(v, x))
    && forall x: Event, y: Event :: Before(now, x, y) <==> Before(was, x, y) && Has(v, x) && Has(v, y)
  }

  /** Graph h lists what g lists inside v, in the same order: the readers of each write, per location accessed inside v
      coherence and the readers of the initializer, and the insertion order, which stamps the labels. */
  ghost predicate ListsThinned(g: Graph, h: Graph, v: Clock) {
    && (forall w: Event :: g.Contains(w) && h.Contains(w) ==> Thinned(g.At(w).readers, h.At(w).readers, v))
    && LocationsThinned(g, h.coherence, h.initRfs, v)
    && Thinned(g.order, h.order, v) && h.timestamp == |h.order|
    && forall i :: 0 <= i < |h.order| ==> h.Contains(h.order[i]) && h.At(h.order[i]).stamp == i
  }

  ghost predicate LocationsThinned(g: Graph, coherence: map<int, seq<Event>>, initRfs: map<int, seq<Event>>, v: Clock) {
    && (forall a :: a in coherence <==>
          exists e: Event :: g.Contains(e) && Has(v, e) && (g.At(e).kind == Read(a) || g.At(e).kind == Write(a)))
    && initRfs.Keys == coherence.Keys
    && (forall a :: a in coherence ==> a in g.coherence && Thinned(g.coherence[a], coherence[a], v))
    && (forall a :: a in initRfs ==> a in g.initRfs && Thinned(g.initRfs[a], initRfs[a], v))
  }

  /** `now` is `was` without r, if r leaves it, and with r at the end, if r joins it. */
  ghost predicate Relists(was: seq<Event>, now: seq<Event>, r: Event, leaves: bool, joins: bool) {
    if leaves then
      exists i :: 0 <= i < |was| && was[i] == r && now == was[..i] + was[i + 1..] + if joins then [r] else []
    else now == was + if joins then [r] else []
  }

  lemma {:induction false} DropAt(s: seq<Event>, e: Event, i: nat)
    requires NoDup(s) && i < |s| && s[i] == e
    ensures Drop(s, e) == s[..i] + s[i + 1..]
  {
    var front, last := s[..|s| - 1], s[|s| - 1];
    if i == |s| - 1 {
      assert e !in front && s[..i] + s[i + 1..] == front;
      DropNone(front, e);
    } else {
      assert front[i] == s[i] && last != e && NoDup(front);
      DropAt(front, e, i);
      assert front[..i] + front[i + 1..] + [last] == s[..i] + s[i + 1..];
    }
  }

  lemma {:induction false} DropNone(s: seq<Event>, e: Event)
    requires e !in s
    ensures Drop(s, e) == s
  {
    if |s| > 0 {
      assert s == s[..|s| - 1] + [s[|s| - 1]];
      DropNone(s[..|s| - 1], e);
    }
  }

  lemma RelistedRelists(list: seq<Event>, r: Event, w: Event, was: Option<Event>, src: Option<Event>)
    requires NoDup(list) && (r in list <==> was == Some(w))
    ensures Relists(list, Relisted(list, r, w, was, src), r, was == Some(w), src == Some(w))
  {
    if was == Some(w) {
      var i :| 0 <= i < |list| && list[i] == r;
      DropAt(list, r, i);
      assert Drop(list, r) + [] == Drop(list, r);
    } else {
      assert list + [] == list;
    }
  }

  /** Keeping leaves the order of what remains. */
  lemma KeepBefore(s: seq<Event>, v: Clock, x: Event, y: Event)
    ensures Before(Keep(s, v), x, y) <==> Before(s, x, y) && Has(v, x) && Has(v, y)
  {
    if Before(Keep(s, v), x, y) {
      var i, j :| 0 <= i < j < |Keep(s, v)| && Keep(s, v)[i] == x && Keep(s, v)[j] == y;
      assert x in Keep(s, v) && y in Keep(s, v);
      var k, l := KeepPairs(s, v, i, j);
    }
    if Before(s, x, y) && Has(v, x) && Has(v, y) { BeforeKept(s, v, x, y); }
  }

  lemma {:induction false} BeforeKept(s: seq<Event>, v: Clock, x: Event, y: Event)
    requires Before(s, x, y) && Has(v, x) && Has(v, y)
    ensures Before(Keep(s, v), x, y)
  {
    var i, j :| 0 <= i < j < |s| && s[i] == x && s[j] == y;
    var front := s[..|s| - 1];
    assert front[i] == x;
    if j < |s| - 1 {
      assert front[j] == y;
      BeforeKept(front, v, x, y);
      var k, l :| 0 <= k < l < |Keep(front, v)| && Keep(front, v)[k] == x && Keep(front, v)[l] == y;
      assert Keep(s, v)[k] == x && Keep(s, v)[l] == y;
    } else {
      var k :| 0 <= k < |Keep(front, v)| && Keep(front, v)[k] == x;
      assert Keep(s, v)[k] == x && Keep(s, v)[|Keep(front, v)|] == y;
    }
  }

  /** Accesses are tracked: what was tracked stays, a new location has empty lists. */
  ghost predicate Tracks(was: map<int, seq<Event>>, now: map<int, seq<Event>>, kind: Kind) {
    && (forall a :: a in now <==> a in was || kind == Read(a) || kind == Write(a))
    && forall a :: a in now ==> now[a] == if a in was then was[a] else []
  }

  lemma AddedEffect(g: Graph, t: nat, kind: Kind)
    requires t < |g.events|
    ensures var h := Added(g, t, kind);
      && h.events == g.events[t := g.events[t] + [Label(kind, g.timestamp, None, [])]]
      && h.order == g.order + [Event(t, |g.events[t]|)] && h.timestamp == g.timestamp + 1
      && Tracks(g.coherence, h.coherence, kind) && Tracks(g.initRfs, h.initRfs, kind)
  {
  }

  lemma RfSetEffect(g: Graph, r: Event, src: Option<Event>)
    requires g.WellFormed() && g.Contains(r) && g.At(r).kind.Read? && (src.Some? ==> g.Source(src.value))
    ensures var h, was := RfSet(g, r, src), g.At(r).rf;
      && (forall x: Event :: h.Contains(x) <==> g.Contains(x))
      && (forall x: Event :: g.Contains(x) ==> h.At(x).kind == g.At(x).kind && h.At(x).stamp == g.At(x).stamp)
      && (forall x: Event :: g.Contains(x) ==> h.At(x).rf == if x == r then src else g.At(x).rf)
      && (forall w: Event :: g.Contains(w) && w != INIT ==>
            Relists(g.At(w).readers, h.At(w).readers, r, was == Some(w), src == Some(w)))
      && h.initRfs.Keys == g.initRfs.Keys
      && (forall a :: a in g.initRfs ==>
            Relists(g.initRfs[a], h.initRfs[a], r, a == g.At(r).kind.addr && was == Some(INIT),
                    a == g.At(r).kind.addr && src == Some(INIT)))
  {
    var h, was := RfSet(g, r, src), g.At(r).rf;
    assert g.LabelOk(r);
    RfSetLabels(g, r, src);
    forall x: Event | g.Contains(x) ensures SameButRf(g, h, r, src, x) { }
    forall w: Event | g.Contains(w) && w != INIT
      ensures Relists(g.At(w).readers, h.At(w).readers, r, was == Some(w), src == Some(w))
    {
      RfSetReadersEffect(g, h, r, src, w);
    }
    forall a | a in g.initRfs
      ensures Relists(g.initRfs[a], h.initRfs[a], r, a == g.At(r).kind.addr && was == Some(INIT),
                      a == g.At(r).kind.addr && src == Some(INIT))
    {
      RfSetInitEffect(g, h, r, src, a);
    }
  }

  lemma RfSetReadersEffect(g: Graph, h: Graph, r: Event, src: Option<Event>, w: Event)
    requires g.RfOk() && g.Contains(r) && g.At(r).kind.Read? && g.Contains(w) && w != INIT
    requires g.At(r).kind.addr in g.initRfs && AfterRfSet(g, h, r, src)
    requires src.Some? ==> g.Source(src.value)
    ensures h.Contains(w) && Relists(g.At(w).readers, h.At(w).readers, r, g.At(r).rf == Some(w), src == Some(w))
  {
    assert SameButRf(g, h, r, src, w) && g.LabelOk(w) && g.LabelOk(r);
    assert g.At(w).kind.Write? ==> (r in g.At(w).readers <==> g.ReadsFrom(r, w));
    RelistedRelists(g.At(w).readers, r, w, g.At(r).rf, src);
  }

  lemma RfSetInitEffect(g: Graph, h: Graph, r: Event, src: Option<Event>, a: int)
    requires g.RfOk() && g.Contains(r) && g.At(r).kind.Read? && a in g.initRfs
    requires g.At(r).kind.addr in g.initRfs && AfterRfSet(g, h, r, src)
    ensures var here := a == g.At(r).kind.addr;
      a in h.initRfs &&
      Relists(g.initRfs[a], h.initRfs[a], r, here && g.At(r).rf == Some(INIT), here && src == Some(INIT))
  {
    assert r in g.initRfs[a] <==> g.ReadsInit(r, a);
    if a == g.At(r).kind.addr {
      RelistedRelists(g.initRfs[a], r, INIT, g.At(r).rf, src);
    } else {
      assert g.initRfs[a] + [] == g.initRfs[a];
    }
  }

  lemma RemovedEffect(g: Graph, t: nat)
    requires g.WellFormed() && t < |g.events| && |g.events[t]| > 1
    ensures var h, e := Removed(g, t), Event(t, |g.events[t]| - 1);
      && (forall x: Event :: h.Contains(x) <==> g.Contains(x) && x != e)
      && (forall x: Event :: h.Contains(x) ==> h.At(x).kind == g.At(x).kind && h.At(x).stamp == g.At(x).stamp)
      && (forall x: Event :: h.Contains(x) ==> h.At(x).rf == if g.At(x).rf == Some(e) then None else g.At(x).rf)
      && (forall w: Event :: h.Contains(w) && w != INIT ==>
            Relists(g.At(w).readers, h.At(w).readers, e, g.At(e).rf == Some(w), false))
      && h.initRfs.Keys == g.initRfs.Keys
      && (forall a :: a in g.initRfs ==> Relists(g.initRfs[a], h.initRfs[a], e, g.ReadsInit(e, a), false))
      && Relists(g.order, h.order, e, true, false)
  {
    var h, e := Removed(g, t), LastOf(g, t);
    assert g.LabelOk(e) && e in g.order;
    RemovedLabels(g, t);
    RelistedRelists(g.order, e, e, Some(e), None);
    forall x: Event | h.Contains(x)
      ensures SameButLast(g, h, e, x) && h.At(x).rf == if g.At(x).rf == Some(e) then None else g.At(x).rf
    {
      assert g.LabelOk(x) && SameButLast(g, h, e, x);
      assert g.At(e).kind.Write? ==> (x in g.At(e).readers <==> g.ReadsFrom(x, e));
    }
    RemovedReadersEffect(g, h, e);
  }

  lemma RemovedReadersEffect(g: Graph, h: Graph, e: Event)
    requires g.RfOk() && g.Contains(e) && AfterRemoval(g, h, e)
    ensures forall w: Event :: h.Contains(w) && w != INIT ==>
      Relists(g.At(w).readers, h.At(w).readers, e, g.At(e).rf == Some(w), false)
    ensures h.initRfs.Keys == g.initRfs.Keys
    ensures forall a :: a in g.initRfs ==> Relists(g.initRfs[a], h.initRfs[a], e, g.ReadsInit(e, a), false)
  {
    forall w: Event | h.Contains(w) && w != INIT
      ensures Relists(g.At(w).readers, h.At(w).readers, e, g.At(e).rf == Some(w), false)
    {
      assert SameButLast(g, h, e, w) && g.LabelOk(w) && g.LabelOk(e);
      assert g.At(w).kind.Write? ==> (e in g.At(w).readers <==> g.ReadsFrom(e, w));
      RelistedRelists(g.At(w).readers, e, w, g.At(e).rf, None);
    }
    forall a | a in g.initRfs ensures Relists(g.initRfs[a], h.initRfs[a], e, g.ReadsInit(e, a), false) {
      assert e in g.initRfs[a] <==> g.ReadsInit(e, a);
      RelistedRelists(g.initRfs[a], e, INIT, if g.ReadsInit(e, a) then Some(INIT) else None, None);
    }
  }

  /** The k elements before w are those up to its predecessor, or none. */
  ghost predicate PlacedAfter(was: seq<Event>, now: seq<Event>, w: Event, pred: Event) {
    exists k :: 0 <= k <= |was| && now == was[..k] + [w] + was[k..] &&
      if pred == INIT then k == 0 else k > 0 && was[k - 1] == pred
  }

  lemma CoAddedEffect(g: Graph, w: Event, a: int, pred: Event)
    requires a in g.coherence && (pred == INIT || pred in g.coherence[a])
    ensures var h := CoAdded(g, w, a, pred);
      && h == g.(coherence := h.coherence) && h.coherence == g.coherence[a := h.coherence[a]]
      && PlacedAfter(g.coherence[a], h.coherence[a], w, pred)
  {
    var h, coh := CoAdded(g, w, a, pred), g.coherence[a];
    var k := if pred == INIT then 0 else IndexOf(coh, pred) + 1;
    assert h.coherence[a] == coh[..k] + [w] + coh[k..];
  }

  /** Moving is placing in the list without the write. */
  lemma CoMovedEffect(g: Graph, w: Event, a: int, pred: Event) returns (rest: seq<Event>)
    requires a in g.coherence && NoDup(g.coherence[a]) && w in g.coherence[a] && pred != w
    requires pred == INIT || pred in g.coherence[a]
    ensures Relists(g.coherence[a], rest, w, true, false)
    ensures var h := CoMoved(g, w, a, pred);
      && h == g.(coherence := h.coherence) && h.coherence == g.coherence[a := h.coherence[a]]
      && PlacedAfter(rest, h.coherence[a], w, pred)
  {
    rest := Drop(g.coherence[a], w);
    RelistedRelists(g.coherence[a], w, w, Some(w), None);
    CoAddedEffect(g.(coherence := g.coherence[a := rest]), w, a, pred);
  }

  lemma KeepThins(list: seq<Event>, v: Clock)
    ensures Thinned(list, Keep(list, v), v)
  {
    forall x: Event, y: Event ensures Before(Keep(list, v), x, y) <==> Before(list, x, y) && Has(v, x) && Has(v, y) {
      KeepBefore(list, v, x, y);
    }
  }

  /** A cut keeps the labels inside the view, their kinds, the reads-from edges between them, and their lists. */
  lemma CutEffect(g: Graph, v: Clock)
    requires g.WellFormed() && Fits(g, v)
    ensures var h := Cut(g, v);
      && (forall e: Event :: h.Contains(e) <==> g.Contains(e) && Has(v, e))
      && (forall e: Event :: h.Contains(e) ==> h.At(e).kind == g.At(e).kind)
      && (forall r: Event, w: Event :: h.ReadsFrom(r, w) <==> g.ReadsFrom(r, w) && Has(v, r) && Has(v, w))
      && ListsThinned(g, h, v)
  {
    var h := Cut(g, v);
    CutLabels(g, v);
    forall w: Event | g.Contains(w) && h.Contains(w) ensures Thinned(g.At(w).readers, h.At(w).readers, v) {
      KeepThins(g.At(w).readers, v);
    }
    KeepThins(g.order, v);
    forall i | 0 <= i < |h.order| ensures h.Contains(h.order[i]) && h.At(h.order[i]).stamp == i {
      assert h.order[i] in h.order;
      IndexOfUnique(h.order, i);
    }
    CutLocationsEffect(g, v);
  }

  /** What is read from is there. */
  lemma EdgesInside(g: Graph)
    requires g.RfOk() && g.Contains(INIT)
    ensures forall r: Event, w: Event :: g.ReadsFrom(r, w) ==> g.Contains(w)
  {
    forall r: Event, w: Event | g.ReadsFrom(r, w) ensures g.Contains(w) { assert g.LabelOk(r); }
  }

  lemma CutLocationsEffect(g: Graph, v: Clock)
    requires g.WellFormed() && Fits(g, v)
    ensures LocationsThinned(g, Cut(g, v).coherence, Cut(g, v).initRfs, v)
  {
    var h := Cut(g, v);
    forall a
      ensures a in h.coherence <==>
        exists e: Event :: g.Contains(e) && Has(v, e) && (g.At(e).kind == Read(a) || g.At(e).kind == Write(a))
    {
      if e: Event :| g.Contains(e) && Has(v, e) && (g.At(e).kind == Read(a) || g.At(e).kind == Write(a)) {
        assert g.LabelOk(e) && AccessesLoc(g.At(e).kind, a);
      }
      if a in h.coherence {
        var e: Event :| g.Contains(e) && Has(v, e) && AccessesLoc(g.At(e).kind, a);
      }
    }
    forall a | a in h.coherence ensures Thinned(g.coherence[a], h.coherence[a], v) { KeepThins(g.coherence[a], v); }
    forall a | a in h.initRfs ensures Thinned(g.initRfs[a], h.initRfs[a], v) { KeepThins(g.initRfs[a], v); }
  }
}
