/** The second way to get at a part of an execution graph, a deep copy
    (genmc/genmc/Execution/ExecutionGraph.cpp:325-508), and that it agrees with the first, cutting the graph in
    place. */
module GraphCopies {
  import opened Options
  import opened Events
  import opened Relation
  import opened Clocks
  import opened Graphs
  import opened GraphEffects
  import opened ExecutionGraphs

  /** The same label, with no readers and any stamp. */
  predicate Clones(clone: Label, lab: Label) {
    clone == Label(lab.kind, clone.stamp, lab.rf, [])
  }

  /** Locations accessed by the labels of g inside v in threads before i, or in thread i before index j. */
  ghost predicate Tracks(lists: map<int, seq<Event>>, g: Graph, v: Clock, i: nat, j: nat) {
    (forall a :: a in lists <==> AccessedBefore(g, v, i, j, a)) && forall a :: a in lists ==> lists[a] == []
  }

  ghost predicate Cloned(h: Graph, g: Graph, v: Clock, i: nat, j: nat) {
    && |h.events| == |g.events|
    && (forall t :: 0 <= t < |g.events| ==>
          |h.events[t]| == if t < i then GetMax(v, t) + 1 else if t == i && j > 0 then j else if t == 0 then 1 else 0)
    && (forall e: Event :: h.Contains(e) ==> g.Contains(e) && Clones(h.At(e), g.At(e)))
    && Tracks(h.coherence, g, v, i, j) && Tracks(h.initRfs, g, v, i, j)
  }

  lemma ClonedStep(g: Graph, v: Clock, i: nat, j: nat, a: int)
    requires Fits(g, v) && i < |g.events| && j <= GetMax(v, i)
    ensures AccessedBefore(g, v, i, j + 1, a) <==> AccessedBefore(g, v, i, j, a) || AccessesLoc(g.events[i][j].kind, a)
  {
    var e := Event(i, j);
    assert g.Contains(e) && Has(v, e) && g.At(e) == g.events[i][j];
  }

  lemma ClonedRow(h: Graph, g: Graph, v: Clock, i: nat)
    requires Fits(g, v) && i < |g.events| && Cloned(h, g, v, i, GetMax(v, i) + 1)
    ensures Cloned(h, g, v, i + 1, 0)
  {
  }

  /** addLabelToGraph for a label that has its stamp. */
  method AddClone(other: ExecutionGraph, t: nat, lab: Label)
    requires t < |other.events|
    modifies other
    ensures other.events == old(other.events)[t := old(other.events)[t] + [lab]]
    ensures other.coherence == (if (lab.kind.Read? || lab.kind.Write?) && lab.kind.addr !in old(other.coherence)
                                then old(other.coherence)[lab.kind.addr := []] else old(other.coherence))
    ensures other.initRfs == (if (lab.kind.Read? || lab.kind.Write?) && lab.kind.addr !in old(other.initRfs)
                              then old(other.initRfs)[lab.kind.addr := []] else old(other.initRfs))
  {
    if lab.kind.Read? || lab.kind.Write? { other.TrackCoherenceAtLoc(lab.kind.addr); }
    other.insertionOrder := other.insertionOrder + [Event(t, |other.events[t]|)];
    other.events := other.events[t := other.events[t] + [lab]];
  }

  lemma CloneAdded(h: Graph, k: Graph, g: Graph, v: Clock, i: nat, j: nat, lab: Label)
    requires Fits(g, v) && i < |g.events| && 0 < i + j && j <= GetMax(v, i) && Clones(lab, g.events[i][j])
    requires Cloned(h, g, v, i, j)
    requires k.events == h.events[i := h.events[i] + [lab]]
    requires forall a :: a in k.coherence <==> a in h.coherence || AccessesLoc(lab.kind, a)
    requires forall a :: a in k.coherence ==> k.coherence[a] == if a in h.coherence then h.coherence[a] else []
    requires forall a :: a in k.initRfs <==> a in h.initRfs || AccessesLoc(lab.kind, a)
    requires forall a :: a in k.initRfs ==> k.initRfs[a] == if a in h.initRfs then h.initRfs[a] else []
    ensures Cloned(k, g, v, i, j + 1)
  {
    forall a ensures AccessedBefore(g, v, i, j + 1, a) <==> AccessedBefore(g, v, i, j, a) || AccessesLoc(lab.kind, a) {
      ClonedStep(g, v, i, j, a);
    }
    forall e: Event | k.Contains(e) ensures g.Contains(e) && Clones(k.At(e), g.At(e)) {
      if h.Contains(e) { assert k.At(e) == h.At(e); } else { assert e == Event(i, j); }
    }
  }

  /** The labels of the copy. */
  method CopyLabels(g: Graph, other: ExecutionGraph, v: Clock)
    requires g.WellFormed() && Fits(g, v)
    requires other.State() == Graph([[Label(Init, 0, None, [])]], map[], map[], [INIT], 1)
    modifies other
    ensures Cloned(other.State(), g, v, |g.events|, 0)
  {
    assert g.LabelOk(INIT);
    other.events := other.events + seq(|g.events| - 1, _ => []);
    for i := 0 to |g.events|
      invariant Cloned(other.State(), g, v, i, 0)
    {
      var first := if i == 0 then 1 else 0;
      if i == 0 { InitCloned(other.State(), g, v); }
      for j := first to GetMax(v, i) + 1
        invariant Cloned(other.State(), g, v, i, j)
      {
        ghost var h := other.State();
        var lab := g.events[i][j].(readers := []);
        AddClone(other, i, lab);
        CloneAdded(h, other.State(), g, v, i, j, lab);
      }
      ClonedRow(other.State(), g, v, i);
    }
  }

  /** The label of the initializer is there from the start. */
  lemma InitCloned(now: Graph, g: Graph, v: Clock)
    requires g.WellFormed() && Fits(g, v) && Cloned(now, g, v, 0, 0)
    ensures Cloned(now, g, v, 0, 1)
  {
    forall a ensures !AccessedBefore(g, v, 0, 1, a) { }
  }

  /** The first i labels of the order have been considered. */
  ghost predicate Reordered(now: Graph, was: Graph, order: seq<Event>, v: Clock, i: nat)
    requires i <= |order|
  {
    now.order == Keep(order[..i], v) && now.timestamp == |now.order| && Stamped(now, was, now.order)
  }

  lemma ReorderedStep(now: Graph, was: Graph, order: seq<Event>, v: Clock, i: nat)
    requires i < |order| && NoDup(order) && Reordered(now, was, order, v, i)
    requires was.Contains(order[i]) <==> Has(v, order[i])
    ensures now.Contains(order[i]) <==> Has(v, order[i])
    ensures !Has(v, order[i]) ==> Reordered(now, was, order, v, i + 1)
    ensures Has(v, order[i]) ==>
      Reordered(now.With(order[i], now.At(order[i]).(stamp := now.timestamp)).
                  (order := now.order + [order[i]], timestamp := now.timestamp + 1), was, order, v, i + 1)
  {
    assert order[..i + 1][..i] == order[..i];
    SameContents(now, was);
    if Has(v, order[i]) {
      StampedStep(now, was, now.order, order[i]);
      StampedLabels(now.With(order[i], now.At(order[i]).(stamp := now.timestamp)), was, now.order + [order[i]]);
    }
  }

  lemma StampedLabels(now: Graph, was: Graph, done: seq<Event>)
    requires Stamped(now, was, done)
    ensures forall h: Graph :: h.events == now.events ==> Stamped(h, was, done)
  {
    forall h: Graph | h.events == now.events ensures Stamped(h, was, done) {
      assert forall e: Event :: h.Contains(e) <==> now.Contains(e);
      assert forall e: Event :: h.Contains(e) ==> h.At(e) == now.At(e);
    }
  }

  /** The insertion order of the copy: that of the original, without the labels not copied, which gives the stamps. */
  method CopyOrder(g: Graph, other: ExecutionGraph, ghost v: Clock)
    requires NoDup(g.order) && (forall e: Event :: e in g.order <==> g.Contains(e))
    requires forall e: Event :: other.State().Contains(e) <==> g.Contains(e) && Has(v, e)
    modifies other`events, other`insertionOrder, other`timestamp
    ensures Reordered(other.State(), old(other.State()), g.order, v, |g.order|)
  {
    ghost var was := other.State();
    other.insertionOrder, other.timestamp := [], 0;
    StampedLabels(was, was, []);
    for i := 0 to |g.order|
      invariant Reordered(other.State(), was, g.order, v, i)
    {
      var e := g.order[i];
      assert e in g.order;
      ghost var now := other.State();
      ReorderedStep(now, was, g.order, v, i);
      if other.State().Contains(e) {
        other.SetLabel(e, other.State().At(e).(stamp := other.timestamp));
        other.insertionOrder := other.insertionOrder + [e];
        other.timestamp := other.timestamp + 1;
        assert other.State() == now.With(e, now.At(e).(stamp := now.timestamp)).
                                  (order := now.order + [e], timestamp := now.timestamp + 1);
      }
    }
  }

  /** The elements of a list inside the view, one at a time. */
  method KeepInside(list: seq<Event>, v: Clock) returns (kept: seq<Event>)
    ensures kept == Keep(list, v)
  {
    kept := [];
    for i := 0 to |list|
      invariant kept == Keep(list[..i], v)
    {
      KeepNext(list, v, i);
      if Has(v, list[i]) { kept := kept + [list[i]]; }
    }
    assert list[..|list|] == list;
  }

  /** A label of the copy once its links are those of the original inside the view. */
  function Relinked(clone: Label, lab: Label, v: Clock): Label {
    Label(clone.kind, clone.stamp,
          if clone.kind.Read? && clone.rf.Some? && !Has(v, clone.rf.value) then None else clone.rf,
          if clone.kind.Write? then Keep(lab.readers, v) else clone.readers)
  }

  /** The first i labels in the list have their links fixed. */
  ghost predicate Fixed(now: Graph, was: Graph, g: Graph, order: seq<Event>, i: nat, v: Clock) {
    SameSizes(now, was) && forall e: Event :: was.Contains(e) && now.Contains(e) && g.Contains(e) ==>
      now.At(e) == if IndexOf(order, e) < i then Relinked(was.At(e), g.At(e), v) else was.At(e)
  }

  lemma FixedStep(now: Graph, was: Graph, g: Graph, order: seq<Event>, i: nat, v: Clock)
    requires Fixed(now, was, g, order, i, v) && NoDup(order) && i < |order|
    requires now.Contains(order[i]) && g.Contains(order[i])
    ensures was.Contains(order[i]) && now.At(order[i]) == was.At(order[i])
    ensures Fixed(now.With(order[i], Relinked(now.At(order[i]), g.At(order[i]), v)), was, g, order, i + 1, v)
  {
    var e := order[i];
    IndexOfUnique(order, i);
    assert was.Contains(e);
    WithLabels(now, e, Relinked(now.At(e), g.At(e), v));
    forall x: Event ensures IndexOf(order, x) == i ==> x == e { }
  }

  /** Makes the labels of the copy point to labels of the copy. */
  method FixLinks(g: Graph, other: ExecutionGraph, v: Clock)
    requires NoDup(other.insertionOrder)
    requires forall e: Event :: e in other.insertionOrder <==> other.State().Contains(e)
    requires forall e: Event :: other.State().Contains(e) ==> g.Contains(e)
    modifies other`events
    ensures Fixed(other.State(), old(other.State()), g, other.insertionOrder, |other.insertionOrder|, v)
    ensures forall e: Event :: other.State().Contains(e) <==> old(other.State()).Contains(e)
    ensures forall e: Event :: other.State().Contains(e) ==>
      other.State().At(e).kind == old(other.State()).At(e).kind &&
      other.State().At(e).stamp == old(other.State()).At(e).stamp
    ensures forall e: Event, w: Event :: other.State().Contains(e) && other.State().At(e).kind.Read? ==>
      (other.State().ReadsFrom(e, w) <==> old(other.State()).ReadsFrom(e, w) && Has(v, w))
    ensures forall w: Event :: other.State().Contains(w) && other.State().At(w).kind.Write? ==>
      Thinned(g.At(w).readers, other.State().At(w).readers, v)
  {
    ghost var was := other.State();
    Relink(g, other, v);
    FixedEffect(other.State(), was, g, other.insertionOrder, v);
  }

  lemma FixedEffect(now: Graph, was: Graph, g: Graph, order: seq<Event>, v: Clock)
    requires Fixed(now, was, g, order, |order|, v)
    requires forall e: Event :: e in order <==> was.Contains(e)
    requires forall e: Event :: was.Contains(e) ==> g.Contains(e)
    ensures forall e: Event :: now.Contains(e) <==> was.Contains(e)
    ensures forall e: Event :: now.Contains(e) ==>
      now.At(e).kind == was.At(e).kind && now.At(e).stamp == was.At(e).stamp
    ensures forall e: Event, w: Event :: now.Contains(e) && now.At(e).kind.Read? ==>
      (now.ReadsFrom(e, w) <==> was.ReadsFrom(e, w) && Has(v, w))
    ensures forall w: Event :: now.Contains(w) && now.At(w).kind.Write? ==>
      Thinned(g.At(w).readers, now.At(w).readers, v)
  {
    SameContents(now, was);
    forall e: Event | now.Contains(e) ensures now.At(e) == Relinked(was.At(e), g.At(e), v) { assert e in order; }
    forall w: Event | now.Contains(w) && now.At(w).kind.Write? ensures Thinned(g.At(w).readers, now.At(w).readers, v) {
      KeepThins(g.At(w).readers, v);
    }
  }

  /** The loop over the insertion order. */
  method Relink(g: Graph, other: ExecutionGraph, v: Clock)
    requires NoDup(other.insertionOrder)
    requires forall e: Event :: e in other.insertionOrder <==> other.State().Contains(e)
    requires forall e: Event :: other.State().Contains(e) ==> g.Contains(e)
    modifies other`events
    ensures Fixed(other.State(), old(other.State()), g, other.insertionOrder, |other.insertionOrder|, v)
  {
    ghost var was := other.State();
    for i := 0 to |other.insertionOrder|
      invariant Fixed(other.State(), was, g, other.insertionOrder, i, v)
    {
      var e := other.insertionOrder[i];
      assert was.Contains(e);
      assert other.State().Contains(e);
      FixedStep(other.State(), was, g, other.insertionOrder, i, v);
      var lab := other.State().At(e);
      if lab.kind.Read? && lab.rf.Some? && !Has(v, lab.rf.value) { lab := lab.(rf := None); }
      if lab.kind.Write? {
        var readers := KeepInside(g.At(e).readers, v);
        lab := lab.(readers := readers);
      }
      other.SetLabel(e, lab);
    }
  }

  /** The lists of the locations in `todo` are still empty, the others hold what is inside the view. */
  ghost predicate Copying(now: map<int, seq<Event>>, lists: map<int, seq<Event>>, todo: set<int>, keys: set<int>,
                         v: Clock)
  {
    now.Keys == keys && (forall a :: a in keys ==> a in lists) &&
    (forall a :: a in lists && a !in keys ==> Keep(lists[a], v) == []) &&
    forall a :: a in now ==> now[a] == if a in todo then [] else Keep(lists[a], v)
  }

  lemma CopyingStep(now: map<int, seq<Event>>, next: map<int, seq<Event>>, lists: map<int, seq<Event>>, todo: set<int>,
                   keys: set<int>, v: Clock, a: int)
    requires Copying(now, lists, todo, keys, v) && a in todo && todo <= lists.Keys
    requires Grown(next, now, a, Keep(lists[a], v))
    ensures Copying(next, lists, todo - {a}, keys, v)
  {
  }

  lemma CopyingDone(now: map<int, seq<Event>>, lists: map<int, seq<Event>>, keys: set<int>, v: Clock)
    requires Copying(now, lists, {}, keys, v)
    ensures now == Filtered(lists, keys, v)
  {
    var goal := Filtered(lists, keys, v);
    forall a ensures a in now <==> a in goal { assert a in now.Keys <==> a in keys; }
    forall a | a in now ensures now[a] == goal[a] { }
  }

  lemma CoAppended(h: Graph, w: Event, a: int)
    requires a in h.coherence && INIT !in h.coherence[a] && NoDup(h.coherence[a])
    ensures CoAdded(h, w, a, CoMax(h, a)).coherence == h.coherence[a := h.coherence[a] + [w]]
  {
    var coh := h.coherence[a];
    if |coh| > 0 {
      IndexOfUnique(coh, |coh| - 1);
      assert coh[|coh| - 1] in coh;
    }
    assert coh[..|coh|] + [w] + coh[|coh|..] == coh + [w];
  }

  /** addCo with the coherence maximum. */
  method AppendCo(other: ExecutionGraph, w: Event, a: int)
    requires a in other.coherence && INIT !in other.coherence[a] && NoDup(other.coherence[a])
    modifies other`coherence
    ensures other.coherence == old(other.coherence)[a := old(other.coherence)[a] + [w]]
  {
    CoAppended(other.State(), w, a);
    other.AddCo(w, a, CoMax(other.State(), a));
  }

  /** The list of location a, if there is one, is `list`, the other lists are as they were. */
  ghost predicate Grown(now: map<int, seq<Event>>, was: map<int, seq<Event>>, a: int, list: seq<Event>) {
    if a in was then now == was[a := list] else now == was && list == []
  }

  lemma GrownStep(now: map<int, seq<Event>>, was: map<int, seq<Event>>, a: int, s: seq<Event>, v: Clock, i: nat)
    requires i < |s| && Grown(now, was, a, Keep(s[..i], v)) && NoDup(s) && (a in was || Keep(s, v) == [])
    ensures Has(v, s[i]) ==> a in now && now[a] == Keep(s[..i], v) && NoDup(now[a])
    ensures Has(v, s[i]) ==> Grown(now[a := now[a] + [s[i]]], was, a, Keep(s[..i + 1], v))
    ensures !Has(v, s[i]) ==> Grown(now, was, a, Keep(s[..i + 1], v))
  {
    assert s[..i + 1][..i] == s[..i];
    assert s[i] in s;
    assert Has(v, s[i]) ==> s[i] in Keep(s, v);
  }

  /** Appends the stores of a location that are inside the view to its coherence list. */
  method CopyStores(other: ExecutionGraph, a: int, stores: seq<Event>, v: Clock)
    requires INIT !in stores && NoDup(stores)
    requires if a in other.coherence then other.coherence[a] == [] else Keep(stores, v) == []
    modifies other`coherence
    ensures Grown(other.coherence, old(other.coherence), a, Keep(stores, v))
  {
    for i := 0 to |stores|
      invariant Grown(other.coherence, old(other.coherence), a, Keep(stores[..i], v))
    {
      GrownStep(other.coherence, old(other.coherence), a, stores, v, i);
      if Has(v, stores[i]) { AppendCo(other, stores[i], a); }
    }
    assert stores[..|stores|] == stores;
  }

  /** Appends the reads of the initializer that are inside the view to the reader list of their location. */
  method CopyInitReaders(other: ExecutionGraph, a: int, readers: seq<Event>, v: Clock)
    requires NoDup(readers)
    requires if a in other.initRfs then other.initRfs[a] == [] else Keep(readers, v) == []
    modifies other`initRfs
    ensures Grown(other.initRfs, old(other.initRfs), a, Keep(readers, v))
  {
    for i := 0 to |readers|
      invariant Grown(other.initRfs, old(other.initRfs), a, Keep(readers[..i], v))
    {
      GrownStep(other.initRfs, old(other.initRfs), a, readers, v, i);
      if Has(v, readers[i]) { other.initRfs := other.initRfs[a := other.initRfs[a] + [readers[i]]]; }
    }
    assert readers[..|readers|] == readers;
  }

  lemma SomethingInside(s: seq<Event>)
    ensures s == [] || exists x :: x in s
  {
    if s != [] { assert s[0] in s; }
  }

  /** The lists hold what is inside the view, for locations accessed inside the view; they are empty elsewhere. */
  lemma NothingElsewhere(g: Graph, v: Clock, a: int)
    requires g.WellFormed() && a in g.coherence && !KeptLoc(g, v, a)
    ensures Keep(g.coherence[a], v) == [] && Keep(g.initRfs[a], v) == []
  {
    forall w: Event ensures w !in Keep(g.coherence[a], v) {
      assert w in g.coherence[a] && Has(v, w) ==> g.IsWrite(w, a);
    }
    forall r: Event ensures r !in Keep(g.initRfs[a], v) {
      assert r in g.initRfs[a] <==> g.ReadsInit(r, a);
    }
    SomethingInside(Keep(g.coherence[a], v));
    SomethingInside(Keep(g.initRfs[a], v));
  }

  /** The loop over the coherence lists, location by location. */
  method CopyCoherence(lists: map<int, seq<Event>>, other: ExecutionGraph, v: Clock)
    requires Copying(other.coherence, lists, lists.Keys, other.coherence.Keys, v)
    requires forall a :: a in lists ==> INIT !in lists[a] && NoDup(lists[a])
    modifies other`coherence
    ensures other.coherence == Filtered(lists, old(other.coherence).Keys, v)
  {
    ghost var keys := other.coherence.Keys;
    var todo: set<int> := lists.Keys;
    while todo != {}
      invariant todo <= lists.Keys && Copying(other.coherence, lists, todo, keys, v)
      decreases |todo|
    {
      Inhabited(todo);
      var a: int :| a in todo;
      ghost var now := other.coherence;
      assert a in now ==> now[a] == [];
      CopyStores(other, a, lists[a], v);
      CopyingStep(now, other.coherence, lists, todo, keys, v, a);
      todo := todo - {a};
    }
    CopyingDone(other.coherence, lists, keys, v);
  }

  /** The loop over the readers of the initializer, location by location. */
  method CopyReaders(lists: map<int, seq<Event>>, other: ExecutionGraph, v: Clock)
    requires Copying(other.initRfs, lists, lists.Keys, other.initRfs.Keys, v)
    requires forall a :: a in lists ==> NoDup(lists[a])
    modifies other`initRfs
    ensures other.initRfs == Filtered(lists, old(other.initRfs).Keys, v)
  {
    ghost var keys := other.initRfs.Keys;
    var todo: set<int> := lists.Keys;
    while todo != {}
      invariant todo <= lists.Keys && Copying(other.initRfs, lists, todo, keys, v)
      decreases |todo|
    {
      Inhabited(todo);
      var a: int :| a in todo;
      ghost var now := other.initRfs;
      assert a in now ==> now[a] == [];
      CopyInitReaders(other, a, lists[a], v);
      CopyingStep(now, other.initRfs, lists, todo, keys, v, a);
      todo := todo - {a};
    }
    CopyingDone(other.initRfs, lists, keys, v);
  }

  lemma SameElements(x: set<int>, y: set<int>)
    requires forall a :: a in x <==> a in y
    ensures x == y
  {
    assert forall a :: a in x ==> a in y;
    assert forall a :: a in y ==> a in x;
    assert x - y == {} && y - x == {};
  }

  /** Before the loops over locations: the right locations, with empty lists. */
  lemma NothingCopied(g: Graph, v: Clock, cloned: Graph)
    requires g.WellFormed() && Fits(g, v) && Cloned(cloned, g, v, |g.events|, 0)
    ensures Copying(cloned.coherence, g.coherence, g.coherence.Keys, cloned.coherence.Keys, v)
    ensures Copying(cloned.initRfs, g.initRfs, g.initRfs.Keys, cloned.initRfs.Keys, v)
    ensures forall a :: a in cloned.coherence.Keys <==> KeptLoc(g, v, a)
    ensures cloned.initRfs.Keys == cloned.coherence.Keys
  {
    forall a ensures (a in cloned.coherence <==> KeptLoc(g, v, a)) && (a in cloned.initRfs <==> KeptLoc(g, v, a)) { }
    forall a | KeptLoc(g, v, a) ensures a in g.coherence {
      var e: Event :| g.Contains(e) && Has(v, e) && AccessesLoc(g.At(e).kind, a);
      assert g.LabelOk(e);
    }
    assert forall a :: a in cloned.coherence.Keys <==> KeptLoc(g, v, a);
    assert forall a :: a in cloned.initRfs.Keys <==> KeptLoc(g, v, a);
    SameElements(cloned.initRfs.Keys, cloned.coherence.Keys);
    assert forall a :: KeptLoc(g, v, a) ==> a in g.coherence.Keys && a in g.initRfs.Keys;
    forall a | a in g.coherence && a !in cloned.coherence
      ensures Keep(g.coherence[a], v) == [] && Keep(g.initRfs[a], v) == []
    {
      NothingElsewhere(g, v, a);
    }
  }

  /** The copied labels, stamped and linked, are those of the cut. */
  lemma CopiedLabels(g: Graph, v: Clock, cloned: Graph, stamped: Graph, fixed: Graph)
    requires g.WellFormed() && Fits(g, v) && Cloned(cloned, g, v, |g.events|, 0)
    requires Stamped(stamped, cloned, Keep(g.order, v))
    requires Fixed(fixed, stamped, g, Keep(g.order, v), |Keep(g.order, v)|, v)
    ensures fixed.events == Cut(g, v).events
  {
    assert |fixed.events| == |g.events| && forall t :: 0 <= t < |g.events| ==> |fixed.events[t]| == GetMax(v, t) + 1;
    forall t, i | 0 <= t < |fixed.events| && 0 <= i < |fixed.events[t]|
      ensures fixed.events[t][i] == Cut(g, v).events[t][i]
    {
      CopiedLabel(g, v, cloned, stamped, fixed, Event(t, i));
    }
    SameEvents(fixed.events, Cut(g, v).events);
  }

  lemma CopiedLabel(g: Graph, v: Clock, cloned: Graph, stamped: Graph, fixed: Graph, e: Event)
    requires g.WellFormed() && Fits(g, v) && Cloned(cloned, g, v, |g.events|, 0)
    requires Stamped(stamped, cloned, Keep(g.order, v))
    requires Fixed(fixed, stamped, g, Keep(g.order, v), |Keep(g.order, v)|, v)
    requires e.thread < |g.events| && e.index <= GetMax(v, e.thread)
    ensures fixed.Contains(e) && Cut(g, v).Contains(e) && fixed.At(e) == Cut(g, v).At(e)
  {
    assert g.Contains(e) && Has(v, e) && e in Keep(g.order, v) && g.LabelOk(e);
    assert cloned.Contains(e) && stamped.Contains(e) && fixed.Contains(e);
    assert fixed.At(e) == Relinked(stamped.At(e), g.At(e), v);
  }

  /** The loops of copyGraphUpTo over labels. */
  method CopyEvents(g: Graph, other: ExecutionGraph, v: Clock)
    requires g.WellFormed() && Fits(g, v)
    requires other.State() == Graph([[Label(Init, 0, None, [])]], map[], map[], [INIT], 1)
    modifies other
    ensures other.events == Cut(g, v).events
    ensures other.insertionOrder == Keep(g.order, v) && other.timestamp == |Keep(g.order, v)|
    ensures Copying(other.coherence, g.coherence, g.coherence.Keys, other.coherence.Keys, v)
    ensures Copying(other.initRfs, g.initRfs, g.initRfs.Keys, other.initRfs.Keys, v)
    ensures forall a :: a in other.coherence.Keys <==> KeptLoc(g, v, a)
    ensures other.initRfs.Keys == other.coherence.Keys
  {
    CopyLabels(g, other, v);
    ghost var cloned := other.State();
    forall e: Event ensures cloned.Contains(e) <==> g.Contains(e) && Has(v, e) { }
    NothingCopied(g, v, cloned);
    CopyOrder(g, other, v);
    assert g.order[..|g.order|] == g.order;
    ghost var stamped := other.State();
    SameContents(stamped, cloned);
    FixLinks(g, other, v);
    CopiedLabels(g, v, cloned, stamped, other.State());
  }

  /** copyGraphUpTo, into a graph that holds the initializer only. */
  method CopyGraphUpTo(g: Graph, other: ExecutionGraph, v: Clock)
    requires g.WellFormed() && Fits(g, v)
    requires other.State() == Graph([[Label(Init, 0, None, [])]], map[], map[], [INIT], 1)
    modifies other
    ensures other.State() == Cut(g, v)
  {
    CopyEvents(g, other, v);
    ghost var keep := other.coherence.Keys;
    WritesListed(g);
    CopyCoherence(g.coherence, other, v);
    CopyReaders(g.initRfs, other, v);
    CutLocations(g, v, keep);
  }

  lemma WritesListed(g: Graph)
    requires g.BeginsOk() && g.CoOk()
    ensures forall a :: a in g.coherence ==> INIT !in g.coherence[a] && NoDup(g.coherence[a])
  {
    forall a | a in g.coherence
      ensures INIT !in g.coherence[a]
    {
      assert INIT in g.coherence[a] ==> g.IsWrite(INIT, a);
    }
  }

  /** getCopyUpTo: the copy is a graph of its own, the original is left as it is. */
  method GetCopyUpTo(graph: ExecutionGraph, v: Clock) returns (other: ExecutionGraph)
    requires graph.Valid() && Fits(graph.State(), v)
    ensures fresh(other) && other.Valid() && other.State() == Cut(graph.State(), v)
    ensures forall e: Event :: other.State().Contains(e) <==> graph.State().Contains(e) && Has(v, e)
    ensures forall e: Event :: other.State().Contains(e) ==> other.State().At(e).kind == graph.State().At(e).kind
    ensures forall r: Event, w: Event ::
      other.State().ReadsFrom(r, w) <==> graph.State().ReadsFrom(r, w) && Has(v, r) && Has(v, w)
    ensures ListsThinned(graph.State(), other.State(), v)
  {
    CutEffect(graph.State(), v);
    other := new ExecutionGraph();
    CopyGraphUpTo(graph.State(), other, v);
    CutWellFormed(graph.State(), v);
  }

  lemma {:induction false} KeepSame(s: seq<Event>, v: Clock, w: Clock)
    requires SameReach(v, w)
    ensures Keep(s, v) == Keep(s, w)
  {
    if |s| > 0 { KeepSame(s[..|s| - 1], v, w); }
  }

  ghost predicate SameReach(v: Clock, w: Clock) {
    forall e: Event :: Has(v, e) <==> Has(w, e)
  }

  lemma SameCutLabels(g: Graph, v: Clock, w: Clock)
    requires Fits(g, v) && Fits(g, w) && SameReach(v, w) && forall t: nat :: GetMax(v, t) == GetMax(w, t)
    ensures Cut(g, v).events == Cut(g, w).events
  {
    var order := Keep(g.order, v);
    KeepSame(g.order, v, w);
    forall t, i | 0 <= t < |g.events| && 0 <= i <= GetMax(v, t)
      ensures CutLabel(g.events[t][i], Event(t, i), order, v) == CutLabel(g.events[t][i], Event(t, i), order, w)
    {
      KeepSame(g.events[t][i].readers, v, w);
    }
    SameEvents(Cut(g, v).events, Cut(g, w).events);
  }

  lemma SameCutLists(lists: map<int, seq<Event>>, g: Graph, v: Clock, w: Clock)
    requires SameReach(v, w)
    ensures KeptLists(lists, g, v) == KeptLists(lists, g, w)
  {
    forall a | a in lists ensures Keep(lists[a], v) == Keep(lists[a], w) { KeepSame(lists[a], v, w); }
    assert forall a :: KeptLoc(g, v, a) <==> KeptLoc(g, w, a);
  }

  lemma SameCut(g: Graph, v: Clock, w: Clock)
    requires Fits(g, v) && Fits(g, w) && forall t: nat :: GetMax(v, t) == GetMax(w, t)
    ensures Cut(g, v) == Cut(g, w)
  {
    SameCutLabels(g, v, w);
    KeepSame(g.order, v, w);
    SameCutLists(g.coherence, g, v, w);
    SameCutLists(g.initRfs, g, v, w);
  }

  /** A stamp determines the cut. */
  lemma OneCut(g: Graph, stamp: nat, v: Clock, w: Clock)
    requires UpToStamp(g, stamp, v) && UpToStamp(g, stamp, w)
    ensures Cut(g, v) == Cut(g, w)
  {
    forall t: nat ensures GetMax(v, t) == GetMax(w, t) {
      if t < |g.events| {
        assert g.Contains(Event(t, GetMax(v, t))) && g.Contains(Event(t, GetMax(w, t)));
        assert Has(v, Event(t, GetMax(v, t))) && Has(w, Event(t, GetMax(w, t)));
      }
    }
    SameCut(g, v, w);
  }

  /** Copying up to the view of a stamp gives the graph that cutting to the stamp leaves: the same labels, links,
      coherence lists, insertion order and stamps. */
  method CutAndCopyAgree(graph: ExecutionGraph, stamp: nat) returns (copy: ExecutionGraph)
    requires graph.Valid()
    modifies graph
    ensures fresh(copy) && copy.Valid() && graph.Valid() && copy.State() == graph.State()
    ensures forall e: Event :: copy.State().Contains(e) <==>
      old(graph.State()).Contains(e) && (e.index == 0 || old(graph.State()).At(e).stamp <= stamp)
    ensures forall r: Event, w: Event :: copy.State().ReadsFrom(r, w) <==>
      old(graph.State()).ReadsFrom(r, w) && copy.State().Contains(r) && copy.State().Contains(w)
  {
    var view := graph.GetViewFromStamp(stamp);
    copy := GetCopyUpTo(graph, view);
    ghost var g := graph.State();
    ghost var preds := graph.CutToStamp(stamp);
    OneCut(g, stamp, view, preds);
  }
}
