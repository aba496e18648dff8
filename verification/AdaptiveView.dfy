/** The compressed access summary of genmc/genmc/ADT/AdaptiveView.hpp and AdaptiveView.cpp. Clocks are values here
    (the module Views shows that the shared representation behaves so); what the summary cannot see of a clock's
    representation, namely whether View::contains recognises an inclusion, is an arbitrary sound test. */
module AdaptiveViews {
  import opened Events
  import opened Clocks

  const SMALL_VECTOR_CAPACITY := 8

  datatype Storage =
    | OneEvent(e: Event)
    | Several(es: seq<Event>)
    | Whole(view: Clock)
    | Update(pos: Event, hb: Clock)
    | Empty

  /** Everything the summary stands for is contained in clock c. An Update stands for its position only. */
  ghost predicate Below(s: Storage, c: Clock) {
    match s
    case OneEvent(e) => Has(c, e)
    case Several(es) => forall e :: e in es ==> Has(c, e)
    case Whole(view) => Leq(view, c)
    case Update(pos, _) => Has(c, pos)
    case Empty => true
  }

  /** A test for inclusion of clocks that may miss inclusions but never invents one. */
  ghost predicate Sound(covers: (Clock, Clock) -> bool) {
    forall c: Clock, d: Clock :: covers(c, d) ==> Leq(d, c)
  }

  // ---- The operations as functions on the storage.

  function FindThread(es: seq<Event>, thread: nat): (i: nat)
    ensures i <= |es| && (i < |es| ==> es[i].thread == thread)
    ensures forall j :: 0 <= j < i ==> es[j].thread != thread
  {
    if |es| == 0 then 0
    else if es[0].thread == thread then 0
    else 1 + FindThread(es[1..], thread)
  }

  function AddEvent(s: Storage, e: Event): Storage
    requires s.Whole? || s.Several?
  {
    if s.Whole? then Whole(See(s.view, e))
    else
      var i := FindThread(s.es, e.thread);
      if i < |s.es| then Several(s.es[i := Max(s.es[i], e)])
      else if |s.es| < SMALL_VECTOR_CAPACITY then Several(s.es + [e])
      else Whole(See(SeeAll([], s.es), e))
  }

  function AddEvents(s: Storage, es: seq<Event>): (r: Storage)
    requires s.Whole? || s.Several?
    ensures r.Whole? || r.Several?
  {
    if |es| == 0 then s else AddEvent(AddEvents(s, es[..|es| - 1]), es[|es| - 1])
  }

  function Unify(l: Event, r: Event): Storage {
    if l.thread != r.thread then Several([l, r]) else OneEvent(Max(l, r))
  }

  function Strip(s: Storage): Storage {
    if s.Update? then OneEvent(s.pos) else s
  }

  function Joined(s: Storage, rhs: Storage): Storage {
    match (Strip(s), Strip(rhs))
    case (l, Empty) => l
    case (Empty, r) => r
    case (OneEvent(l), OneEvent(r)) => Unify(l, r)
    case (OneEvent(l), Several(_)) => AddEvent(Strip(rhs), l)
    case (OneEvent(l), Whole(v)) => Whole(See(v, l))
    case (Several(_), OneEvent(r)) => AddEvent(Strip(s), r)
    case (Several(_), Several(es)) => AddEvents(Strip(s), es)
    case (Several(es), Whole(v)) => Whole(SeeAll(v, es))
    case (Whole(v), OneEvent(r)) => Whole(See(v, r))
    case (Whole(v), Several(es)) => Whole(SeeAll(v, es))
    case (Whole(v), Whole(w)) => Whole(Merge(v, w))
  }

  function Unseen(es: seq<Event>, c: Clock): (r: seq<Event>)
    ensures forall e :: e in r <==> e in es && !Has(c, e)
  {
    if |es| == 0 then []
    else
      var last := es[|es| - 1];
      assert es == es[..|es| - 1] + [last];
      Unseen(es[..|es| - 1], c) + if Has(c, last) then [] else [last]
  }

  /** operator+=, where the right-hand side is Empty or Update. */
  function Accumulated(covers: (Clock, Clock) -> bool, s: Storage, rhs: Storage): Storage {
    if !rhs.Update? then s
    else match s
      case Empty => OneEvent(rhs.pos)
      case OneEvent(e) => if Has(rhs.hb, e) then OneEvent(rhs.pos) else Several([e, rhs.pos])
      case Update(e, _) => if Has(rhs.hb, e) then OneEvent(rhs.pos) else Several([e, rhs.pos])
      case Several(es) =>
        var left := Unseen(es, rhs.hb);
        if left == [] then OneEvent(rhs.pos) else AddEvent(Several(left), rhs.pos)
      case Whole(v) => if covers(rhs.hb, v) then OneEvent(rhs.pos) else Whole(See(v, rhs.pos))
  }

  // ---- What they mean.

  lemma MaxBelow(e: Event, f: Event, c: Clock)
    requires e.thread == f.thread
    ensures Has(c, Max(e, f)) <==> Has(c, e) && Has(c, f)
  {
  }

  lemma AddEventBelow(s: Storage, e: Event, c: Clock)
    requires s.Whole? || s.Several?
    ensures Below(AddEvent(s, e), c) <==> Below(s, c) && Has(c, e)
  {
    if s.Whole? {
      SeeBelow(s.view, e, c);
    } else {
      var i := FindThread(s.es, e.thread);
      if i < |s.es| {
        var es := s.es[i := Max(s.es[i], e)];
        MaxBelow(s.es[i], e, c);
        assert es[i] in es;
        forall f | f in es && f != es[i]
          ensures f in s.es
        {
          var j :| 0 <= j < |es| && es[j] == f;
          assert s.es[j] == f;
        }
        forall f | f in s.es && f != s.es[i]
          ensures f in es
        {
          var j :| 0 <= j < |es| && s.es[j] == f;
          assert es[j] == f;
        }
      } else if |s.es| >= SMALL_VECTOR_CAPACITY {
        SeeBelow(SeeAll([], s.es), e, c);
      }
    }
  }

  lemma {:induction false} AddEventsBelow(s: Storage, es: seq<Event>, c: Clock)
    requires s.Whole? || s.Several?
    ensures Below(AddEvents(s, es), c) <==> Below(s, c) && forall e :: e in es ==> Has(c, e)
  {
    if |es| > 0 {
      var front := es[..|es| - 1];
      assert es == front + [es[|es| - 1]];
      AddEventsBelow(s, front, c);
      AddEventBelow(AddEvents(s, front), es[|es| - 1], c);
    }
  }

  /** The join of two summaries is exactly their least upper bound. */
  lemma JoinedBelow(s: Storage, rhs: Storage, c: Clock)
    ensures Below(Joined(s, rhs), c) <==> Below(s, c) && Below(rhs, c)
  {
    match (Strip(s), Strip(rhs))
    case (l, Empty) =>
    case (Empty, r) =>
    case (OneEvent(l), OneEvent(r)) => if l.thread == r.thread { MaxBelow(l, r, c); }
    case (OneEvent(l), Several(_)) => AddEventBelow(Strip(rhs), l, c);
    case (OneEvent(l), Whole(v)) => SeeBelow(v, l, c);
    case (Several(_), OneEvent(r)) => AddEventBelow(Strip(s), r, c);
    case (Several(_), Several(es)) => AddEventsBelow(Strip(s), es, c);
    case (Several(es), Whole(v)) =>
    case (Whole(v), OneEvent(r)) => SeeBelow(v, r, c);
    case (Whole(v), Several(es)) =>
    case (Whole(v), Whole(w)) => MergeBelow(v, w, c);
  }

  /** Accumulating a position drops what its clock has seen; for a clock c that contains the causes of what it
      contains, nothing is lost. */
  lemma AccumulatedBelow(covers: (Clock, Clock) -> bool, s: Storage, pos: Event, hb: Clock, c: Clock)
    requires Sound(covers)
    requires Has(c, pos) ==> Leq(hb, c)
    ensures Below(Accumulated(covers, s, Update(pos, hb)), c) <==> Below(s, c) && Has(c, pos)
  {
    match s
    case Several(es) =>
      var left := Unseen(es, hb);
      assert left != [] ==> left[0] in left;
      if left != [] { AddEventBelow(Several(left), pos, c); }
      if Has(c, pos) {
        forall e | e in es && e !in left ensures Has(c, e) { assert GetMax(hb, e.thread) <= GetMax(c, e.thread); }
      }
    case Whole(v) =>
      if covers(hb, v) {
        if Has(c, pos) {
          forall t: nat ensures GetMax(v, t) <= GetMax(c, t) {
            assert GetMax(v, t) <= GetMax(hb, t) <= GetMax(c, t);
          }
        }
      } else {
        SeeBelow(v, pos, c);
      }
    case OneEvent(e) => SeenIsBelow(hb, e, pos, c);
    case Update(e, _) => SeenIsBelow(hb, e, pos, c);
    case Empty =>
  }

  lemma SeenIsBelow(hb: Clock, e: Event, pos: Event, c: Clock)
    requires Has(c, pos) ==> Leq(hb, c)
    ensures Has(c, pos) && Has(hb, e) ==> Has(c, e)
  {
    if Has(c, pos) { assert GetMax(hb, e.thread) <= GetMax(c, e.thread); }
  }

  // ---- How they are represented.

  /** The summary has event e by itself, not just in a whole clock. */
  ghost predicate Lists(s: Storage, e: Event) {
    (s.OneEvent? && e == s.e) || (s.Update? && e == s.pos) || (s.Several? && e in s.es)
  }

  function Length(s: Storage): nat {
    match s
    case OneEvent(_) => 1
    case Several(es) => |es|
    case Update(_, _) => 1
    case _ => 0
  }

  /** No two listed events are of one thread. */
  ghost predicate OnePerThread(s: Storage) {
    s.Several? ==> forall i, j :: 0 <= i < j < |s.es| ==> s.es[i].thread != s.es[j].thread
  }

  /** What accumulating drops: all that the clock has seen, so that a summary all of which it has seen, or a whole clock
      it is found to include, becomes the single new event. Nothing else goes, and nothing but the new event comes. */
  lemma AccumulatedDrops(covers: (Clock, Clock) -> bool, s: Storage, pos: Event, hb: Clock)
    ensures var r := Accumulated(covers, s, Update(pos, hb));
      && !r.Update? && !r.Empty?
      && (!s.Whole? && (forall e: Event :: Lists(s, e) ==> Has(hb, e)) ==> r == OneEvent(pos))
      && (!s.Whole? ==> forall e: Event :: Lists(r, e) ==> e == pos || (Lists(s, e) && !Has(hb, e)))
      && (!s.Whole? && !r.Whole? ==>
            forall e: Event :: Lists(s, e) && !Has(hb, e) && e.thread != pos.thread ==> Lists(r, e))
      && (!s.Whole? && r.Whole? ==> Length(s) >= 8) && (Length(s) <= 8 ==> Length(r) <= 8)
      && (s.Several? && OnePerThread(s) ==> OnePerThread(r))
      && (s.Whole? && covers(hb, s.view) ==> r == OneEvent(pos))
      && (s.Whole? && !covers(hb, s.view) ==>
            r.Whole? && forall t: nat :: GetMax(r.view, t) == MaxNat(GetMax(s.view, t), Reading(pos, t)))
  {
    if s.Several? {
      var left := Unseen(s.es, hb);
      UnseenLength(s.es, hb);
      if left == [] {
        forall e: Event | Lists(s, e) ensures Has(hb, e) { assert e in s.es; }
      } else {
        assert left[0] in left && Lists(s, left[0]) && !Has(hb, left[0]);
        AddEventLists(Several(left), pos);
      }
    }
  }

  lemma {:induction false} UnseenLength(es: seq<Event>, c: Clock)
    ensures |Unseen(es, c)| <= |es|
    ensures OnePerThread(Several(es)) ==> OnePerThread(Several(Unseen(es, c)))
  {
    if |es| > 0 {
      var front := es[..|es| - 1];
      UnseenLength(front, c);
      if OnePerThread(Several(es)) {
        forall e | e in Unseen(front, c) ensures e.thread != es[|es| - 1].thread {
          var i :| 0 <= i < |front| && front[i] == e;
          assert es[i] == e;
        }
      }
    }
  }

  /** Adding an event to a list adds it, or lets it take the place of an earlier one of its thread. */
  lemma AddEventLists(s: Storage, e: Event)
    requires s.Several?
    ensures var r := AddEvent(s, e);
      && (r.Several? || r.Whole?) && (r.Whole? ==> |s.es| >= 8) && (r.Several? && |s.es| <= 8 ==> |r.es| <= 8)
      && (forall f: Event :: Lists(r, f) ==> f == e || Lists(s, f))
      && (r.Several? ==> forall f: Event :: Lists(s, f) && f.thread != e.thread ==> Lists(r, f))
      && (r.Several? ==> |r.es| <= |s.es| + 1)
      && (OnePerThread(s) ==> OnePerThread(r))
  {
    var i := FindThread(s.es, e.thread);
    if i < |s.es| {
      var es := s.es[i := Max(s.es[i], e)];
      forall f | f in es ensures f == e || f in s.es {
        var j :| 0 <= j < |es| && es[j] == f;
        assert s.es[j] in s.es;
      }
      forall f | f in s.es && f.thread != e.thread ensures f in es {
        var j :| 0 <= j < |s.es| && s.es[j] == f;
        assert es[j] == f;
      }
    }
  }

  lemma {:induction false} AddEventsList(s: Storage, es: seq<Event>)
    requires s.Several?
    ensures var r := AddEvents(s, es);
      && (r.Whole? ==> |s.es| + |es| > 8)
      && (r.Several? ==> |r.es| <= |s.es| + |es| && forall f: Event :: Lists(r, f) ==> f in es || Lists(s, f))
      && (OnePerThread(s) ==> OnePerThread(r)) && (r.Several? && |s.es| <= 8 ==> |r.es| <= 8)
  {
    if |es| > 0 {
      var front := es[..|es| - 1];
      AddEventsList(s, front);
      if AddEvents(s, front).Several? { AddEventLists(AddEvents(s, front), es[|es| - 1]); }
    }
  }

  /** A join lists what the two list, and becomes a whole clock only if one of them is or there are too many events. */
  lemma JoinedLists(s: Storage, rhs: Storage)
    ensures var r := Joined(s, rhs);
      && !r.Update? && (r.Empty? <==> s.Empty? && rhs.Empty?) && (s.Whole? || rhs.Whole? ==> r.Whole?)
      && (r.Whole? ==> s.Whole? || rhs.Whole? || Length(s) + Length(rhs) > 8)
      && (!r.Whole? ==> forall e: Event :: Lists(r, e) ==> Lists(s, e) || Lists(rhs, e))
      && (OnePerThread(s) && OnePerThread(rhs) ==> OnePerThread(r))
      && (Length(s) <= 8 && Length(rhs) <= 8 ==> Length(r) <= 8)
  {
    match (Strip(s), Strip(rhs))
    case (OneEvent(l), Several(_)) => AddEventLists(Strip(rhs), l);
    case (Several(_), OneEvent(r)) => AddEventLists(Strip(s), r);
    case (Several(_), Several(es)) => AddEventsList(Strip(s), es);
    case (_, _) =>
  }

  /** The clock a summary denotes. */
  function Denoted(s: Storage): Clock {
    match s
    case OneEvent(e) => See([], e)
    case Several(es) => SeeAll([], es)
    case Whole(view) => view
    case Update(pos, _) => See([], pos)
    case Empty => []
  }

  lemma BelowIsDenoted(s: Storage, c: Clock)
    ensures Below(s, c) <==> Leq(Denoted(s), c)
  {
    match s
    case OneEvent(e) => SeeBelow([], e, c);
    case Update(pos, _) => SeeBelow([], pos, c);
    case _ =>
  }

  // ---- Equality, by which the interval map merges neighbours.

  predicate IsSingle(s: Storage) {
    s.OneEvent? || s.Update? || (s.Several? && |s.es| == 1)
  }

  function AsEvent(s: Storage): Event
    requires IsSingle(s)
  {
    if s.OneEvent? then s.e else if s.Update? then s.pos else s.es[0]
  }

  /** operator==: the same variant with equal contents, or both a single event, the same one. */
  predicate Equal(s: Storage, r: Storage) {
    || s == r
    || (s.Whole? && r.Whole? && SameClock(s.view, r.view))
    || (s.Update? && r.Update? && s.pos == r.pos && SameClock(s.hb, r.hb))
    || (IsSingle(s) && IsSingle(r) && AsEvent(s) == AsEvent(r))
  }

  /** The equality is an equivalence although it crosses representations. */
  lemma EqualIsEquivalence(a: Storage, b: Storage, c: Storage)
    ensures Equal(a, a) && (Equal(a, b) ==> Equal(b, a))
    ensures Equal(a, b) && Equal(b, c) ==> Equal(a, c)
  {
    if a.Whole? && b.Whole? && c.Whole? && Equal(a, b) && Equal(b, c) {
      forall t: nat | t < MaxNat(|a.view|, |c.view|) ensures GetMax(a.view, t) == GetMax(c.view, t) {
        SameClockMeans(a.view, b.view);
        SameClockMeans(b.view, c.view);
      }
    }
  }

  lemma SameClockMeans(c: Clock, d: Clock)
    ensures SameClock(c, d) <==> Leq(c, d) && Leq(d, c)
    ensures SameClock(c, d) ==> forall t: nat :: GetMax(c, t) == GetMax(d, t)
  {
    if SameClock(c, d) {
      forall t: nat ensures GetMax(c, t) == GetMax(d, t) {
        if t < MaxNat(|c|, |d|) { assert GetMax(c, t) == GetMax(d, t); }
      }
    }
    if Leq(c, d) && Leq(d, c) {
      forall t: nat ensures GetMax(c, t) == GetMax(d, t) {
        assert GetMax(c, t) <= GetMax(d, t) && GetMax(d, t) <= GetMax(c, t);
      }
    }
  }

  /** What is equal: summaries of one and the same event, whatever their representation, the same list of events, and
      clocks that show the same; the clock of an update does not count. */
  lemma EqualMeans(s: Storage, r: Storage)
    ensures Equal(s, r) <==>
      || (exists e: Event :: Single(s, e) && Single(r, e))
      || (s.Empty? && r.Empty?)
      || (s.Several? && r.Several? && s.es == r.es)
      || (s.Whole? && r.Whole? && Leq(s.view, r.view) && Leq(r.view, s.view))
  {
    if s.Whole? && r.Whole? { SameClockMeans(s.view, r.view); }
    if IsSingle(s) { SingleIs(s); }
    if IsSingle(r) { SingleIs(r); }
    forall e: Event | Single(s, e) && Single(r, e) ensures Equal(s, r) { }
  }

  /** The summary is the event e. */
  ghost predicate Single(s: Storage, e: Event) {
    s == OneEvent(e) || s == Several([e]) || (s.Update? && s.pos == e)
  }

  lemma SingleIs(s: Storage)
    requires IsSingle(s)
    ensures Single(s, AsEvent(s))
  {
    if s.Several? { assert s.es == [s.es[0]]; }
  }

  /** Equal summaries stand for the same, so merging equal neighbours loses nothing. */
  lemma EqualBelow(s: Storage, r: Storage, c: Clock)
    requires Equal(s, r)
    ensures Below(s, c) <==> Below(r, c)
  {
    if s.Whole? && r.Whole? {
      SameClockMeans(s.view, r.view);
    }
    if s.Several? && IsSingle(s) { assert s.es == [s.es[0]]; }
    if r.Several? && IsSingle(r) { assert r.es == [r.es[0]]; }
  }

  /** The summary object, edited in place. */
  class AdaptiveView {
    var storage: Storage

    constructor (s: Storage)
      ensures storage == s
    {
      storage := s;
    }

    method PromoteToView()
      requires storage.Several?
      modifies this
      ensures storage == Whole(SeeAll([], old(storage).es))
    {
      var view: Clock := [];
      var es := storage.es;
      for i := 0 to |es|
        invariant view == SeeAll([], es[..i])
      {
        assert es[..i + 1][..i] == es[..i];
        view := See(view, es[i]);
      }
      assert es[..|es|] == es;
      storage := Whole(view);
    }

    method Add(e: Event)
      requires storage.Whole? || storage.Several?
      modifies this
      ensures storage == AddEvent(old(storage), e)
    {
      if storage.Whole? {
        storage := Whole(See(storage.view, e));
        return;
      }
      var i := 0;
      while i < |storage.es| && storage.es[i].thread != e.thread
        invariant 0 <= i <= |storage.es|
        invariant forall j :: 0 <= j < i ==> storage.es[j].thread != e.thread
      {
        i := i + 1;
      }
      if i < |storage.es| {
        storage := Several(storage.es[i := Max(storage.es[i], e)]);
        return;
      }
      if |storage.es| < SMALL_VECTOR_CAPACITY {
        storage := Several(storage.es + [e]);
        return;
      }
      PromoteToView();
      storage := Whole(See(storage.view, e));
    }

    method AddAll(es: seq<Event>)
      requires storage.Whole? || storage.Several?
      modifies this
      ensures storage == AddEvents(old(storage), es)
    {
      for i := 0 to |es|
        invariant storage == AddEvents(old(storage), es[..i])
      {
        assert es[..i + 1][..i] == es[..i];
        Add(es[i]);
      }
      assert es[..|es|] == es;
    }

    method Join(rhs: AdaptiveView)
      modifies this
      ensures this == rhs ==> storage == old(storage)
      ensures this != rhs ==> storage == Joined(old(storage), rhs.storage)
      ensures this != rhs ==> forall c: Clock :: Below(storage, c) <==> Below(old(storage), c) && Below(rhs.storage, c)
    {
      forall c: Clock { JoinedBelow(storage, rhs.storage, c); }
      if this == rhs { return; }
      if storage.Update? { storage := OneEvent(storage.pos); }
      if rhs.storage.Empty? { return; }
      if storage.Empty? {
        storage := if rhs.storage.Update? then OneEvent(rhs.storage.pos) else rhs.storage;
        return;
      }
      match (storage, rhs.storage)
      case (OneEvent(l), OneEvent(r)) => storage := Unify(l, r);
      case (OneEvent(l), Update(r, _)) => storage := Unify(l, r);
      case (OneEvent(l), Several(_)) => storage := rhs.storage; Add(l);
      case (OneEvent(l), Whole(v)) => storage := Whole(See(v, l));
      case (Several(_), OneEvent(r)) => Add(r);
      case (Several(_), Update(r, _)) => Add(r);
      case (Several(_), Several(es)) => AddAll(es);
      case (Several(es), Whole(v)) => storage := Whole(SeeAll(v, es));
      case (Whole(v), OneEvent(r)) => storage := Whole(See(v, r));
      case (Whole(v), Update(r, _)) => storage := Whole(See(v, r));
      case (Whole(v), Several(es)) => storage := Whole(SeeAll(v, es));
      case (Whole(v), Whole(w)) => storage := Whole(Merge(v, w));
    }

    /** Drops from the recorded events those that c has seen. */
    method RemoveSeen(c: Clock)
      requires storage.Several?
      modifies this
      ensures storage == Several(Unseen(old(storage).es, c))
    {
      var es, kept := storage.es, [];
      for i := 0 to |es|
        invariant kept == Unseen(es[..i], c)
      {
        assert es[..i + 1][..i] == es[..i];
        if !Has(c, es[i]) { kept := kept + [es[i]]; }
      }
      assert es[..|es|] == es;
      storage := Several(kept);
    }

    /** operator+=, for an Empty or Update on the right. */
    method PlusAssign(rhs: Storage, covers: (Clock, Clock) -> bool)
      requires rhs.Empty? || rhs.Update?
      modifies this
      ensures storage == Accumulated(covers, old(storage), rhs)
      ensures rhs.Empty? ==> storage == old(storage)
      ensures rhs.Update? && (if old(storage).Whole? then covers(rhs.hb, old(storage).view)
                              else forall e: Event :: Lists(old(storage), e) ==> Has(rhs.hb, e)) ==>
        storage == OneEvent(rhs.pos)
      ensures rhs.Update? && !old(storage).Whole? ==>
        forall e: Event :: Lists(storage, e) ==> e == rhs.pos || (Lists(old(storage), e) && !Has(rhs.hb, e))
      ensures rhs.Update? && !old(storage).Whole? && storage.Whole? ==> Length(old(storage)) >= 8
    {
      if rhs.Update? { AccumulatedDrops(covers, storage, rhs.pos, rhs.hb); }
      PlusAssignCases(rhs, covers);
    }

    /** The cases of operator+=. */
    method PlusAssignCases(rhs: Storage, covers: (Clock, Clock) -> bool)
      requires rhs.Empty? || rhs.Update?
      modifies this
      ensures storage == Accumulated(covers, old(storage), rhs)
    {
      if rhs.Empty? { return; }
      var uPos, uView := rhs.pos, rhs.hb;
      if storage.Empty? {
        storage := OneEvent(uPos);
        return;
      }
      if storage.OneEvent? || storage.Update? {
        var e := if storage.OneEvent? then storage.e else storage.pos;
        storage := if Has(uView, e) then OneEvent(uPos) else Several([e, uPos]);
        return;
      }
      if storage.Several? {
        RemoveSeen(uView);
        if storage.es == [] {
          storage := OneEvent(uPos);
          return;
        }
        Add(uPos);
        return;
      }
      if covers(uView, storage.view) {
        storage := OneEvent(uPos);
      } else {
        storage := Whole(See(storage.view, uPos));
      }
    }

    /** Decides containment in c; exactly so unless the summary is a whole clock, whose test may miss inclusions. */
    predicate ContainedIn(c: Clock, covers: (Clock, Clock) -> bool)
      requires Sound(covers)
      reads this
      ensures ContainedIn(c, covers) ==> Below(storage, c)
      ensures !storage.Whole? ==> (ContainedIn(c, covers) <==> Below(storage, c))
    {
      match storage
      case Empty => true
      case OneEvent(e) => Has(c, e)
      case Several(es) => forall e :: e in es ==> Has(c, e)
      case Whole(view) => covers(c, view)
      case Update(pos, _) => Has(c, pos)
    }
  }
}
