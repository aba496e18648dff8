/** Clocks with holes (genmc/genmc/ADT/DepView.cpp, DepView.hpp): an event may be seen without its po-predecessors.
    The hole sets are given by their members, the embedded View by its clock. */
module DepViews {
  import opened Events
  import opened Clocks
  import opened Graphs

  type Holes = seq<set<nat>>

  predicate HoleAt(holes: Holes, t: nat, h: nat) { t < |holes| && h in holes[t] }

  /** DepView::contains on values. */
  predicate In(view: Clock, holes: Holes, e: Event) {
    e.index <= GetMax(view, e.thread) && (e.index == 0 || (e.thread < |holes| && e.index !in holes[e.thread]))
  }

  /** Holes lie within the recorded maximum. */
  ghost predicate Within(view: Clock, holes: Holes) {
    |view| <= |holes| && forall t: nat, h: nat :: HoleAt(holes, t, h) ==> 1 <= h <= GetMax(view, t)
  }

  /** View::setMax. */
  function SetTo(c: Clock, e: Event): (r: Clock)
    ensures forall t: nat :: GetMax(r, t) == if t == e.thread then e.index else GetMax(c, t)
    ensures |r| <= if |c| <= e.thread then e.thread + 1 else |c|
  {
    if e.thread < |c| then c[e.thread := e.index] else c + seq(e.thread - |c|, _ => 0) + [e.index]
  }

  /** IndexedMap::grow. */
  function Grow(holes: Holes, t: nat): (r: Holes)
    ensures |r| >= |holes| && |r| > t && forall u :: 0 <= u < |r| ==> r[u] == if u < |holes| then holes[u] else {}
  {
    if t < |holes| then holes else holes + seq(t + 1 - |holes|, _ => {})
  }

  class DepView {
    var view: Clock
    var holes: Holes

    ghost predicate Valid()
      reads this
    {
      Within(view, holes)
    }

    predicate Contains(e: Event)
      reads this
    {
      In(view, holes, e)
    }

    constructor ()
      ensures Valid() && forall e: Event :: Contains(e) <==> e.index == 0
    {
      view, holes := [], [];
    }

    method AddHole(e: Event)
      requires e.index <= GetMax(view, e.thread)
      modifies this`holes
      ensures |holes| >= |old(holes)| && e.thread < |holes|
      ensures forall t: nat, h: nat :: HoleAt(holes, t, h) <==>
        HoleAt(old(holes), t, h) || (t == e.thread && h == e.index)
    {
      holes := Grow(holes, e.thread);
      holes := holes[e.thread := holes[e.thread] + {e.index}];
    }

    method RemoveHole(e: Event)
      modifies this`holes
      ensures |holes| >= |old(holes)| && e.thread < |holes|
      ensures forall t: nat, h: nat :: HoleAt(holes, t, h) <==>
        HoleAt(old(holes), t, h) && !(t == e.thread && h == e.index)
    {
      holes := Grow(holes, e.thread);
      holes := holes[e.thread := holes[e.thread] - {e.index}];
    }

    method AddHolesInRange(start: Event, endIdx: nat)
      requires endIdx <= GetMax(view, start.thread) + 1
      modifies this`holes
      ensures |holes| >= |old(holes)|
      ensures forall t: nat, h: nat :: HoleAt(holes, t, h) <==>
        HoleAt(old(holes), t, h) || (t == start.thread && start.index <= h < endIdx)
    {
      var i := start.index;
      while i < endIdx
        invariant i >= start.index && |holes| >= |old(holes)|
        invariant forall t: nat, h: nat :: HoleAt(holes, t, h) <==>
          HoleAt(old(holes), t, h) || (t == start.thread && start.index <= h < i && h < endIdx)
      {
        AddHole(Event(start.thread, i));
        i := i + 1;
      }
    }

    method RemoveHolesInRange(start: Event, endIdx: nat)
      modifies this`holes
      ensures |holes| >= |old(holes)|
      ensures forall t: nat, h: nat :: HoleAt(holes, t, h) <==>
        HoleAt(old(holes), t, h) && !(t == start.thread && start.index <= h < endIdx)
    {
      var i := start.index;
      while i < endIdx
        invariant i >= start.index && |holes| >= |old(holes)|
        invariant forall t: nat, h: nat :: HoleAt(holes, t, h) <==>
          HoleAt(old(holes), t, h) && !(t == start.thread && start.index <= h < i && h < endIdx)
      {
        RemoveHole(Event(start.thread, i));
        i := i + 1;
      }
    }

    /** updateIdx: exactly one more event is seen. */
    method UpdateIdx(e: Event)
      requires Valid()
      modifies this
      ensures Valid() && forall f: Event :: Contains(f) <==> old(Contains(f)) || f == e
    {
      var was := GetMax(view, e.thread);
      if e.index > was {
        view := SetTo(view, e);
        holes := Grow(holes, e.thread);
        AddHolesInRange(Event(e.thread, was + 1), e.index);
      } else {
        RemoveHole(e);
      }
      Updated(old(view), old(holes), view, holes, e);
    }

    /** setMax, where the embedded view comes to show `shown`: the event, which is then the last one seen of its thread,
        or a later one if View::setMax misses when lowering (Views.View.SetMax says when). Then everything from the
        event up to that one is seen, whether or not it was seen before. */
    method SetMax(e: Event, shown: nat)
      requires Valid() && (shown == e.index || e.index < shown <= GetMax(view, e.thread))
      modifies this
      ensures Valid() && GetMax(view, e.thread) == shown
      ensures forall f: Event :: Contains(f) <==>
        if f.thread == e.thread then f.index <= shown && (e.index <= f.index || old(Contains(f))) else old(Contains(f))
      ensures shown == e.index ==> forall f: Event :: Contains(f) <==>
        f == e || (old(Contains(f)) && (f.thread == e.thread ==> f.index <= e.index))
    {
      if e.thread >= |view| { holes := Grow(holes, e.thread); }
      var was := GetMax(view, e.thread);
      view := SetTo(view, Event(e.thread, shown));
      if was < e.index {
        AddHolesInRange(Event(e.thread, was + 1), e.index);
        Updated(old(view), old(holes), view, holes, e);
      } else {
        RemoveHolesInRange(e, was + 1);
        Lowered(old(view), old(holes), view, holes, e, shown);
      }
    }

    /** One round of update: the holes of thread i. */
    method UpdateThread(v: DepView, i: nat)
      requires Valid() && v.Valid() && i < |v.view|
      modifies this
      ensures Within(view, holes) && |holes| >= |old(holes)|
      ensures ThreadMerged(old(view), old(holes), old(v.view), old(v.holes), view, holes, i)
      ensures v == this ==> view == old(view)
      ensures v == this ==> forall t: nat, h: nat :: HoleAt(holes, t, h) <==> HoleAt(old(holes), t, h)
    {
      holes := Grow(holes, i);
      var isec := holes[i] * v.holes[i];
      var max := GetMax(view, i);
      if max < GetMax(v.view, i) {
        isec := isec + From(v.holes[i], max + 1);
        view := SetTo(view, Event(i, GetMax(v.view, i)));
      } else {
        isec := isec + From(holes[i], GetMax(v.view, i) + 1);
      }
      forall h: nat | h in isec ensures 1 <= h <= GetMax(view, i) {
        assert h in holes[i] ==> HoleAt(old(holes), i, h);
        assert h in v.holes[i] ==> HoleAt(old(v.holes), i, h);
      }
      holes := holes[i := isec];
      forall t: nat, h: nat | HoleAt(holes, t, h) ensures 1 <= h <= GetMax(view, t) {
        assert t != i ==> HoleAt(old(holes), t, h);
        assert t == i ==> h in isec;
      }
    }

    /** update: exactly the union, whatever part of a thread either clock has not seen. */
    method Update(v: DepView)
      requires Valid() && v.Valid()
      modifies this
      ensures Valid() && forall f: Event :: Contains(f) <==> old(Contains(f)) || old(v.Contains(f))
    {
      ghost var view1, holes1 := v.view, v.holes;
      if |v.view| == 0 { return; }
      for i := 0 to |v.view|
        invariant Within(view, holes) && |holes| >= |old(holes)|
        invariant v.Valid() && if v == this then view == old(view) else v.view == view1 && v.holes == holes1
        invariant v == this ==> forall t: nat, h: nat :: HoleAt(holes, t, h) <==> HoleAt(old(holes), t, h)
        invariant Merged(old(view), old(holes), view1, holes1, view, holes, i)
      {
        ghost var view2, holes2, view3, holes3 := view, holes, v.view, v.holes;
        SameSeen(view1, holes1, view3, holes3);
        UpdateThread(v, i);
        MergedStep(old(view), old(holes), view1, holes1, view2, holes2, view3, holes3, view, holes, i);
      }
    }
  }

  /** update is done with the threads before i. */
  ghost predicate Merged(view0: Clock, holes0: Holes, view1: Clock, holes1: Holes, view: Clock, holes: Holes, i: nat) {
    forall f: Event :: In(view, holes, f) <==> In(view0, holes0, f) || (f.thread < i && In(view1, holes1, f))
  }

  /** std::lower_bound: the members not below k. */
  function From(h: set<nat>, k: nat): set<nat> { set x | x in h && x >= k }

  lemma SameSeen(view1: Clock, holes1: Holes, view3: Clock, holes3: Holes)
    requires view3 == view1 && Within(view1, holes1) && Within(view3, holes3)
    requires forall t: nat, h: nat :: HoleAt(holes3, t, h) <==> HoleAt(holes1, t, h)
    ensures forall f: Event :: In(view3, holes3, f) <==> In(view1, holes1, f)
  {
    forall f: Event ensures In(view3, holes3, f) <==> In(view1, holes1, f) {
      assert HoleAt(holes3, f.thread, f.index) <==> HoleAt(holes1, f.thread, f.index);
    }
  }

  lemma MergedStep(view0: Clock, holes0: Holes, view1: Clock, holes1: Holes, view2: Clock, holes2: Holes,
                   view3: Clock, holes3: Holes, view: Clock, holes: Holes, i: nat)
    requires Merged(view0, holes0, view1, holes1, view2, holes2, i)
    requires forall f: Event :: In(view3, holes3, f) <==> In(view1, holes1, f)
    requires |holes2| <= |holes| && Within(view2, holes2) && Within(view, holes)
    requires ThreadMerged(view2, holes2, view3, holes3, view, holes, i)
    ensures Merged(view0, holes0, view1, holes1, view, holes, i + 1)
  {
    forall f: Event ensures In(view, holes, f) <==> In(view0, holes0, f) || (f.thread < i + 1 && In(view1, holes1, f)) {
      assert HoleAt(holes, f.thread, f.index) <==> f.thread < |holes| && f.index in holes[f.thread];
      assert HoleAt(holes2, f.thread, f.index) <==> f.thread < |holes2| && f.index in holes2[f.thread];
      if f.thread == i {
        assert f == Event(i, f.index);
        assert In(view2, holes2, f) <==> In(view0, holes0, f);
        assert In(view3, holes3, f) <==> In(view1, holes1, f);
      } else {
        assert In(view, holes, f) <==> In(view2, holes2, f);
      }
    }
  }

  /** The holes after a round of update. */
  ghost predicate ThreadMerged(view0: Clock, holes0: Holes, view1: Clock, holes1: Holes, view: Clock, holes: Holes,
                               i: nat)
  {
    && (forall t: nat ::
          GetMax(view, t) == if t == i then MaxNat(GetMax(view0, t), GetMax(view1, t)) else GetMax(view0, t))
    && (forall t: nat, h: nat :: t != i ==> (HoleAt(holes, t, h) <==> HoleAt(holes0, t, h)))
    && (forall h: nat :: 1 <= h <= GetMax(view, i) ==>
          (In(view, holes, Event(i, h)) <==> In(view0, holes0, Event(i, h)) || In(view1, holes1, Event(i, h))))
  }

  /** What updateIdx, and setMax when it raises the maximum, do to the holes. */
  lemma Updated(view0: Clock, holes0: Holes, view: Clock, holes: Holes, e: Event)
    requires Within(view0, holes0) && |holes0| <= |holes| && e.thread < |holes| && |view| <= |holes|
    requires var was := GetMax(view0, e.thread);
      && (forall t: nat :: GetMax(view, t) == if t == e.thread then MaxNat(was, e.index) else GetMax(view0, t))
      && (forall t: nat, h: nat :: HoleAt(holes, t, h) <==>
            (HoleAt(holes0, t, h) && !(t == e.thread && h == e.index)) || (t == e.thread && was + 1 <= h < e.index))
    ensures Within(view, holes)
    ensures forall f: Event :: In(view, holes, f) <==> In(view0, holes0, f) || f == e
  {
    forall f: Event ensures In(view, holes, f) <==> In(view0, holes0, f) || f == e {
      assert HoleAt(holes, f.thread, f.index) <==> f.thread < |holes| && f.index in holes[f.thread];
      assert HoleAt(holes0, f.thread, f.index) <==> f.thread < |holes0| && f.index in holes0[f.thread];
    }
  }

  /** What setMax does to the holes when it does not raise the maximum. */
  lemma Lowered(view0: Clock, holes0: Holes, view: Clock, holes: Holes, e: Event, shown: nat)
    requires Within(view0, holes0) && |holes0| <= |holes| && |view| <= |holes|
    requires e.index <= shown <= GetMax(view0, e.thread)
    requires forall t: nat :: GetMax(view, t) == if t == e.thread then shown else GetMax(view0, t)
    requires forall t: nat, h: nat :: HoleAt(holes, t, h) <==>
      HoleAt(holes0, t, h) && !(t == e.thread && e.index <= h <= GetMax(view0, e.thread))
    ensures Within(view, holes)
    ensures forall f: Event :: In(view, holes, f) <==>
      if f.thread == e.thread then f.index <= shown && (e.index <= f.index || In(view0, holes0, f))
      else In(view0, holes0, f)
  {
    forall f: Event
      ensures In(view, holes, f) <==>
        if f.thread == e.thread then f.index <= shown && (e.index <= f.index || In(view0, holes0, f))
        else In(view0, holes0, f)
    {
      assert HoleAt(holes, f.thread, f.index) <==> f.thread < |holes| && f.index in holes[f.thread];
      assert HoleAt(holes0, f.thread, f.index) <==> f.thread < |holes0| && f.index in holes0[f.thread];
    }
  }

  /** DepExecutionGraph::getViewFromStamp: stamps need not grow along a thread. */
  method GetViewFromStamp(g: Graph, stamp: nat) returns (preds: DepView)
    ensures fresh(preds) && preds.Valid()
    ensures forall e: Event :: e.index >= 1 ==> (preds.Contains(e) <==> g.Contains(e) && g.At(e).stamp <= stamp)
  {
    preds := new DepView();
    for i := 0 to |g.events|
      invariant fresh(preds) && preds.Valid()
      invariant forall e: Event :: e.index >= 1 ==>
        (preds.Contains(e) <==> e.thread < i && g.Contains(e) && g.At(e).stamp <= stamp)
    {
      var j := 1;
      while j < |g.events[i]|
        invariant j >= 1 && fresh(preds) && preds.Valid()
        invariant forall e: Event :: e.index >= 1 ==>
          (preds.Contains(e) <==>
            (e.thread < i || (e.thread == i && e.index < j)) && g.Contains(e) && g.At(e).stamp <= stamp)
      {
        assert g.Contains(Event(i, j)) && g.At(Event(i, j)) == g.events[i][j];
        if g.events[i][j].stamp <= stamp { preds.SetMax(Event(i, j), j); }
        j := j + 1;
      }
    }
  }
}
