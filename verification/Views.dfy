/** Vector clocks with a shared, reference-counted base and a one-event difference (genmc/genmc/ADT/View.hpp,
    View.cpp, Rc.hpp). Every operation is proved over a whole population of views: the receiver's clock changes
    as promised, and the clock of every other view stays as it was, although bases are shared and written in place. */
module Views {
  import opened Events

  class ViewBase {
    var view: seq<nat>
    /** Number of views that hold this base. */
    var count: nat
    /** Those views. */
    ghost var owners: set<View>

    /** No trailing zero, so that a longer vector has seen more. */
    predicate Trimmed()
      reads this`view
    {
      |view| == 0 || view[|view| - 1] != 0
    }

    function GetMax(thread: nat): nat
      reads this`view
    {
      if thread < |view| then view[thread] else 0
    }

    predicate Contains(e: Event)
      reads this`view
    {
      e.index <= GetMax(e.thread)
    }

    constructor Empty()
      ensures Trimmed() && count == 0 && owners == {} && forall t: nat :: GetMax(t) == 0
    {
      view, count, owners := [], 0, {};
    }

    /** The copy does not take over the reference count. */
    constructor Copy(other: ViewBase)
      requires other.Trimmed()
      ensures Trimmed() && count == 0 && owners == {} && forall t: nat :: GetMax(t) == other.GetMax(t)
    {
      view, count, owners := other.view, 0, {};
    }

    /** One more view holds the base. */
    method Gain(v: View)
      requires v !in owners && count == |owners|
      modifies this`count, this`owners
      ensures owners == old(owners) + {v} && count == |owners| && count == old(count) + 1
    {
      count, owners := count + 1, owners + {v};
    }

    /** A view no longer holds the base. */
    method Lose(v: View)
      requires v in owners && count == |owners|
      modifies this`count, this`owners
      ensures owners == old(owners) - {v} && count == |owners|
    {
      count, owners := count - 1, owners - {v};
    }

    method ContainsBase(v: ViewBase) returns (all: bool)
      requires v.Trimmed()
      ensures all <==> forall t: nat :: v.GetMax(t) <= GetMax(t)
    {
      if |v.view| > |view| {
        assert v.GetMax(|v.view| - 1) > GetMax(|v.view| - 1);
        return false;
      }
      for i := 0 to |v.view|
        invariant forall t :: 0 <= t < i ==> v.view[t] <= view[t]
      {
        if v.view[i] > view[i] {
          assert v.GetMax(i) > GetMax(i);
          return false;
        }
      }
      return true;
    }

    method Trim()
      modifies this`view
      ensures Trimmed() && forall t: nat :: GetMax(t) == old(GetMax(t))
    {
      while |view| > 0 && view[|view| - 1] == 0
        invariant forall t: nat :: GetMax(t) == old(GetMax(t))
        decreases |view|
      {
        view := view[..|view| - 1];
      }
    }

    method SetMax(e: Event)
      requires Trimmed()
      modifies this`view
      ensures Trimmed()
      ensures forall t: nat :: GetMax(t) == if t == e.thread then e.index else old(GetMax(t))
    {
      if e.index == 0 && e.thread >= |view| { return; }
      if e.thread >= |view| {
        view := view + seq(e.thread + 1 - |view|, _ => 0);
      }
      view := view[e.thread := e.index];
      if e.index == 0 && e.thread == |view| - 1 { Trim(); }
    }

    method UpdateIdx(e: Event)
      requires Trimmed()
      modifies this`view
      ensures Trimmed()
      ensures forall t: nat :: GetMax(t) == MaxNat(old(GetMax(t)), Reading(e, t))
    {
      if GetMax(e.thread) < e.index { SetMax(e); }
    }

    method Update(v: ViewBase)
      requires Trimmed() && v.Trimmed()
      modifies this`view
      ensures Trimmed()
      ensures forall t: nat :: GetMax(t) == MaxNat(old(GetMax(t)), old(v.GetMax(t)))
    {
      if |v.view| == 0 { return; }
      if |view| < |v.view| {
        view := view + seq(|v.view| - |view|, _ => 0);
      }
      var n := |v.view|;
      for i := 0 to n
        invariant n == |old(v.view)| && |view| == MaxNat(n, old(|view|))
        invariant this != v ==> v.view == old(v.view)
        invariant this == v ==> view == old(view)
        invariant forall t: nat ::
          GetMax(t) == if t < i then MaxNat(old(GetMax(t)), old(v.GetMax(t))) else old(GetMax(t))
      {
        view := view[i := MaxNat(view[i], v.view[i])];
      }
      ghost var last := |view| - 1;
      assert GetMax(last) == MaxNat(old(GetMax(last)), old(v.GetMax(last)));
    }
  }

  /** The reference count of b is the number of views of the population that hold it. */
  ghost predicate Counted(pop: set<View>, b: ViewBase)
    reads pop`base, b
  {
    && b.Trimmed() && b.count == |b.owners|
    && b.owners <= pop && forall v :: v in pop ==> (v in b.owners <==> v.base == b)
  }

  ghost function Bases(pop: set<View>): set<ViewBase>
    reads pop`base
  {
    set v: View | v in pop && v.base != null :: v.base
  }

  ghost predicate Consistent(pop: set<View>)
    reads pop`base, Bases(pop)
  {
    forall v :: v in pop && v.base != null ==> Counted(pop, v.base)
  }

  lemma SoleHolder(pop: set<View>, v: View)
    requires v in pop && v.base != null && Consistent(pop) && v.base.count == 1
    ensures forall w :: w in pop && w.base == v.base ==> w == v
  {
    var h := v.base.owners;
    assert v in h && |h - {v}| == 0;
    forall w | w in pop && w.base == v.base ensures w == v {
      assert w in h && (w == v || w in h - {v});
    }
  }

  ghost function Opt(b: ViewBase?): set<ViewBase> {
    if b == null then {} else {b}
  }

  /** The views of ws see what they saw before. */
  twostate predicate Kept(ws: set<View>)
    reads ws, Bases(ws)
  {
    forall w :: w in ws ==>
      w.base == old(w.base) && w.diff == old(w.diff) && forall t: nat :: w.GetMax(t) == old(w.GetMax(t))
  }

  class View {
    var base: ViewBase?
    var diff: Event

    function GetMax(thread: nat): nat
      reads this, base
    {
      var baseMax := if base != null then base.GetMax(thread) else 0;
      if !diff.IsInitializer() && diff.thread == thread then MaxNat(baseMax, diff.index) else baseMax
    }

    predicate Contains(e: Event)
      reads this, base
    {
      e.index <= GetMax(e.thread)
    }

    /** Reassigns the base pointer: the new base gains a holder before the old one loses it. */
    method SetBase(b: ViewBase?, ghost pop: set<View>)
      requires this in pop && Consistent(pop)
      requires b != null ==> Counted(pop, b)
      modifies this, Opt(base) + Opt(b)
      ensures base == b && Consistent(pop) && diff == old(diff)
      ensures b != null && b != old(base) ==> b.count == old(b.count) + 1
      ensures forall c: ViewBase :: c in old(Opt(base)) + Opt(b) ==> c.view == old(c.view)
    {
      if b == base { return; }
      assert base != null ==> this in base.owners;
      Switch(b);
      forall v | v in pop && v.base != null ensures Counted(pop, v.base) {
        assert v != this ==> v.base == old(v.base) && old(Counted(pop, v.base));
      }
    }

    /** The pointer and the counts of the bases it comes from and goes to. */
    method Switch(b: ViewBase?)
      requires b != base && (b != null ==> this !in b.owners && b.count == |b.owners|)
      requires base != null ==> this in base.owners && base.count == |base.owners|
      modifies this`base, Opt(base)`count, Opt(base)`owners, Opt(b)`count, Opt(b)`owners
      ensures base == b
      ensures b != null ==> b.owners == old(b.owners) + {this} && b.count == |b.owners| && b.count == old(b.count) + 1
      ensures old(base) != null ==>
        old(base).owners == old(base.owners) - {this} && old(base).count == |old(base).owners|
    {
      if b != null { b.Gain(this); }
      if base != null { base.Lose(this); }
      base := b;
    }

    /** A new view has seen nothing. */
    constructor Empty()
      ensures base == null && diff == INIT
    {
      base, diff := null, INIT;
    }

    /** A copy shares the base of the original. */
    constructor Copy(rhs: View, ghost pop: set<View>)
      requires rhs in pop && Consistent(pop)
      modifies Opt(rhs.base)
      ensures Consistent(pop + {this}) && Kept(pop) && base == rhs.base && diff == rhs.diff
      ensures forall t: nat :: GetMax(t) == old(rhs.GetMax(t))
    {
      base, diff := null, rhs.diff;
      new;
      SetBase(rhs.base, pop + {this});
    }

    method Assign(rhs: View, ghost pop: set<View>)
      requires this in pop && rhs in pop && Consistent(pop)
      modifies this, Opt(base) + Opt(rhs.base)
      ensures Consistent(pop) && Kept(pop - {this}) && base == old(rhs.base)
      ensures forall t: nat :: GetMax(t) == old(rhs.GetMax(t))
    {
      if this == rhs { return; }
      SetBase(rhs.base, pop);
      diff := rhs.diff;
    }

    /** The view leaves the population. */
    method Destroy(ghost pop: set<View>)
      requires this in pop && Consistent(pop)
      modifies this, Opt(base)
      ensures Consistent(pop - {this}) && Kept(pop - {this})
    {
      SetBase(null, pop);
    }

    method Clear(ghost pop: set<View>)
      requires this in pop && Consistent(pop)
      modifies this, Opt(base)
      ensures Consistent(pop) && Kept(pop - {this}) && base == null
      ensures forall t: nat :: GetMax(t) == 0
    {
      SetBase(null, pop);
      diff := INIT;
    }

    /** Writing an event into a base nobody else holds. */
    method WriteEvent(e: Event, ghost pop: set<View>)
      requires this in pop && Consistent(pop) && base != null && base.count == 1
      modifies base`view
      ensures Consistent(pop) && Kept(pop - {this})
      ensures forall t: nat :: base.GetMax(t) == MaxNat(old(base.GetMax(t)), Reading(e, t))
    {
      SoleHolder(pop, this);
      base.UpdateIdx(e);
    }

    /** A base of its own, with what the old one holds. */
    method CopyBase(ghost pop: set<View>)
      requires this in pop && Consistent(pop)
      modifies this, Opt(base)
      ensures Consistent(pop) && Kept(pop - {this}) && diff == old(diff)
      ensures base != null && fresh(base) && base.count == 1
      ensures forall t: nat :: base.GetMax(t) == if old(base) == null then 0 else old(base.GetMax(t))
    {
      var own: ViewBase;
      if base != null { own := new ViewBase.Copy(base); } else { own := new ViewBase.Empty(); }
      SetBase(own, pop);
    }

    /** Gives the view a base of its own that holds everything it has seen. */
    method Hydrate(ghost pop: set<View>)
      requires this in pop && Consistent(pop)
      modifies this, Opt(base)
      ensures Consistent(pop) && Kept(pop - {this})
      ensures base != null && fresh(base) && base.count == 1 && diff == INIT
      ensures forall t: nat :: GetMax(t) == old(GetMax(t))
    {
      CopyBase(pop);
      if !diff.IsInitializer() {
        WriteEvent(diff, pop);
        diff := INIT;
      }
    }

    /** Sees e: the clock becomes the exact maximum, along every fast path. A base that is not the view's own is not
        replaced for a first difference. */
    method UpdateIdx(e: Event, ghost pop: set<View>)
      requires this in pop && Consistent(pop)
      modifies this, Opt(base)
      ensures Consistent(pop) && Kept(pop - {this}) && (base == old(base) || fresh(base))
      ensures old(!Contains(e) && (base == null || base.count != 1)) ==>
        if old(diff.IsInitializer()) then base == old(base) && diff == e
        else e.thread != old(diff).thread ==> base != null && fresh(base) && diff == INIT
      ensures forall t: nat :: GetMax(t) == MaxNat(old(GetMax(t)), Reading(e, t))
    {
      if Contains(e) { return; }
      if base != null && base.count == 1 {
        WriteEvent(e, pop);
        return;
      }
      if diff.IsInitializer() {
        diff := e;
        return;
      }
      if e.thread == diff.thread {
        diff := Max(diff, e);
        return;
      }
      Hydrate(pop);
      WriteEvent(e, pop);
    }

    /** Sets what was seen of e's thread to exactly e; this fails precisely when the view is the only holder of its
        base while a later event of that thread is still recorded as its difference. */
    method SetMax(e: Event, ghost pop: set<View>)
      requires this in pop && Consistent(pop)
      modifies this, Opt(base)
      ensures Consistent(pop) && Kept(pop - {this})
      ensures forall t: nat :: t != e.thread ==> GetMax(t) == old(GetMax(t))
      ensures GetMax(e.thread) == if old(KeepsLater(e)) then old(diff.index) else e.index
    {
      if base != null && base.count == 1 {
        SoleHolder(pop, this);
        base.SetMax(e);
        return;
      }
      if base == null || !base.Contains(e) {
        if diff.IsInitializer() || e.thread == diff.thread {
          diff := if e.index == 0 then INIT else e;
          return;
        }
      }
      Hydrate(pop);
      SoleHolder(pop, this);
      base.SetMax(e);
    }

    /** v has seen nothing this view has not seen. */
    ghost predicate Includes(v: View)
      reads this, base, v, v.base
    {
      forall t: nat :: v.GetMax(t) <= GetMax(t)
    }

    /** The view alone holds its base, and its difference is a later event of the thread of e. */
    ghost predicate KeepsLater(e: Event)
      reads this, base
    {
      base != null && base.count == 1 && diff.thread == e.thread && diff.index > e.index
    }

    /** The base of v is covered by this view's base, without help of this view's difference. */
    ghost predicate BaseCovers(v: View)
      reads this, base, v, v.base
    {
      this == v || v.base == null || forall t: nat :: v.base.GetMax(t) <= (if base == null then 0 else base.GetMax(t))
    }

    /** Decides inclusion, except that a base covered only thanks to this view's own difference is not recognised. */
    method ContainsView(v: View) returns (all: bool)
      requires base != null ==> base.Trimmed()
      requires v.base != null ==> v.base.Trimmed()
      ensures all <==> Includes(v) && BaseCovers(v)
      ensures diff.IsInitializer() ==> (all <==> Includes(v))
    {
      assert v.base != null ==> forall t: nat :: v.base.GetMax(t) <= v.GetMax(t);
      if this == v { return true; }
      if !v.diff.IsInitializer() && v.diff.index > GetMax(v.diff.thread) {
        assert v.GetMax(v.diff.thread) > GetMax(v.diff.thread);
        return false;
      }
      if v.base == null || base == v.base { return true; }
      if base == null {
        if |v.base.view| > 0 {
          ghost var last := |v.base.view| - 1;
          assert v.base.GetMax(last) > 0 && v.GetMax(last) > 0;
        }
        return |v.base.view| == 0;
      }
      all := base.ContainsBase(v.base);
    }

    /** Writes everything v has seen into a base nobody else holds. */
    method Merge(v: View, ghost pop: set<View>)
      requires this in pop && v in pop && Consistent(pop) && base != null && base.count == 1
      modifies base`view
      ensures Consistent(pop) && Kept(pop - {this})
      ensures forall t: nat :: GetMax(t) == MaxNat(old(GetMax(t)), old(v.GetMax(t)))
    {
      SoleHolder(pop, this);
      MergeBase(v);
    }

    method MergeBase(v: View)
      requires base != null && base.Trimmed() && (v.base != null ==> v.base.Trimmed())
      modifies base`view
      ensures base.Trimmed()
      ensures forall t: nat :: GetMax(t) == MaxNat(old(GetMax(t)), old(v.GetMax(t)))
    {
      if v.base != null && base != v.base {
        base.Update(v.base);
      }
      if !v.diff.IsInitializer() {
        base.UpdateIdx(v.diff);
      }
    }

    /** Merges the difference of a view with the same base, or with none; what it leaves undone needs two
        differences. */
    method MergeDiff(v: View) returns (done: bool)
      requires (v.base == null || base == v.base) && (base != null || !diff.IsInitializer())
      modifies this`diff
      ensures !done ==> v != this && diff == old(diff)
      ensures done ==> forall t: nat :: GetMax(t) == MaxNat(old(GetMax(t)), old(v.GetMax(t)))
    {
      if diff.IsInitializer() {
        if base != null && !base.Contains(v.diff) { diff := v.diff; }
        return true;
      }
      if v.diff.IsInitializer() {
        if base != null && base.Contains(diff) { diff := INIT; }
        return true;
      }
      if diff.thread == v.diff.thread {
        diff := Max(diff, v.diff);
        return true;
      }
      return false;
    }

    /** The attempt to merge v without a base of one's own; what it leaves undone is v itself. */
    method MergeCompatible(v: View, ghost pop: set<View>) returns (done: bool)
      requires this in pop && v in pop && Consistent(pop)
      requires base == null || v.base == null || base == v.base
      requires base != null || !diff.IsInitializer()
      modifies this, Opt(base) + Opt(v.base)
      ensures Consistent(pop) && Kept(pop - {this}) && (!done ==> v != this)
      ensures done ==> forall t: nat :: GetMax(t) == MaxNat(old(GetMax(t)), old(v.GetMax(t)))
      ensures base == old(base) || base == old(v.base)
      ensures !done ==> forall t: nat :: old(GetMax(t)) <= GetMax(t) <= MaxNat(old(GetMax(t)), old(v.GetMax(t)))
    {
      if base == null { SetBase(v.base, pop); }
      done := MergeDiff(v);
    }

    /** Sees everything v has seen: the clock becomes the exact pointwise maximum, along every fast path. */
    method Update(v: View, ghost pop: set<View>)
      requires this in pop && v in pop && Consistent(pop)
      modifies this, Opt(base) + Opt(v.base)
      ensures Consistent(pop) && Kept(pop - {this}) && (base == old(base) || base == old(v.base) || fresh(base))
      ensures forall t: nat :: GetMax(t) == MaxNat(old(GetMax(t)), old(v.GetMax(t)))
    {
      if base != null && base.count == 1 {
        Merge(v, pop);
        return;
      }
      if base == null && diff.IsInitializer() {
        Adopt(v, pop);
        return;
      }
      if base == null || v.base == null || base == v.base {
        var done := MergeCompatible(v, pop);
        if done { return; }
      }
      MergeUnlessSeen(v, pop);
    }

    /** An empty view takes over base and difference. */
    method Adopt(v: View, ghost pop: set<View>)
      requires this in pop && v in pop && Consistent(pop) && base == null && diff.IsInitializer()
      modifies this, Opt(v.base)
      ensures Consistent(pop) && Kept(pop - {this}) && base == old(v.base)
      ensures forall t: nat :: GetMax(t) == MaxNat(old(GetMax(t)), old(v.GetMax(t)))
    {
      SetBase(v.base, pop);
      diff := v.diff;
    }

    /** What update does when no fast path is left. */
    method MergeUnlessSeen(v: View, ghost pop: set<View>)
      requires this in pop && v in pop && Consistent(pop)
      modifies this, Opt(base)
      ensures Consistent(pop) && Kept(pop - {this}) && (base == old(base) || fresh(base))
      ensures forall t: nat :: GetMax(t) == MaxNat(old(GetMax(t)), old(v.GetMax(t)))
    {
      var seen := ContainsView(v);
      if !seen { MergeIntoOwn(v, pop); }
    }

    /** The slow path of update: merges v into a base of one's own. */
    method MergeIntoOwn(v: View, ghost pop: set<View>)
      requires this in pop && v in pop && Consistent(pop)
      modifies this, Opt(base)
      ensures Consistent(pop) && Kept(pop - {this}) && base != null && fresh(base)
      ensures forall t: nat :: GetMax(t) == MaxNat(old(GetMax(t)), old(v.GetMax(t)))
    {
      Hydrate(pop);
      Merge(v, pop);
    }
  }

  /** A view with a base, for two events of different threads. */
  method TwoEvents(e: Event, f: Event, ghost pop: set<View>) returns (c: View)
    requires e.thread != f.thread && e.index > 0 && f.index > 0 && Consistent(pop)
    ensures fresh(c) && Consistent(pop + {c}) && Kept(pop)
    ensures c.base != null && c.diff == INIT
    ensures forall t: nat :: c.GetMax(t) == MaxNat(Reading(e, t), Reading(f, t))
  {
    c := new View.Empty();
    c.UpdateIdx(e, pop + {c});
    c.UpdateIdx(f, pop + {c});
    assert (pop + {c}) - {c} == pop;
  }

  /** A copy of a view, after it has seen one more event. */
  method CopyAndDiffer(c: View, e: Event, ghost pop: set<View>) returns (a: View)
    requires c in pop && Consistent(pop) && c.base != null && c.diff == INIT && !c.Contains(e)
    modifies c.base
    ensures fresh(a) && Consistent(pop + {a}) && Kept(pop)
    ensures a.base == c.base && a.diff == e && (forall t: nat :: a.base.GetMax(t) == old(c.GetMax(t)))
    ensures forall t: nat :: a.GetMax(t) == MaxNat(old(c.GetMax(t)), Reading(e, t))
  {
    a := new View.Copy(c, pop);
    assert a in a.base.owners && c in a.base.owners;
    assert {a, c} <= a.base.owners && |{a, c}| == 2;
    SubsetSize({a, c}, a.base.owners);
    a.UpdateIdx(e, pop + {a});
    assert (pop + {a}) - {a} == pop;
  }

  lemma SubsetSize<T>(s: set<T>, t: set<T>)
    requires s <= t
    ensures |s| <= |t|
  {
    assert t == s + (t - s);
  }

  /** A view that has seen an event as its difference, and one that has a base with an earlier event of that thread. */
  method Overlapping() returns (a: View, b: View, ghost pop: set<View>)
    ensures a in pop && b in pop && Consistent(pop) && a.base != null && b.base != null && a != b
    ensures b.diff == INIT && b.GetMax(1) == 3 && a.diff == Event(1, 5) && a.base.GetMax(1) == 0
    ensures a.Includes(b)
  {
    b := TwoEvents(Event(1, 3), Event(2, 1), {});
    var c := TwoEvents(Event(2, 1), Event(3, 1), {b});
    assert {} + {b} == {b};
    pop := {b} + {c};
    a := CopyAndDiffer(c, Event(1, 5), pop);
    pop := pop + {a};
  }

  /** Views that come about by the operations alone, where the inclusion test misses that one includes the other. */
  method ContainsCanMiss() returns (a: View, b: View, ghost pop: set<View>, all: bool)
    ensures a in pop && b in pop && Consistent(pop) && a.Includes(b) && !a.BaseCovers(b) && !all
  {
    a, b, pop := Overlapping();
    all := a.ContainsView(b);
  }

  /** A view that comes about by the operations alone, with a difference that setMax does not take back. */
  method SetMaxCanMiss() returns (a: View)
    ensures fresh(a) && Consistent({a}) && a.KeepsLater(Event(1, 2))
  {
    var c := TwoEvents(Event(2, 1), Event(3, 1), {});
    assert {} + {c} == {c};
    a := CopyAndDiffer(c, Event(1, 5), {c});
    c.Destroy({c} + {a});
    assert ({c} + {a}) - {c} == {a};
    assert a.base.owners == {a};
  }
}
