/** Arbitrary runs over a population of views: sharing and in-place writes are never observable, each view behaves
    like a value of its own. */
module ViewRuns {
  import opened Events
  import opened Views

  datatype Op =
    | Create
    | Duplicate(i: nat)
    | Drop(i: nat)
    | Reset(i: nat)
    | See(i: nat, e: Event)
    | Join(i: nat, j: nat)
    | Become(i: nat, j: nat)

  type Clock = nat -> nat

  /** The operation on clocks that are plain values; indices out of range do nothing. */
  ghost function Step(cs: seq<Clock>, op: Op): seq<Clock> {
    match op
    case Create => cs + [_ => 0]
    case Duplicate(i) => if i < |cs| then cs + [cs[i]] else cs
    case Drop(i) => if i < |cs| then cs[..i] + cs[i + 1..] else cs
    case Reset(i) => if i < |cs| then cs[i := _ => 0] else cs
    case See(i, e) => if i < |cs| then cs[i := (t: nat) => MaxNat(cs[i](t), Reading(e, t))] else cs
    case Join(i, j) => if i < |cs| && j < |cs| then cs[i := (t: nat) => MaxNat(cs[i](t), cs[j](t))] else cs
    case Become(i, j) => if i < |cs| && j < |cs| then cs[i := cs[j]] else cs
  }

  ghost function Replay(ops: seq<Op>): seq<Clock> {
    if |ops| == 0 then [] else Step(Replay(ops[..|ops| - 1]), ops[|ops| - 1])
  }

  ghost function Pop(views: seq<View>): set<View> {
    set v | v in views
  }

  /** The views are distinct objects with exact reference counts, and show the given clocks. */
  ghost predicate Shows(views: seq<View>, cs: seq<Clock>)
    reads views, Bases(Pop(views))
  {
    && |views| == |cs|
    && (forall i, j :: 0 <= i < j < |views| ==> views[i] != views[j])
    && Consistent(Pop(views))
    && forall i, t: nat :: 0 <= i < |views| ==> views[i].GetMax(t) == cs[i](t)
  }

  ghost function Footprint(views: seq<View>): set<object>
    reads views
  {
    (set v: View | v in views :: v as object) + (set v: View | v in views && v.base != null :: v.base as object)
  }

  lemma InFootprint(views: seq<View>, i: nat)
    requires i < |views|
    ensures views[i] in Footprint(views)
    ensures views[i].base != null ==> views[i].base in Footprint(views)
  {
    assert views[i] in views;
  }

  /** The operations that change one view in place. */
  method ApplyAt(views: seq<View>, op: Op, ghost cs: seq<Clock>)
    requires Shows(views, cs) && (op.Reset? || op.See? || op.Join? || op.Become?)
    requires op.i < |views| && (op.Join? || op.Become? ==> op.j < |views|)
    modifies Footprint(views)
    ensures Shows(views, Step(cs, op))
    ensures fresh(Footprint(views) - old(Footprint(views)))
  {
    ghost var pop := Pop(views);
    var v := views[op.i];
    InFootprint(views, op.i);
    if op.Join? || op.Become? { InFootprint(views, op.j); }
    ghost var now := Step(cs, op);
    if op.Reset? {
      v.Clear(pop);
    } else if op.See? {
      v.UpdateIdx(op.e, pop);
    } else if op.Join? {
      v.Update(views[op.j], pop);
    } else {
      v.Assign(views[op.j], pop);
    }
    forall k | 0 <= k < |views| && k != op.i ensures forall t: nat :: views[k].GetMax(t) == cs[k](t) {
      assert views[k] != v by {
        if k < op.i { assert views[k] != views[op.i]; } else { assert views[op.i] != views[k]; }
      }
      assert views[k] in pop - {v};
      assert forall t: nat :: old(views[k].GetMax(t)) == cs[k](t);
    }
    assert forall t: nat :: v.GetMax(t) == now[op.i](t);
    forall w | w in views && w.base != null ensures w.base in old(Footprint(views)) || fresh(w.base) {
      assert w != v ==> w in pop - {v};
    }
  }

  method Add(views: seq<View>, op: Op, ghost cs: seq<Clock>) returns (now: seq<View>)
    requires Shows(views, cs) && (op.Create? || (op.Duplicate? && op.i < |views|))
    modifies Footprint(views)
    ensures Shows(now, Step(cs, op))
    ensures fresh(Footprint(now) - old(Footprint(views)))
  {
    ghost var pop := Pop(views);
    var v: View;
    if op.Create? {
      v := new View.Empty();
    } else {
      InFootprint(views, op.i);
      v := new View.Copy(views[op.i], pop);
    }
    now := views + [v];
    assert Pop(now) == pop + {v};
  }

  method Remove(views: seq<View>, i: nat, ghost cs: seq<Clock>) returns (now: seq<View>)
    requires Shows(views, cs) && i < |views|
    modifies Footprint(views)
    ensures Shows(now, Step(cs, Drop(i)))
    ensures fresh(Footprint(now) - old(Footprint(views)))
  {
    ghost var pop := Pop(views);
    InFootprint(views, i);
    views[i].Destroy(pop);
    now := views[..i] + views[i + 1..];
    assert Pop(now) == pop - {views[i]};
    forall k | 0 <= k < |now| ensures now[k] in pop - {views[i]} { assert now[k] in now; }
  }

  method Apply(views: seq<View>, op: Op, ghost cs: seq<Clock>) returns (now: seq<View>)
    requires Shows(views, cs)
    modifies Footprint(views)
    ensures Shows(now, Step(cs, op))
    ensures fresh(Footprint(now) - old(Footprint(views)))
  {
    now := views;
    if op.Create? || (op.Duplicate? && op.i < |views|) {
      now := Add(views, op, cs);
    } else if op.i >= |views| {
    } else if op.Drop? {
      now := Remove(views, op.i, cs);
    } else if op.Reset? || op.See? || op.j < |views| {
      ApplyAt(views, op, cs);
    }
  }

  /** In every run, the population shows what the same run over plain clocks computes. */
  method Run(ops: seq<Op>) returns (views: seq<View>)
    ensures |views| == |Replay(ops)|
    ensures forall i, t: nat :: 0 <= i < |views| ==> views[i].GetMax(t) == Replay(ops)[i](t)
  {
    views := [];
    for k := 0 to |ops|
      invariant Shows(views, Replay(ops[..k])) && fresh(Footprint(views))
    {
      assert ops[..k + 1][..k] == ops[..k];
      views := Apply(views, ops[k], Replay(ops[..k]));
    }
    assert ops[..|ops|] == ops;
  }
}
