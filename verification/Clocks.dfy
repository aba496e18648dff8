/** Vector clocks as values: what a View shows (genmc/genmc/ADT/View.hpp), one maximum per thread. The module Views
    shows that the shared, reference-counted representation behaves so. */
module Clocks {
  import opened Events

  type Clock = seq<nat>

  function GetMax(c: Clock, t: nat): nat { if t < |c| then c[t] else 0 }

  predicate Has(c: Clock, e: Event) { e.index <= GetMax(c, e.thread) }

  ghost predicate Leq(c: Clock, d: Clock) {
    forall t: nat :: GetMax(c, t) <= GetMax(d, t)
  }

  /** View::updateIdx on values. */
  function See(c: Clock, e: Event): (r: Clock)
    ensures forall t: nat :: GetMax(r, t) == MaxNat(GetMax(c, t), Reading(e, t))
  {
    if Has(c, e) then c
    else if e.thread < |c| then c[e.thread := e.index]
    else c + seq(e.thread - |c|, _ => 0) + [e.index]
  }

  function SeeAll(c: Clock, es: seq<Event>): (r: Clock)
    ensures forall d: Clock :: Leq(r, d) <==> Leq(c, d) && forall e :: e in es ==> Has(d, e)
  {
    if |es| == 0 then c
    else
      assert es == es[..|es| - 1] + [es[|es| - 1]];
      var r := See(SeeAll(c, es[..|es| - 1]), es[|es| - 1]);
      assert forall d: Clock :: Leq(r, d) <==> Leq(SeeAll(c, es[..|es| - 1]), d) && Has(d, es[|es| - 1]) by {
        SeeBelowAll(SeeAll(c, es[..|es| - 1]), es[|es| - 1]);
      }
      r
  }

  lemma SeeBelow(c: Clock, e: Event, d: Clock)
    ensures Leq(See(c, e), d) <==> Leq(c, d) && Has(d, e)
  {
    var r := See(c, e);
    assert GetMax(r, e.thread) == MaxNat(GetMax(c, e.thread), e.index);
    forall t: nat ensures Leq(r, d) ==> GetMax(c, t) <= GetMax(d, t) { assert GetMax(r, t) >= GetMax(c, t); }
  }

  lemma SeeBelowAll(c: Clock, e: Event)
    ensures forall d: Clock :: Leq(See(c, e), d) <==> Leq(c, d) && Has(d, e)
  {
    forall d: Clock ensures Leq(See(c, e), d) <==> Leq(c, d) && Has(d, e) { SeeBelow(c, e, d); }
  }

  /** View::update on values. */
  function Merge(c: Clock, d: Clock): (r: Clock)
    ensures forall t: nat :: GetMax(r, t) == MaxNat(GetMax(c, t), GetMax(d, t))
  {
    seq(MaxNat(|c|, |d|), t requires t >= 0 => MaxNat(GetMax(c, t), GetMax(d, t)))
  }

  lemma MergeBelow(c: Clock, d: Clock, b: Clock)
    ensures Leq(Merge(c, d), b) <==> Leq(c, b) && Leq(d, b)
  {
    var r := Merge(c, d);
    forall t: nat ensures Leq(r, b) ==> GetMax(c, t) <= GetMax(b, t) && GetMax(d, t) <= GetMax(b, t) {
      assert GetMax(r, t) >= GetMax(c, t) && GetMax(r, t) >= GetMax(d, t);
    }
  }

  predicate SameClock(c: Clock, d: Clock) {
    forall t: nat :: t < MaxNat(|c|, |d|) ==> GetMax(c, t) == GetMax(d, t)
  }
}
