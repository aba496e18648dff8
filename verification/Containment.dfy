/** AdaptiveView::containedIn on views as objects (genmc/genmc/ADT/AdaptiveView.cpp): where the module AdaptiveViews
    takes any sound test of inclusion for a whole clock, this is the one the views have. */
module Containments {
  import opened Events
  import opened Clocks
  import opened AdaptiveViews
  import opened Views

  /** View v shows clock c. */
  ghost predicate Shows(v: View, c: Clock)
    reads v, v.base
  {
    (v.base != null ==> v.base.Trimmed()) && forall t: nat :: v.GetMax(t) == Clocks.GetMax(c, t)
  }

  /** containedIn, where `own` is the view that a summary holds when it is a whole clock: true exactly if the summary
      is below the clock, and the base of v covers that of `own` without the difference of v. */
  method ContainedIn(s: Storage, own: View?, v: View, ghost c: Clock) returns (all: bool)
    requires Shows(v, c) && (s.Whole? ==> own != null && Shows(own, s.view))
    ensures all <==> Below(s, c) && (s.Whole? ==> v.BaseCovers(own))
    ensures s.Whole? && v.diff.IsInitializer() ==> (all <==> Below(s, c))
  {
    match s
    case Empty => all := true;
    case OneEvent(e) => all := v.Contains(e);
    case Several(es) => all := ContainsAll(v, es, c);
    case Whole(view) =>
      all := v.ContainsView(own);
      assert v.Includes(own) <==> Leq(view, c) by {
        assert forall t: nat :: own.GetMax(t) <= v.GetMax(t) <==> Clocks.GetMax(view, t) <= Clocks.GetMax(c, t);
      }
    case Update(pos, _) => all := v.Contains(pos);
  }

  /** View::contains of several events. */
  method ContainsAll(v: View, es: seq<Event>, ghost c: Clock) returns (all: bool)
    requires Shows(v, c)
    ensures all <==> forall e :: e in es ==> Has(c, e)
  {
    for i := 0 to |es|
      invariant forall j :: 0 <= j < i ==> Has(c, es[j])
    {
      if !v.Contains(es[i]) {
        assert es[i] in es && !Has(c, es[i]);
        return false;
      }
    }
    all := true;
  }
}
