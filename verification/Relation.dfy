/** Finite binary relations over node numbers: reachability and acyclicity, the meaning every closure and
    sorting algorithm of the project is measured against. */
module Relation {

  type Rel = set<(nat, nat)>

  /** A chain of exactly `steps + 1` edges leads from a to b. */
  ghost predicate Chain(r: Rel, steps: nat, a: nat, b: nat) {
    if steps == 0 then (a, b) in r
    else exists c: nat :: (a, c) in r && Chain(r, steps - 1, c, b)
  }

  /** b can be reached from a along one or more edges. */
  ghost predicate Reach(r: Rel, a: nat, b: nat) {
    exists steps: nat :: Chain(r, steps, a, b)
  }

  ghost predicate Acyclic(r: Rel) {
    forall a: nat :: !Reach(r, a, a)
  }

  /** All edges of r stay below n. */
  ghost predicate Within(r: Rel, n: nat) {
    forall a: nat, b: nat :: (a, b) in r ==> a < n && b < n
  }

  lemma EdgeReaches(r: Rel, a: nat, b: nat)
    requires (a, b) in r
    ensures Reach(r, a, b)
  {
    assert Chain(r, 0, a, b);
  }

  lemma {:induction false} ChainThenReach(r: Rel, steps: nat, a: nat, b: nat, c: nat)
    requires Chain(r, steps, a, b) && Reach(r, b, c)
    ensures Reach(r, a, c)
  {
    if steps == 0 {
      var m: nat :| Chain(r, m, b, c);
      assert Chain(r, m + 1, a, c);
    } else {
      var d: nat :| (a, d) in r && Chain(r, steps - 1, d, b);
      ChainThenReach(r, steps - 1, d, b, c);
      var m: nat :| Chain(r, m, d, c);
      assert Chain(r, m + 1, a, c);
    }
  }

  lemma ReachTransitive(r: Rel, a: nat, b: nat, c: nat)
    requires Reach(r, a, b) && Reach(r, b, c)
    ensures Reach(r, a, c)
  {
    var steps: nat :| Chain(r, steps, a, b);
    ChainThenReach(r, steps, a, b, c);
  }

  /** Reachability is the least transitive relation above r: whatever contains r and is closed under
      prefixing an edge contains Reach(r). */
  lemma {:induction false} ReachIsLeast(r: Rel, q: Rel, steps: nat, a: nat, b: nat)
    requires r <= q
    requires forall x: nat, y: nat, z: nat :: (x, y) in r && (y, z) in q ==> (x, z) in q
    requires Chain(r, steps, a, b)
    ensures (a, b) in q
  {
    if steps > 0 {
      var c: nat :| (a, c) in r && Chain(r, steps - 1, c, b);
      ReachIsLeast(r, q, steps - 1, c, b);
    }
  }

  lemma {:induction false} ChainWithin(r: Rel, n: nat, steps: nat, a: nat, b: nat)
    requires Within(r, n) && Chain(r, steps, a, b)
    ensures a < n && b < n
  {
    if steps > 0 {
      var c: nat :| (a, c) in r && Chain(r, steps - 1, c, b);
      ChainWithin(r, n, steps - 1, c, b);
    }
  }

  lemma {:induction false} ChainMonotone(r: Rel, q: Rel, steps: nat, a: nat, b: nat)
    requires forall x: nat, y: nat :: (x, y) in r ==> Reach(q, x, y)
    requires Chain(r, steps, a, b)
    ensures Reach(q, a, b)
  {
    if steps > 0 {
      var c: nat :| (a, c) in r && Chain(r, steps - 1, c, b);
      ChainMonotone(r, q, steps - 1, c, b);
      ReachTransitive(q, a, c, b);
    }
  }

  /** Adding to r only edges that r already implies changes nothing. */
  lemma ReachSame(r: Rel, q: Rel)
    requires r <= q
    requires forall x: nat, y: nat :: (x, y) in q ==> Reach(r, x, y)
    ensures forall a: nat, b: nat :: Reach(r, a, b) <==> Reach(q, a, b)
  {
    forall x: nat, y: nat | (x, y) in r ensures Reach(q, x, y) { EdgeReaches(q, x, y); }
    forall a: nat, b: nat ensures Reach(r, a, b) <==> Reach(q, a, b) {
      if Reach(r, a, b) {
        var m: nat :| Chain(r, m, a, b);
        ChainMonotone(r, q, m, a, b);
      }
      if Reach(q, a, b) {
        var m: nat :| Chain(q, m, a, b);
        ChainMonotone(q, r, m, a, b);
      }
    }
  }

  ghost predicate HasPredIn(r: Rel, s: set<nat>, x: nat) {
    exists y: nat :: y in s && (y, x) in r
  }

  /** A nonempty finite set in which every member has a predecessor contains a node on a cycle. */
  lemma {:induction false} NoSourceHasCycle(r: Rel, s: set<nat>) returns (c: nat)
    requires s != {}
    requires forall x :: x in s ==> HasPredIn(r, s, x)
    ensures c in s && Reach(r, c, c)
    decreases s
  {
    var u :| u in s;
    if Reach(r, u, u) { return u; }
    var p := set x | x in s && Reach(r, x, u);
    assert HasPredIn(r, s, u);
    var y :| y in s && (y, u) in r;
    EdgeReaches(r, y, u);
    assert y in p && u !in p;
    forall x | x in p ensures HasPredIn(r, p, x) {
      assert HasPredIn(r, s, x);
      var z :| z in s && (z, x) in r;
      EdgeReaches(r, z, x);
      ReachTransitive(r, z, x, u);
      assert z in p;
    }
    c := NoSourceHasCycle(r, p);
  }

  /** `order` lists nodes so that every edge between listed nodes points forward. */
  ghost predicate Forward(r: Rel, order: seq<nat>) {
    forall i, j :: 0 <= i < |order| && 0 <= j < |order| && (order[i], order[j]) in r ==> i < j
  }

  ghost predicate NoDup<T>(order: seq<T>) {
    forall i, j :: 0 <= i < j < |order| ==> order[i] != order[j]
  }

  /** `order` is a topological sorting of the nodes below n: each once, edges forward. */
  ghost predicate LinearExtension(r: Rel, n: nat, order: seq<nat>) {
    && NoDup(order)
    && (forall x: nat :: x in order <==> x < n)
    && Forward(r, order)
  }

  /** Membership in `order` propagates backwards along edges. */
  ghost predicate PredClosed(r: Rel, order: seq<nat>) {
    forall x: nat, y: nat :: (x, y) in r && y in order ==> x in order
  }

  /** In a forward list that keeps predecessors, whatever reaches a listed node is listed before it. */
  lemma {:induction false} ForwardChain(r: Rel, order: seq<nat>, steps: nat, a: nat, j: nat)
    requires Forward(r, order) && PredClosed(r, order)
    requires j < |order| && Chain(r, steps, a, order[j])
    ensures a in order
    ensures forall i :: 0 <= i < |order| && order[i] == a ==> i < j
  {
    if steps > 0 {
      var c: nat :| (a, c) in r && Chain(r, steps - 1, c, order[j]);
      ForwardChain(r, order, steps - 1, c, j);
      var k :| 0 <= k < |order| && order[k] == c;
      assert k < j;
    } else {
      assert order[j] in order;
    }
  }

  /** A node of a forward list that keeps predecessors lies neither on nor behind a cycle. */
  lemma ForwardAvoidsCycles(r: Rel, order: seq<nat>, c: nat, x: nat)
    requires Forward(r, order) && PredClosed(r, order)
    requires x in order && (c == x || Reach(r, c, x))
    ensures !Reach(r, c, c)
  {
    var j :| 0 <= j < |order| && order[j] == x;
    if c != x {
      var steps: nat :| Chain(r, steps, c, x);
      ForwardChain(r, order, steps, c, j);
    }
    if Reach(r, c, c) {
      var k :| 0 <= k < |order| && order[k] == c;
      var steps: nat :| Chain(r, steps, c, order[k]);
      ForwardChain(r, order, steps, c, k);
    }
  }

  /** A relation that can be sorted has no cycle. */
  lemma SortedIsAcyclic(r: Rel, n: nat, order: seq<nat>)
    requires LinearExtension(r, n, order) && Within(r, n)
    ensures Acyclic(r)
  {
    forall a: nat ensures !Reach(r, a, a) {
      if Reach(r, a, a) {
        var steps: nat :| Chain(r, steps, a, a);
        ChainWithin(r, n, steps, a, a);
        ForwardAvoidsCycles(r, order, a, a);
      }
    }
  }

  /** A duplicate-free list of numbers below n has at most n members, and all of them if it has n. */
  lemma {:induction false} NoDupBound(order: seq<nat>, n: nat)
    requires NoDup(order) && forall i :: 0 <= i < |order| ==> order[i] < n
    ensures |order| <= n
    ensures |order| == n ==> forall x: nat :: x in order <==> x < n
  {
    if n == 0 {
    } else if n - 1 in order {
      var k :| 0 <= k < |order| && order[k] == n - 1;
      var rest := order[..k] + order[k + 1..];
      forall i | 0 <= i < |rest| ensures rest[i] < n - 1 && rest[i] in order {
        var m := if i < k then i else i + 1;
        assert rest[i] == order[m] && order[m] in order;
        assert order[m] != order[k] by {
          if m < k { assert order[m] != order[k]; } else { assert order[k] != order[m]; }
        }
      }
      NoDupBound(rest, n - 1);
      if |order| == n {
        forall x: nat | x < n ensures x in order {
          if x < n - 1 { assert x in rest; }
        }
      }
    } else {
      forall i | 0 <= i < |order| ensures order[i] < n - 1 { assert order[i] in order; }
      NoDupBound(order, n - 1);
    }
  }

  /** A list that mentions every number below n has at least n members. */
  lemma {:induction false} AllListed(order: seq<nat>, n: nat)
    requires forall x: nat :: x < n ==> x in order
    ensures |order| >= n
  {
    if n > 0 {
      var m: nat := n - 1;
      assert m in order;
      var k :| 0 <= k < |order| && order[k] == m;
      var rest := order[..k] + order[k + 1..];
      forall x: nat | x < m ensures x in rest {
        assert x in order;
        var i :| 0 <= i < |order| && order[i] == x;
        assert x == rest[if i < k then i else i - 1];
      }
      AllListed(rest, n - 1);
    }
  }
}
