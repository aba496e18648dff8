/** Enumeration of the topological sortings of an adjacency list and of combinations of sortings
    (genmc/genmc/ADT/AdjList.hpp). It differs from that of the matrix in going through successor lists, and in leaving
    the choices made so far in place when the search succeeds. */
module AdjSearch {
  import opened Relation
  import opened Matrix
  import opened TopoSearch
  import opened AdjLists

  ghost function GraphOf(l: AdjList): TopoSearch.Graph
    reads l
  {
    TopoSearch.Graph(AdjLists.Edges(l.nodeSucc), |l.nodeSucc|)
  }

  lemma EdgesWithin(g: Succ)
    requires AdjLists.Closed(g)
    ensures Within(AdjLists.Edges(g), |g|)
  {
    forall a: nat, b: nat | (a, b) in AdjLists.Edges(g) ensures a < |g| && b < |g| { EdgeOf(g, a, b); }
  }

  /** The in-degree that is stored is the number of predecessors. */
  lemma SourcesArePreds(g: Succ, x: nat)
    ensures Sources(g, x) == Preds(AdjLists.Edges(g), {}, x, |g|)
  {
    forall y: nat ensures y in Sources(g, x) <==> y in Preds(AdjLists.Edges(g), {}, x, |g|) { EdgeOf(g, y, x); }
  }

  /** Takes a node out of the in-degrees of its successors. */
  method LowerDegrees(succ: seq<nat>, inDegree: array<int>)
    requires NoDup(succ) && forall j :: j in succ ==> j < inDegree.Length
    modifies inDegree
    ensures forall x :: 0 <= x < inDegree.Length ==> inDegree[x] == old(inDegree[x]) - if x in succ then 1 else 0
  {
    for k := 0 to |succ|
      invariant forall x :: 0 <= x < inDegree.Length ==>
        inDegree[x] == old(inDegree[x]) - if x in succ[..k] then 1 else 0
    {
      NextOf(succ, k);
      inDegree[succ[k]] := inDegree[succ[k]] - 1;
    }
    assert succ[..|succ|] == succ;
  }

  method RaiseDegrees(succ: seq<nat>, inDegree: array<int>)
    requires NoDup(succ) && forall j :: j in succ ==> j < inDegree.Length
    modifies inDegree
    ensures forall x :: 0 <= x < inDegree.Length ==> inDegree[x] == old(inDegree[x]) + if x in succ then 1 else 0
  {
    for k := 0 to |succ|
      invariant forall x :: 0 <= x < inDegree.Length ==>
        inDegree[x] == old(inDegree[x]) + if x in succ[..k] then 1 else 0
    {
      NextOf(succ, k);
      inDegree[succ[k]] := inDegree[succ[k]] + 1;
    }
    assert succ[..|succ|] == succ;
  }

  lemma NextOf(s: seq<nat>, k: nat)
    requires NoDup(s) && k < |s|
    ensures s[k] in s && s[k] !in s[..k] && forall x :: x in s[..k + 1] <==> x in s[..k] || x == s[k]
  {
    assert s[..k + 1] == s[..k] + [s[k]];
  }

  class Search {
    const toCombine: seq<AdjList>
    const prop: seq<seq<nat>> -> bool
    ghost const gs: seq<TopoSearch.Graph>
    /** The sortings chosen so far, one per list. */
    var current: seq<seq<nat>>
    /** Every candidate a predicate was called on, in order. */
    ghost var tried: seq<seq<seq<nat>>>

    ghost predicate Valid()
      reads this, set l | l in toCombine
    {
      |gs| == |toCombine| && forall i :: 0 <= i < |gs| ==> toCombine[i].Valid() && gs[i] == GraphOf(toCombine[i])
    }

    constructor (ls: seq<AdjList>, prop: seq<seq<nat>> -> bool, ghost gs: seq<TopoSearch.Graph>)
      requires |gs| == |ls| && forall i :: 0 <= i < |ls| ==> ls[i].Valid() && gs[i] == GraphOf(ls[i])
      ensures Valid() && toCombine == ls && this.prop == prop && this.gs == gs && current == [] && tried == []
    {
      toCombine, this.prop, this.gs := ls, prop, gs;
      current, tried := [], [];
    }

    ghost function JobOf(cb: Callback, g: TopoSearch.Graph): Job
      reads this
    {
      Job(gs, prop, cb, current, g)
    }

    ghost function Level(cb: Callback): nat {
      match cb
      case Plain(_) => 0
      case Nested(index) => if index < |toCombine| then |toCombine| - index else 0
    }

    /** What becomes of the choices made before: they are as they were, or the start of an accepted combination. */
    ghost predicate Chosen(cb: Callback, was: seq<seq<nat>>, found: bool)
      reads this
    {
      if found && cb.Nested? then was <= current && Combination(gs, current) && prop(current) else current == was
    }

    /** Calls the callback on a finished sorting. */
    method Invoke(cb: Callback, ghost g: TopoSearch.Graph, sorting: seq<nat>) returns (ok: bool)
      requires Valid() && JobOf(cb, g).Valid() && Complete(g.r, g.n, sorting)
      modifies this
      ensures Valid() && Chosen(cb, old(current), ok)
      ensures ok <==> old(JobOf(cb, g)).Holds(sorting)
      ensures old(JobOf(cb, g)).Grew(old(tried), tried, sorting)
      ensures !ok ==> old(JobOf(cb, g)).Exhausted(tried, sorting)
      decreases Level(cb), 0, 1
    {
      match cb
      case Plain(p) =>
        PlainLogged(JobOf(cb, g), tried, sorting);
        tried := tried + [[sorting]];
        ok := p(sorting);
      case Nested(index) =>
        ok := GoOn(index, g, sorting);
    }

    /** The callback of combineAllTopoSortUtil. */
    method GoOn(index: nat, ghost g: TopoSearch.Graph, sorting: seq<nat>) returns (ok: bool)
      requires Valid() && JobOf(Nested(index), g).Valid() && Complete(g.r, g.n, sorting)
      modifies this
      ensures Valid() && Chosen(Nested(index), old(current), ok)
      ensures ok <==> old(JobOf(Nested(index), g)).Holds(sorting)
      ensures old(JobOf(Nested(index), g)).Grew(old(tried), tried, sorting)
      ensures !ok ==> old(JobOf(Nested(index), g)).Exhausted(tried, sorting)
      decreases Level(Nested(index)), 0, 0
    {
      ghost var job, was := JobOf(Nested(index), g), current;
      current := current + [sorting];
      ok := CombineAllTopoSortUtil(index + 1);
      NestedLogged(job, old(tried), tried, sorting, ok);
      if ok {
        assert was <= was + [sorting] <= current;
        return;
      }
      current := current[..|current| - 1];
      assert current == was;
    }

    /** The branch of node i: schedules it, goes on from there, and takes it back if that fails. */
    method TryNode(cb: Callback, l: AdjList, ghost g: TopoSearch.Graph, current0: seq<nat>, visited0: seq<bool>,
                   inDegree: array<int>, i: nat) returns (found: bool)
      requires Valid() && JobOf(cb, g).Valid() && l.Valid() && g == GraphOf(l)
      requires inDegree.Length == |visited0| == g.n && |current0| < g.n
      requires forall x: nat :: x < g.n ==> inDegree[x] == |Preds(g.r, Listed(current0), x, g.n)|
      requires forall x: nat :: x < g.n ==> (visited0[x] <==> x in current0)
      requires Schedule(g.r, g.n, current0) && Available(g.r, g.n, current0, i)
      modifies this, inDegree
      ensures Valid() && Chosen(cb, old(current), found)
      ensures found <==> old(JobOf(cb, g)).SomeBelow(current0 + [i])
      ensures !found ==> inDegree[..] == old(inDegree[..])
      ensures old(JobOf(cb, g)).Grew(old(tried), tried, current0 + [i])
      ensures !found ==> old(JobOf(cb, g)).Exhausted(tried, current0 + [i])
      decreases Level(cb), 1, g.n - |current0|, 0
    {
      ghost var degrees := inDegree[..];
      LowerDegrees(l.nodeSucc[i], inDegree);
      EdgesWithin(l.nodeSucc);
      forall x: nat ensures (i, x) in g.r <==> x in l.nodeSucc[i] { EdgeOf(l.nodeSucc, i, x); }
      ScheduleNode(g, current0, i, degrees, inDegree[..]);
      var sorting := current0 + [i];
      var visited := visited0[i := true];
      found := AllTopoSortUtil(cb, l, g, sorting, visited, inDegree, false);
      if found { return; }
      RaiseDegrees(l.nodeSucc[i], inDegree);
      assert inDegree[..] == degrees;
    }

    /** Enumerates the sortings that extend `current0`; on failure the in-degrees are as they were. */
    method AllTopoSortUtil(cb: Callback, l: AdjList, ghost g: TopoSearch.Graph, current0: seq<nat>, visited0: seq<bool>,
                           inDegree: array<int>, found0: bool) returns (found: bool)
      requires Valid() && JobOf(cb, g).Valid() && l.Valid() && g == GraphOf(l)
      requires inDegree.Length == |visited0| == g.n
      requires forall x: nat :: x < g.n ==> inDegree[x] == |Preds(g.r, Listed(current0), x, g.n)|
      requires forall x: nat :: x < g.n ==> (visited0[x] <==> x in current0)
      requires Schedule(g.r, g.n, current0)
      modifies this, inDegree
      ensures Valid() && (if found0 then current == old(current) else Chosen(cb, old(current), found))
      ensures found0 ==> found && tried == old(tried)
      ensures !found0 ==> (found <==> old(JobOf(cb, g)).SomeBelow(current0))
      ensures !found ==> inDegree[..] == old(inDegree[..])
      ensures !found0 ==> old(JobOf(cb, g)).Grew(old(tried), tried, current0)
      ensures !found ==> old(JobOf(cb, g)).Exhausted(tried, current0)
      decreases Level(cb), 1, g.n - |current0|, 2
    {
      if found0 { return true; }
      ghost var job := JobOf(cb, g);
      ScheduleShape(g.r, g.n, current0);
      forall k | 0 <= k < |current0| ensures current0[k] < g.n { assert current0[k] in current0; }
      NoDupBound(current0, g.n);
      var scheduled;
      found, scheduled := TryAll(cb, l, g, current0, visited0, inDegree);
      if found { return; }
      SearchedAll(job, old(tried), tried, current0);
      if !scheduled {
        found := Invoke(cb, g, current0);
        job.AtLeaf(current0);
      }
    }

    /** The loop over the nodes that may come next. */
    method TryAll(cb: Callback, l: AdjList, ghost g: TopoSearch.Graph, current0: seq<nat>, visited0: seq<bool>,
                  inDegree: array<int>) returns (found: bool, scheduled: bool)
      requires Valid() && JobOf(cb, g).Valid() && l.Valid() && g == GraphOf(l)
      requires inDegree.Length == |visited0| == g.n && |current0| <= g.n
      requires forall x: nat :: x < g.n ==> inDegree[x] == |Preds(g.r, Listed(current0), x, g.n)|
      requires forall x: nat :: x < g.n ==> (visited0[x] <==> x in current0)
      requires Schedule(g.r, g.n, current0)
      modifies this, inDegree
      ensures Valid() && Chosen(cb, old(current), found)
      ensures found ==> old(JobOf(cb, g)).SomeBelow(current0) && old(JobOf(cb, g)).Grew(old(tried), tried, current0)
      ensures !found ==> Enumerated(old(JobOf(cb, g)), old(tried), tried, current0, g.n, scheduled)
      ensures !found ==> inDegree[..] == old(inDegree[..])
      decreases Level(cb), 1, g.n - |current0|, 1
    {
      ghost var job, degrees, log := JobOf(cb, g), inDegree[..], tried;
      EdgesWithin(l.nodeSucc);
      scheduled := false;
      for i := 0 to |l.nodeSucc|
        invariant Valid() && current == old(current) && inDegree[..] == degrees
        invariant Enumerated(job, log, tried, current0, i, scheduled)
      {
        FreeIsAvailable(g, current0, degrees, i);
        EnumeratedSkip(job, log, tried, current0, i, scheduled);
        if inDegree[i] == 0 && !visited0[i] {
          ghost var before := tried;
          AvailableFits(g, current0, i);
          found := TryNode(cb, l, g, current0, visited0, inDegree, i);
          EnumeratedTry(job, log, before, tried, current0, i, scheduled);
          if found {
            job.SomeAbove(current0, i);
            return;
          }
          scheduled := true;
        }
      }
      found := false;
    }

    method AllTopoSort(cb: Callback, l: AdjList, ghost g: TopoSearch.Graph) returns (found: bool)
      requires Valid() && JobOf(cb, g).Valid() && l.Valid() && g == GraphOf(l)
      modifies this
      ensures Valid() && Chosen(cb, old(current), found)
      ensures found <==> old(JobOf(cb, g)).SomeBelow([])
      ensures old(JobOf(cb, g)).Grew(old(tried), tried, [])
      ensures !found ==> old(JobOf(cb, g)).Exhausted(tried, [])
      decreases Level(cb), 2, 0
    {
      var visited := seq(|l.nodeSucc|, _ => false);
      var inDegree := new int[|l.nodeSucc|](i requires 0 <= i < |l.inDegree| reads l => l.inDegree[i]);
      assert Listed([]) == {};
      forall x: nat | x < g.n ensures inDegree[x] == |Preds(g.r, {}, x, g.n)| { SourcesArePreds(l.nodeSucc, x); }
      found := AllTopoSortUtil(cb, l, g, [], visited, inDegree, false);
    }

    /** Extends the sortings chosen so far by one for each list from `index` on. */
    method CombineAllTopoSortUtil(index: nat) returns (found: bool)
      requires Valid() && index <= |toCombine| && |current| == index
      requires forall i :: 0 <= i < index ==> Complete(gs[i].r, gs[i].n, current[i])
      modifies this
      ensures Valid() && (!found ==> current == old(current))
      ensures found ==> old(current) <= current && Combination(gs, current) && prop(current)
      ensures found <==> Accepts(gs, index, old(current), prop)
      ensures old(tried) <= tried && NoDup(tried[|old(tried)|..])
      ensures forall k :: |old(tried)| <= k < |tried| ==> Combination(gs, tried[k]) && old(current) <= tried[k]
      ensures !found ==> forall t :: Combination(gs, t) && old(current) <= t ==> t in tried
      decreases |toCombine| - index, 3, 0
    {
      if index == |toCombine| {
        tried := tried + [current];
        found := prop(current);
        assert tried[|tried| - 1] == current;
        forall t | Combination(gs, t) && current <= t ensures t in tried { assert t == current; }
      } else {
        ghost var job := JobOf(Nested(index), gs[index]);
        found := AllTopoSort(Nested(index), toCombine[index], gs[index]);
        forall t | Combination(gs, t) && old(current) <= t && !found ensures t in tried { assert job.Under(t, []); }
      }
    }
  }

  /** Looks for a topological sorting that satisfies prop. A search that fails has tried each sorting once. */
  method AllTopoSort(l: AdjList, prop: seq<nat> -> bool) returns (found: bool, ghost tried: seq<seq<seq<nat>>>)
    requires l.Valid()
    ensures found <==> exists s :: Complete(GraphOf(l).r, GraphOf(l).n, s) && prop(s)
    ensures Acyclic(l.added) ==> (found <==> exists s :: LinearExtension(l.added, |l.nodeSucc|, s) && prop(s))
    ensures NoDup(tried)
    ensures forall k :: 0 <= k < |tried| ==> |tried[k]| == 1 && Complete(GraphOf(l).r, GraphOf(l).n, tried[k][0])
    ensures !found ==> forall s :: Complete(GraphOf(l).r, GraphOf(l).n, s) ==> [s] in tried
  {
    var search := new Search([], _ => false, []);
    ghost var g := GraphOf(l);
    ghost var job := search.JobOf(Plain(prop), g);
    found := search.AllTopoSort(Plain(prop), l, g);
    tried := search.tried;
    assert tried[0..] == tried;
    forall k | 0 <= k < |tried| ensures |tried[k]| == 1 && Complete(g.r, g.n, tried[k][0]) {
      assert job.Under(tried[k], []);
    }
    forall s | Complete(g.r, g.n, s) && !found ensures [s] in tried { assert job.Under([s], []); }
    assert forall s :: Complete(g.r, g.n, s) && prop(s) ==> job.Holds(s) && [] <= s;
    if Acyclic(l.added) {
      forall s
        ensures Complete(g.r, g.n, s) <==> LinearExtension(l.added, g.n, s)
      {
        CompleteSorts(l.nodeSucc, l.added, s);
      }
    }
  }

  /** Sorting along the successor lists is sorting along all edges added. */
  lemma CompleteSorts(g: Succ, added: Rel, s: seq<nat>)
    requires AdjLists.Closed(g) && Covers(g, added) && Acyclic(added)
    ensures Complete(AdjLists.Edges(g), |g|, s) <==> LinearExtension(added, |g|, s)
  {
    AcyclicSame(g, added);
    EdgesWithin(g);
    CompleteIsLinearExtension(AdjLists.Edges(g), |g|, s);
    if LinearExtension(AdjLists.Edges(g), |g|, s) { SortsAdded(g, added, s); }
  }

  /** One linear extension of the edges added to each list. */
  ghost predicate Sortings(ls: seq<AdjList>, t: seq<seq<nat>>)
    reads ls
  {
    |t| == |ls| && forall i :: 0 <= i < |t| ==> LinearExtension(ls[i].added, |ls[i].nodeSucc|, t[i])
  }

  /** Looks for a combination of topological sortings, one per list, that satisfies prop. */
  method CombineAllTopoSort(toCombine: seq<AdjList>, prop: seq<seq<nat>> -> bool, ghost gs: seq<TopoSearch.Graph>)
    returns (found: bool, ghost tried: seq<seq<seq<nat>>>)
    requires |gs| == |toCombine|
    requires forall i :: 0 <= i < |gs| ==> toCombine[i].Valid() && gs[i] == GraphOf(toCombine[i])
    ensures found <==> exists t :: Combination(gs, t) && prop(t)
    ensures (forall i :: 0 <= i < |gs| ==> Acyclic(toCombine[i].added)) ==>
      (found <==> exists t :: Sortings(toCombine, t) && prop(t))
    ensures NoDup(tried) && forall k :: 0 <= k < |tried| ==> Combination(gs, tried[k])
    ensures !found ==> forall t :: Combination(gs, t) ==> t in tried
  {
    var search := new Search(toCombine, prop, gs);
    found := search.CombineAllTopoSortUtil(0);
    tried := search.tried;
    assert tried[0..] == tried;
    if !found {
      forall t | Combination(gs, t) ensures !prop(t) {
        if prop(t) { TupleGivesAccepts(gs, 0, t, prop); }
      }
      forall t | Combination(gs, t) ensures t in tried { assert [] <= t; }
    }
    if forall i :: 0 <= i < |gs| ==> Acyclic(toCombine[i].added) {
      forall t ensures Combination(gs, t) <==> Sortings(toCombine, t) { CombinationSorts(toCombine, gs, t); }
    }
  }

  lemma CombinationSorts(ls: seq<AdjList>, gs: seq<TopoSearch.Graph>, t: seq<seq<nat>>)
    requires |gs| == |ls|
    requires forall i :: 0 <= i < |gs| ==> ls[i].Valid() && gs[i] == GraphOf(ls[i]) && Acyclic(ls[i].added)
    ensures Combination(gs, t) <==> Sortings(ls, t)
  {
    if |t| == |gs| {
      forall i | 0 <= i < |t|
        ensures Complete(gs[i].r, gs[i].n, t[i]) <==> LinearExtension(ls[i].added, |ls[i].nodeSucc|, t[i])
      {
        CompleteSorts(ls[i].nodeSucc, ls[i].added, t[i]);
      }
    }
  }
}
