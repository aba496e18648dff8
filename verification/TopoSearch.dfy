/** Enumeration of the topological sortings of a matrix and of combinations of sortings
    (genmc/genmc/ADT/Matrix2D.hpp). The callback that `allTopoSort` is given is a value of a datatype: either the
    user's predicate, or the closure with which `combineAllTopoSort` goes on to the next matrix. */
module TopoSearch {
  import opened Relation
  import opened Matrix

  /** Node i may be scheduled next: it is new and all its predecessors have been scheduled. */
  ghost predicate Available(r: Rel, n: nat, cur: seq<nat>, i: nat) {
    i < n && i !in cur && forall j: nat :: (j, i) in r ==> j in cur
  }

  ghost predicate Schedule(r: Rel, n: nat, s: seq<nat>) {
    forall k :: 0 <= k < |s| ==> Available(r, n, s[..k], s[k])
  }

  /** A schedule that cannot be extended. */
  ghost predicate Complete(r: Rel, n: nat, s: seq<nat>) {
    Schedule(r, n, s) && forall i: nat :: !Available(r, n, s, i)
  }

  lemma ScheduleShape(r: Rel, n: nat, s: seq<nat>)
    requires Schedule(r, n, s)
    ensures NoDup(s) && Forward(r, s) && forall x :: x in s ==> x < n
  {
    forall i, j | 0 <= i < j < |s| ensures s[i] != s[j] {
      assert Available(r, n, s[..j], s[j]) && s[i] == s[..j][i];
    }
    forall i, j | 0 <= i < |s| && 0 <= j < |s| && (s[i], s[j]) in r ensures i < j {
      assert Available(r, n, s[..j], s[j]);
      var k :| 0 <= k < j && s[..j][k] == s[i];
      assert s[k] == s[i];
    }
    forall x | x in s ensures x < n {
      var k :| 0 <= k < |s| && s[k] == x;
      assert Available(r, n, s[..k], s[k]);
    }
  }

  /** On an acyclic relation the complete schedules are exactly the linear extensions. */
  lemma CompleteIsLinearExtension(r: Rel, n: nat, s: seq<nat>)
    requires Within(r, n) && Acyclic(r)
    ensures Complete(r, n, s) <==> LinearExtension(r, n, s)
  {
    if Complete(r, n, s) {
      ScheduleShape(r, n, s);
      var open := set x: nat | x < n && x !in s;
      if open != {} {
        forall x | x in open ensures HasPredIn(r, open, x) {
          assert !Available(r, n, s, x);
          var j: nat :| (j, x) in r && j !in s;
          assert j in open;
        }
        var c := NoSourceHasCycle(r, open);
      }
      forall x: nat ensures x in s <==> x < n {
        assert x < n && x !in s ==> x in open;
      }
    }
    if LinearExtension(r, n, s) {
      forall k | 0 <= k < |s| ensures Available(r, n, s[..k], s[k]) {
        assert s[k] in s;
        forall j: nat | (j, s[k]) in r ensures j in s[..k] {
          assert j in s;
          var i :| 0 <= i < |s| && s[i] == j;
          assert i < k && s[..k][i] == j;
        }
      }
    }
  }

  datatype Callback =
    | Plain(prop: seq<nat> -> bool)
    | Nested(index: nat)

  /** A matrix as the specification sees it. */
  datatype Graph = Graph(r: Rel, n: nat)

  /** Some choice of complete schedules for the graphs from `index` on, appended to `prefix`, satisfies prop. */
  ghost predicate Accepts(gs: seq<Graph>, index: nat, prefix: seq<seq<nat>>, prop: seq<seq<nat>> -> bool)
    decreases |gs| - index
  {
    if index >= |gs| then prop(prefix)
    else exists s :: Complete(gs[index].r, gs[index].n, s) && Accepts(gs, index + 1, prefix + [s], prop)
  }

  ghost predicate Combination(gs: seq<Graph>, t: seq<seq<nat>>) {
    |t| == |gs| && forall i :: 0 <= i < |t| ==> Complete(gs[i].r, gs[i].n, t[i])
  }

  lemma {:induction false} AcceptsGivesTuple(gs: seq<Graph>, prefix: seq<seq<nat>>, prop: seq<seq<nat>> -> bool)
    returns (t: seq<seq<nat>>)
    requires |prefix| <= |gs| && forall i :: 0 <= i < |prefix| ==> Complete(gs[i].r, gs[i].n, prefix[i])
    requires Accepts(gs, |prefix|, prefix, prop)
    ensures Combination(gs, t) && prop(t)
    decreases |gs| - |prefix|
  {
    var k := |prefix|;
    if k == |gs| {
      t := prefix;
    } else {
      var s :| Complete(gs[k].r, gs[k].n, s) && Accepts(gs, k + 1, prefix + [s], prop);
      t := AcceptsGivesTuple(gs, prefix + [s], prop);
    }
  }

  lemma {:induction false} TupleGivesAccepts(gs: seq<Graph>, k: nat, t: seq<seq<nat>>, prop: seq<seq<nat>> -> bool)
    requires Combination(gs, t) && prop(t) && k <= |gs|
    ensures Accepts(gs, k, t[..k], prop)
    decreases |gs| - k
  {
    if k == |gs| {
      assert t[..k] == t;
    } else {
      TupleGivesAccepts(gs, k + 1, t, prop);
      assert t[..k + 1] == t[..k] + [t[k]];
    }
  }

  /** One enumeration: whose sortings (g) are passed to which callback, after which earlier choices (prefix). */
  datatype Job = Job(gs: seq<Graph>, prop: seq<seq<nat>> -> bool, cb: Callback, prefix: seq<seq<nat>>, g: Graph)
  {
    /** The callback accepts sorting s. */
    ghost predicate Holds(s: seq<nat>) {
      match cb
      case Plain(p) => p(s)
      case Nested(index) => Accepts(gs, index + 1, prefix + [s], prop)
    }

    /** Some complete schedule that starts with cur is accepted. */
    ghost predicate SomeBelow(cur: seq<nat>) {
      exists s :: Complete(g.r, g.n, s) && cur <= s && Holds(s)
    }

    /** t is something a predicate may be called on. */
    ghost predicate Candidate(t: seq<seq<nat>>) {
      match cb
      case Plain(_) => |t| == 1 && Complete(g.r, g.n, t[0])
      case Nested(_) => Combination(gs, t)
    }

    /** Candidate t was built on `prefix` and its next component starts with `part`. */
    ghost predicate Under(t: seq<seq<nat>>, part: seq<nat>) {
      |t| > |prefix| && prefix <= t && part <= t[|prefix|] && Candidate(t)
    }

    /** The log grew by candidates below `part`, none of them twice. */
    ghost predicate Grew(was: seq<seq<seq<nat>>>, now: seq<seq<seq<nat>>>, part: seq<nat>) {
      was <= now && NoDup(now[|was|..]) && forall k :: |was| <= k < |now| ==> Under(now[k], part)
    }

    /** Every candidate below `part` is in the log. */
    ghost predicate Exhausted(log: seq<seq<seq<nat>>>, part: seq<nat>) {
      forall t :: Under(t, part) ==> t in log
    }

    ghost predicate Valid() {
      match cb
      case Plain(_) => prefix == []
      case Nested(index) =>
        index < |gs| && |prefix| == index && g == gs[index] &&
        forall i :: 0 <= i < index ==> Complete(gs[i].r, gs[i].n, prefix[i])
    }

    lemma CandidateComplete(t: seq<seq<nat>>, part: seq<nat>)
      requires Valid() && Under(t, part)
      ensures Complete(g.r, g.n, t[|prefix|])
    {
    }

    /** Branching over the available nodes misses nothing. */
    lemma Branches(cur: seq<nat>, s: seq<nat>)
      requires Schedule(g.r, g.n, cur) && Complete(g.r, g.n, s) && cur <= s
      ensures s == cur || (Available(g.r, g.n, cur, s[|cur|]) && cur + [s[|cur|]] <= s)
      ensures s == cur <==> Complete(g.r, g.n, cur)
    {
      if s != cur { assert s[..|cur|] == cur; }
    }

    lemma SomeAbove(cur: seq<nat>, i: nat)
      requires SomeBelow(cur + [i])
      ensures SomeBelow(cur)
    {
      var s :| Complete(g.r, g.n, s) && cur + [i] <= s && Holds(s);
      assert cur <= s;
    }

    lemma AtLeaf(cur: seq<nat>)
      requires Complete(g.r, g.n, cur)
      ensures SomeBelow(cur) <==> Holds(cur)
    {
      forall s | Complete(g.r, g.n, s) && cur <= s ensures s == cur { Branches(cur, s); }
      assert cur <= cur;
    }

    /** Once every branch has failed, the search below cur has failed and missed nothing. */
    lemma AllBranchesFailed(cur: seq<nat>, log: seq<seq<seq<nat>>>)
      requires Valid() && Schedule(g.r, g.n, cur) && !Complete(g.r, g.n, cur)
      requires forall k: nat :: Available(g.r, g.n, cur, k) ==> !SomeBelow(cur + [k]) && Exhausted(log, cur + [k])
      ensures !SomeBelow(cur) && Exhausted(log, cur)
    {
      forall s | Complete(g.r, g.n, s) && cur <= s ensures !Holds(s) {
        Branches(cur, s);
        assert !SomeBelow(cur + [s[|cur|]]);
      }
      forall t | Under(t, cur) ensures t in log {
        CandidateComplete(t, cur);
        Branches(cur, t[|prefix|]);
        assert Under(t, cur + [t[|prefix|][|cur|]]);
      }
    }

    /** Candidates found in the branch of node i differ from those of the branches before it. */
    lemma MoreTried(was: seq<seq<seq<nat>>>, mid: seq<seq<seq<nat>>>, now: seq<seq<seq<nat>>>, cur: seq<nat>, i: nat)
      requires Grew(was, mid, cur) && Grew(mid, now, cur + [i])
      requires forall k :: |was| <= k < |mid| ==> |mid[k][|prefix|]| > |cur| && mid[k][|prefix|][|cur|] < i
      ensures Grew(was, now, cur)
      ensures forall k :: |was| <= k < |now| ==> |now[k][|prefix|]| > |cur| && now[k][|prefix|][|cur|] < i + 1
    {
      forall k | |was| <= k < |now|
        ensures Under(now[k], cur) && |now[k][|prefix|]| > |cur|
        ensures now[k][|prefix|][|cur|] < i + 1 && (k >= |mid| <==> now[k][|prefix|][|cur|] == i)
      {
        if k >= |mid| {
          assert Under(now[k], cur + [i]);
          assert (cur + [i])[|cur|] == i && cur <= cur + [i];
        } else {
          assert now[k] == mid[k] && Under(mid[k], cur);
        }
      }
      forall k, l | 0 <= k < l < |now[|was|..]| ensures now[|was|..][k] != now[|was|..][l] {
        if |was| + l < |mid| {
          assert mid[|was|..][k] != mid[|was|..][l];
        } else if |was| + k >= |mid| {
          assert now[|mid|..][|was| + k - |mid|] != now[|mid|..][|was| + l - |mid|];
        }
      }
    }
  }

  /** The user's predicate has been called on the one candidate below a complete schedule. */
  lemma PlainLogged(job: Job, was: seq<seq<seq<nat>>>, s: seq<nat>)
    requires job.cb.Plain? && job.Valid() && Complete(job.g.r, job.g.n, s)
    ensures job.Grew(was, was + [[s]], s) && job.Exhausted(was + [[s]], s)
  {
    forall t | job.Under(t, s) ensures t in was + [[s]] {
      job.Branches(s, t[0]);
      assert t == [s] && (was + [[s]])[|was|] == t;
    }
    assert job.Under([s], s);
  }

  /** The combinations that go on from a complete schedule are the candidates below it. */
  lemma NestedLogged(job: Job, was: seq<seq<seq<nat>>>, log: seq<seq<seq<nat>>>, s: seq<nat>, found: bool)
    requires job.cb.Nested? && job.Valid() && Complete(job.g.r, job.g.n, s)
    requires was <= log && NoDup(log[|was|..])
    requires forall k :: |was| <= k < |log| ==> Combination(job.gs, log[k]) && job.prefix + [s] <= log[k]
    requires !found ==> forall t :: Combination(job.gs, t) && job.prefix + [s] <= t ==> t in log
    ensures job.Grew(was, log, s) && (!found ==> job.Exhausted(log, s))
  {
    var index := job.cb.index;
    forall k | |was| <= k < |log| ensures job.Under(log[k], s) {
      assert (job.prefix + [s])[index] == log[k][index] && job.prefix <= log[k];
    }
    forall t | job.Under(t, s) && !found ensures t in log {
      job.Branches(s, t[index]);
      assert job.prefix + [s] <= t;
    }
  }

  /** The branches of the nodes before i have been searched without success, and nothing else has been logged. */
  ghost predicate Searched(job: Job, was: seq<seq<seq<nat>>>, log: seq<seq<seq<nat>>>, cur: seq<nat>, i: nat) {
    && job.Grew(was, log, cur)
    && (forall k :: |was| <= k < |log| && |log[k]| > |job.prefix| ==>
          |log[k][|job.prefix|]| > |cur| && log[k][|job.prefix|][|cur|] < i)
    && forall k: nat :: k < i && Available(job.g.r, job.g.n, cur, k) ==>
         !job.SomeBelow(cur + [k]) && job.Exhausted(log, cur + [k])
  }

  /** The same, and whether there was a node to try. */
  ghost predicate Enumerated(job: Job, was: seq<seq<seq<nat>>>, log: seq<seq<seq<nat>>>, cur: seq<nat>, i: nat,
                             scheduled: bool) {
    && Searched(job, was, log, cur, i) && (!scheduled ==> log == was)
    && (scheduled <==> exists k: nat :: k < i && Available(job.g.r, job.g.n, cur, k))
  }

  lemma EnumeratedSkip(job: Job, was: seq<seq<seq<nat>>>, log: seq<seq<seq<nat>>>, cur: seq<nat>, i: nat,
                       scheduled: bool)
    requires Enumerated(job, was, log, cur, i, scheduled)
    ensures !Available(job.g.r, job.g.n, cur, i) ==> Enumerated(job, was, log, cur, i + 1, scheduled)
  {
  }

  lemma EnumeratedTry(job: Job, was: seq<seq<seq<nat>>>, before: seq<seq<seq<nat>>>, log: seq<seq<seq<nat>>>,
                      cur: seq<nat>, i: nat, scheduled: bool)
    requires Enumerated(job, was, before, cur, i, scheduled) && job.Grew(before, log, cur + [i])
    requires Available(job.g.r, job.g.n, cur, i)
    ensures job.Grew(was, log, cur)
    ensures !job.SomeBelow(cur + [i]) && job.Exhausted(log, cur + [i]) ==> Enumerated(job, was, log, cur, i + 1, true)
  {
    forall k | |was| <= k < |before| ensures |before[k]| > |job.prefix| { assert job.Under(before[k], cur); }
    job.MoreTried(was, before, log, cur, i);
  }

  lemma SearchedAll(job: Job, was: seq<seq<seq<nat>>>, log: seq<seq<seq<nat>>>, cur: seq<nat>)
    requires Searched(job, was, log, cur, job.g.n) && job.Valid() && Schedule(job.g.r, job.g.n, cur)
    ensures job.Grew(was, log, cur)
    ensures !Complete(job.g.r, job.g.n, cur) ==> !job.SomeBelow(cur) && job.Exhausted(log, cur)
  {
    if !Complete(job.g.r, job.g.n, cur) { job.AllBranchesFailed(cur, log); }
  }

  /** The two tests of the enumeration decide availability. */
  lemma FreeIsAvailable(g: Graph, cur: seq<nat>, inDegree: seq<int>, i: nat)
    requires Within(g.r, g.n) && i < g.n == |inDegree|
    requires inDegree[i] == |Preds(g.r, Listed(cur), i, g.n)|
    ensures inDegree[i] == 0 && i !in cur <==> Available(g.r, g.n, cur, i)
  {
    if inDegree[i] == 0 {
      assert Preds(g.r, Listed(cur), i, g.n) == {};
      forall j: nat | (j, i) in g.r ensures j in cur {
        assert j in cur || j in Preds(g.r, Listed(cur), i, g.n);
      }
    } else {
      var j :| j in Preds(g.r, Listed(cur), i, g.n);
      assert (j, i) in g.r && j !in cur;
    }
  }

  /** While a node is left, a schedule is shorter than the number of nodes. */
  lemma AvailableFits(g: Graph, cur: seq<nat>, i: nat)
    requires Schedule(g.r, g.n, cur) && Available(g.r, g.n, cur, i)
    ensures |cur| < g.n
  {
    ScheduleShape(g.r, g.n, cur);
    var more := cur + [i];
    forall k | 0 <= k < |more| ensures more[k] < g.n { assert k < |cur| ==> cur[k] in cur; }
    forall k, l | 0 <= k < l < |more| ensures more[k] != more[l] { assert k < |cur| && cur[k] in cur; }
    NoDupBound(more, g.n);
  }

  /** Takes node i out of the in-degrees of its successors. */
  method Lower(m: Matrix2D, i: nat, inDegree: array<int>)
    requires m.Valid() && i < m.size == inDegree.Length
    modifies inDegree
    ensures forall x :: 0 <= x < m.size ==> inDegree[x] == old(inDegree[x]) - if m.matrix[i, x] then 1 else 0
  {
    for j := 0 to m.size
      invariant forall x :: 0 <= x < m.size ==>
        inDegree[x] == old(inDegree[x]) - if x < j && m.matrix[i, x] then 1 else 0
    {
      if m.matrix[i, j] { inDegree[j] := inDegree[j] - 1; }
    }
  }

  method Raise(m: Matrix2D, i: nat, inDegree: array<int>)
    requires m.Valid() && i < m.size == inDegree.Length
    modifies inDegree
    ensures forall x :: 0 <= x < m.size ==> inDegree[x] == old(inDegree[x]) + if m.matrix[i, x] then 1 else 0
  {
    for j := 0 to m.size
      invariant forall x :: 0 <= x < m.size ==>
        inDegree[x] == old(inDegree[x]) + if x < j && m.matrix[i, x] then 1 else 0
    {
      if m.matrix[i, j] { inDegree[j] := inDegree[j] + 1; }
    }
  }

  /** Scheduling node i keeps the in-degrees those of the remaining nodes. */
  lemma ScheduleNode(g: Graph, cur: seq<nat>, i: nat, was: seq<int>, inDegree: seq<int>)
    requires Within(g.r, g.n) && Schedule(g.r, g.n, cur) && Available(g.r, g.n, cur, i)
    requires |was| == |inDegree| == g.n
    requires forall x: nat :: x < g.n ==> was[x] == |Preds(g.r, Listed(cur), x, g.n)|
    requires forall x: nat :: x < g.n ==> inDegree[x] == was[x] - if (i, x) in g.r then 1 else 0
    ensures Schedule(g.r, g.n, cur + [i])
    ensures forall x: nat :: x < g.n ==> inDegree[x] == |Preds(g.r, Listed(cur + [i]), x, g.n)|
  {
    assert Listed(cur + [i]) == Listed(cur) + {i};
    forall x: nat | x < g.n ensures inDegree[x] == |Preds(g.r, Listed(cur + [i]), x, g.n)| {
      PredsDone(g.r, Listed(cur), i, x, g.n);
    }
    forall k | 0 <= k < |cur + [i]| ensures Available(g.r, g.n, (cur + [i])[..k], (cur + [i])[k]) {
      assert (cur + [i])[..k] == cur[..k];
      if k == |cur| { assert cur[..k] == cur; }
    }
  }

  class Search {
    const toCombine: seq<Matrix2D>
    const prop: seq<seq<nat>> -> bool
    ghost const gs: seq<Graph>
    /** The sortings chosen so far, one per matrix. */
    var current: seq<seq<nat>>
    /** Every candidate a predicate was called on, in order. */
    ghost var tried: seq<seq<seq<nat>>>

    ghost predicate Valid()
      reads this, set m | m in toCombine :: m.matrix
    {
      |gs| == |toCombine| &&
      forall i :: 0 <= i < |gs| ==> toCombine[i].Valid() && gs[i] == Graph(toCombine[i].Edges(), toCombine[i].size)
    }

    constructor (ms: seq<Matrix2D>, prop: seq<seq<nat>> -> bool, ghost gs: seq<Graph>)
      requires |gs| == |ms| && forall i :: 0 <= i < |ms| ==> ms[i].Valid() && gs[i] == Graph(ms[i].Edges(), ms[i].size)
      ensures Valid() && toCombine == ms && this.prop == prop && this.gs == gs && current == [] && tried == []
    {
      toCombine, this.prop, this.gs := ms, prop, gs;
      current, tried := [], [];
    }

    ghost function JobOf(cb: Callback, g: Graph): Job
      reads this
    {
      Job(gs, prop, cb, current, g)
    }

    ghost function Level(cb: Callback): nat {
      match cb
      case Plain(_) => 0
      case Nested(index) => if index < |toCombine| then |toCombine| - index else 0
    }

    /** Calls the callback on a finished sorting. */
    method Invoke(cb: Callback, ghost g: Graph, sorting: seq<nat>) returns (ok: bool)
      requires Valid() && JobOf(cb, g).Valid() && Complete(g.r, g.n, sorting)
      modifies this
      ensures Valid() && current == old(current)
      ensures ok <==> JobOf(cb, g).Holds(sorting)
      ensures JobOf(cb, g).Grew(old(tried), tried, sorting)
      ensures !ok ==> JobOf(cb, g).Exhausted(tried, sorting)
      decreases Level(cb), 0, 0
    {
      ghost var job := JobOf(cb, g);
      match cb
      case Plain(p) =>
        PlainLogged(job, tried, sorting);
        tried := tried + [[sorting]];
        ok := p(sorting);
      case Nested(index) =>
        current := current + [sorting];
        ok := CombineAllTopoSortUtil(index + 1);
        NestedLogged(job, old(tried), tried, sorting, ok);
        current := current[..|current| - 1];
        assert current == old(current);
    }

    /** The branch of node i: schedules it, goes on from there, and takes it back if that fails. */
    method TryNode(cb: Callback, m: Matrix2D, ghost g: Graph, current0: seq<nat>, visited0: seq<bool>,
                   inDegree: array<int>, i: nat) returns (found: bool)
      requires Valid() && JobOf(cb, g).Valid() && m.Valid() && g == Graph(m.Edges(), m.size)
      requires inDegree.Length == |visited0| == m.size && |current0| < m.size
      requires forall x: nat :: x < g.n ==> inDegree[x] == |Preds(g.r, Listed(current0), x, g.n)|
      requires forall x: nat :: x < g.n ==> (visited0[x] <==> x in current0)
      requires Schedule(g.r, g.n, current0) && Available(g.r, g.n, current0, i)
      modifies this, inDegree
      ensures Valid() && current == old(current)
      ensures found <==> JobOf(cb, g).SomeBelow(current0 + [i])
      ensures !found ==> inDegree[..] == old(inDegree[..])
      ensures JobOf(cb, g).Grew(old(tried), tried, current0 + [i])
      ensures !found ==> JobOf(cb, g).Exhausted(tried, current0 + [i])
      decreases Level(cb), 1, m.size - |current0|, 0
    {
      ghost var degrees := inDegree[..];
      Lower(m, i, inDegree);
      ScheduleNode(g, current0, i, degrees, inDegree[..]);
      var sorting := current0 + [i];
      var visited := visited0[i := true];
      found := AllTopoSortUtil(cb, m, g, sorting, visited, inDegree, false);
      if found { return; }
      Raise(m, i, inDegree);
      assert inDegree[..] == degrees;
    }

    /** Enumerates the sortings that extend `current0`; on failure the in-degrees are as they were. */
    method AllTopoSortUtil(cb: Callback, m: Matrix2D, ghost g: Graph, current0: seq<nat>, visited0: seq<bool>,
                           inDegree: array<int>, found0: bool) returns (found: bool)
      requires Valid() && JobOf(cb, g).Valid() && m.Valid() && g == Graph(m.Edges(), m.size)
      requires inDegree.Length == |visited0| == m.size
      requires forall x: nat :: x < g.n ==> inDegree[x] == |Preds(g.r, Listed(current0), x, g.n)|
      requires forall x: nat :: x < g.n ==> (visited0[x] <==> x in current0)
      requires Schedule(g.r, g.n, current0)
      modifies this, inDegree
      ensures Valid() && current == old(current)
      ensures found0 ==> found && tried == old(tried)
      ensures !found0 ==> (found <==> JobOf(cb, g).SomeBelow(current0))
      ensures !found ==> inDegree[..] == old(inDegree[..])
      ensures !found0 ==> JobOf(cb, g).Grew(old(tried), tried, current0)
      ensures !found ==> JobOf(cb, g).Exhausted(tried, current0)
      decreases Level(cb), 1, m.size - |current0|, 2
    {
      if found0 { return true; }
      ghost var job := JobOf(cb, g);
      ScheduleShape(g.r, g.n, current0);
      forall k | 0 <= k < |current0| ensures current0[k] < g.n { assert current0[k] in current0; }
      NoDupBound(current0, g.n);
      var scheduled;
      found, scheduled := TryAll(cb, m, g, current0, visited0, inDegree);
      if found { return; }
      SearchedAll(job, old(tried), tried, current0);
      if !scheduled {
        found := Invoke(cb, g, current0);
        job.AtLeaf(current0);
      }
    }

    /** The loop over the nodes that may come next. */
    method TryAll(cb: Callback, m: Matrix2D, ghost g: Graph, current0: seq<nat>, visited0: seq<bool>,
                  inDegree: array<int>) returns (found: bool, scheduled: bool)
      requires Valid() && JobOf(cb, g).Valid() && m.Valid() && g == Graph(m.Edges(), m.size)
      requires inDegree.Length == |visited0| == m.size && |current0| <= m.size
      requires forall x: nat :: x < g.n ==> inDegree[x] == |Preds(g.r, Listed(current0), x, g.n)|
      requires forall x: nat :: x < g.n ==> (visited0[x] <==> x in current0)
      requires Schedule(g.r, g.n, current0)
      modifies this, inDegree
      ensures Valid() && current == old(current)
      ensures found ==> JobOf(cb, g).SomeBelow(current0) && JobOf(cb, g).Grew(old(tried), tried, current0)
      ensures !found ==> Enumerated(JobOf(cb, g), old(tried), tried, current0, g.n, scheduled)
      ensures !found ==> inDegree[..] == old(inDegree[..])
      decreases Level(cb), 1, m.size - |current0|, 1
    {
      ghost var job, degrees, log := JobOf(cb, g), inDegree[..], tried;
      scheduled := false;
      for i := 0 to m.size
        invariant Valid() && current == old(current) && inDegree[..] == degrees
        invariant Enumerated(job, log, tried, current0, i, scheduled)
      {
        FreeIsAvailable(g, current0, degrees, i);
        EnumeratedSkip(job, log, tried, current0, i, scheduled);
        if inDegree[i] == 0 && !visited0[i] {
          ghost var before := tried;
          AvailableFits(g, current0, i);
          found := TryNode(cb, m, g, current0, visited0, inDegree, i);
          EnumeratedTry(job, log, before, tried, current0, i, scheduled);
          if found {
            job.SomeAbove(current0, i);
            return;
          }
          scheduled := true;
        }
      }
      found := false;
    }

    method AllTopoSort(cb: Callback, m: Matrix2D, ghost g: Graph) returns (found: bool)
      requires Valid() && JobOf(cb, g).Valid() && m.Valid() && g == Graph(m.Edges(), m.size)
      modifies this
      ensures Valid() && current == old(current)
      ensures found <==> JobOf(cb, g).SomeBelow([])
      ensures JobOf(cb, g).Grew(old(tried), tried, [])
      ensures !found ==> JobOf(cb, g).Exhausted(tried, [])
      decreases Level(cb), 2, 0
    {
      var visited := seq(m.size, _ => false);
      var inDegree := m.GetInDegrees();
      assert Listed([]) == {};
      found := AllTopoSortUtil(cb, m, g, [], visited, inDegree, false);
    }

    /** Extends the sortings chosen so far by one for each matrix from `index` on. */
    method CombineAllTopoSortUtil(index: nat) returns (found: bool)
      requires Valid() && index <= |toCombine| && |current| == index
      requires forall i :: 0 <= i < index ==> Complete(gs[i].r, gs[i].n, current[i])
      modifies this
      ensures Valid() && current == old(current)
      ensures found <==> Accepts(gs, index, current, prop)
      ensures old(tried) <= tried && NoDup(tried[|old(tried)|..])
      ensures forall k :: |old(tried)| <= k < |tried| ==> Combination(gs, tried[k]) && current <= tried[k]
      ensures !found ==> forall t :: Combination(gs, t) && current <= t ==> t in tried
      decreases |toCombine| - index, 3, 0
    {
      if index == |toCombine| {
        tried := tried + [current];
        found := prop(current);
        assert tried[|tried| - 1] == current;
        forall t | Combination(gs, t) && current <= t ensures t in tried { assert t == current; }
      } else {
        found := AllTopoSort(Nested(index), toCombine[index], gs[index]);
        ghost var job := JobOf(Nested(index), gs[index]);
        forall t | Combination(gs, t) && current <= t && !found ensures t in tried { assert job.Under(t, []); }
      }
    }
  }

  /** Looks for a topological sorting that satisfies prop. A search that fails has tried each sorting once. */
  method AllTopoSort(m: Matrix2D, prop: seq<nat> -> bool) returns (found: bool, ghost tried: seq<seq<seq<nat>>>)
    requires m.Valid()
    ensures found <==> exists s :: Complete(m.Edges(), m.size, s) && prop(s)
    ensures Acyclic(m.Edges()) ==> (found <==> exists s :: LinearExtension(m.Edges(), m.size, s) && prop(s))
    ensures NoDup(tried)
    ensures forall k :: 0 <= k < |tried| ==> |tried[k]| == 1 && Complete(m.Edges(), m.size, tried[k][0])
    ensures !found ==> forall s :: Complete(m.Edges(), m.size, s) ==> [s] in tried
  {
    var search := new Search([], _ => false, []);
    ghost var g := Graph(m.Edges(), m.size);
    ghost var job := search.JobOf(Plain(prop), g);
    found := search.AllTopoSort(Plain(prop), m, g);
    tried := search.tried;
    assert tried[0..] == tried;
    forall k | 0 <= k < |tried| ensures |tried[k]| == 1 && Complete(g.r, g.n, tried[k][0]) {
      assert job.Under(tried[k], []);
    }
    forall s | Complete(g.r, g.n, s) && !found ensures [s] in tried { assert job.Under([s], []); }
    assert forall s :: Complete(g.r, g.n, s) && prop(s) ==> job.Holds(s) && [] <= s;
    if Acyclic(g.r) {
      forall s
        ensures Complete(g.r, g.n, s) <==> LinearExtension(g.r, g.n, s)
      {
        CompleteIsLinearExtension(g.r, g.n, s);
      }
    }
  }

  /** One linear extension for each of the graphs. */
  ghost predicate Extensions(gs: seq<Graph>, t: seq<seq<nat>>) {
    |t| == |gs| && forall i :: 0 <= i < |t| ==> LinearExtension(gs[i].r, gs[i].n, t[i])
  }

  lemma CombinationIsExtensions(gs: seq<Graph>, t: seq<seq<nat>>)
    requires forall i :: 0 <= i < |gs| ==> Within(gs[i].r, gs[i].n) && Acyclic(gs[i].r)
    ensures Combination(gs, t) <==> Extensions(gs, t)
  {
    if |t| == |gs| {
      forall i | 0 <= i < |t| ensures Complete(gs[i].r, gs[i].n, t[i]) <==> LinearExtension(gs[i].r, gs[i].n, t[i]) {
        CompleteIsLinearExtension(gs[i].r, gs[i].n, t[i]);
      }
    }
  }

  /** Looks for a combination of topological sortings, one per matrix, that satisfies prop. */
  method CombineAllTopoSort(toCombine: seq<Matrix2D>, prop: seq<seq<nat>> -> bool, ghost gs: seq<Graph>)
    returns (found: bool, ghost tried: seq<seq<seq<nat>>>)
    requires |gs| == |toCombine|
    requires forall i :: 0 <= i < |gs| ==>
      toCombine[i].Valid() && gs[i] == Graph(toCombine[i].Edges(), toCombine[i].size)
    ensures found <==> exists t :: Combination(gs, t) && prop(t)
    ensures (forall i :: 0 <= i < |gs| ==> Acyclic(gs[i].r)) ==> (found <==> exists t :: Extensions(gs, t) && prop(t))
    ensures NoDup(tried) && forall k :: 0 <= k < |tried| ==> Combination(gs, tried[k])
    ensures !found ==> forall t :: Combination(gs, t) ==> t in tried
  {
    var search := new Search(toCombine, prop, gs);
    found := search.CombineAllTopoSortUtil(0);
    tried := search.tried;
    assert tried[0..] == tried;
    if found {
      var t := AcceptsGivesTuple(gs, [], prop);
    } else {
      forall t | Combination(gs, t) ensures !prop(t) {
        if prop(t) { TupleGivesAccepts(gs, 0, t, prop); }
      }
      forall t | Combination(gs, t) ensures t in tried { assert [] <= t; }
    }
    if forall i :: 0 <= i < |gs| ==> Acyclic(gs[i].r) {
      forall t ensures Combination(gs, t) <==> Extensions(gs, t) { CombinationIsExtensions(gs, t); }
    }
  }
}
