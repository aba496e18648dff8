/** Adjacency-list graphs (genmc/genmc/ADT/AdjList.hpp): closure and sorting by depth-first search. Nodes are their
    numbers. */
module AdjLists {
  import opened Options
  import opened Relation

  datatype Status = Unseen | Entered | Left

  /** What the search does on its way: the callbacks of topoSort and of transClosure. */
  datatype Visitor = Sorting | Closing

  type Succ = seq<seq<nat>>

  function Edges(g: Succ): Rel {
    set i, k | 0 <= i < |g| && 0 <= k < |g[i]| :: (i as nat, g[i][k])
  }

  lemma EdgeOf(g: Succ, a: nat, b: nat)
    ensures (a, b) in Edges(g) <==> a < |g| && b in g[a]
  {
    if a < |g| && b in g[a] {
      var k :| 0 <= k < |g[a]| && g[a][k] == b;
      assert (a, b) == (a as nat, g[a][k]);
    }
  }

  /** Successors are nodes. */
  predicate Closed(g: Succ) {
    forall i, j :: 0 <= i < |g| && j in g[i] ==> j < |g|
  }

  /** Nobody is listed twice. */
  ghost predicate NoRepeats(g: Succ) {
    forall i :: 0 <= i < |g| ==> NoDup(g[i])
  }

  // ---- Closure rows.

  type Rows = seq<set<nat>>

  /** A row holds the node's successors, and only nodes it reaches. */
  ghost predicate RowOk(g: Succ, x: nat, row: set<nat>)
    requires x < |g|
  {
    (forall j :: j in g[x] ==> j in row) && forall z :: z in row ==> z < |g| && Reach(Edges(g), x, z)
  }

  ghost predicate RowsOk(g: Succ, rows: Rows) {
    |rows| == |g| && forall x :: 0 <= x < |g| ==> RowOk(g, x, rows[x])
  }

  /** The rows decide reachability, unless there is a cycle; then some row says so. */
  ghost predicate Decides(g: Succ, rows: Rows) {
    && |rows| == |g|
    && (Acyclic(Edges(g)) ==> forall a: nat, b: nat :: a < |g| ==> (b in rows[a] <==> Reach(Edges(g), a, b)))
    && (Acyclic(Edges(g)) <==> forall x :: 0 <= x < |g| ==> x !in rows[x])
  }

  // ---- The state of a search.

  /** `left` lists the nodes in the order in which the search left them; `back` says that it met a back edge. */
  datatype Dfs = Dfs(status: seq<Status>, rows: Rows, left: seq<nat>, back: bool)

  function UnseenNodes(s: seq<Status>): set<nat> {
    set x: nat | x < |s| && s[x].Unseen?
  }

  /** Successors are listed earlier. */
  ghost predicate Ordered(g: Succ, left: seq<nat>) {
    forall p, j :: 0 <= p < |left| && left[p] < |g| && j in g[left[p]] ==> j in left[..p]
  }

  ghost predicate RowsGrown(g: Succ, s: Dfs)
    requires |s.rows| == |g|
  {
    forall x, j :: x in s.left && x < |g| && j in g[x] && j < |g| ==> s.rows[j] <= s.rows[x]
  }

  ghost predicate SearchOk(g: Succ, v: Visitor, s: Dfs) {
    && Closed(g) && |s.status| == |g| && RowsOk(g, s.rows)
    && NoDup(s.left) && (forall x: nat :: x in s.left <==> x < |g| && s.status[x] == Left)
    && (if s.back then !Acyclic(Edges(g)) else Ordered(g, s.left))
    && (v.Sorting? ==> !s.back) && (v.Closing? && !s.back ==> RowsGrown(g, s))
  }

  /** A node the search has left knows that it is on a cycle. */
  ghost predicate LoopKnown(s: Dfs) {
    exists x :: x in s.left && x < |s.rows| && x in s.rows[x]
  }

  /** From `was` to `now`, unseen nodes may have been visited and left, everything else is as it was. */
  ghost predicate Visited(g: Succ, was: Dfs, now: Dfs) {
    && |was.status| == |now.status| == |was.rows| == |now.rows| == |g|
    && (forall x :: 0 <= x < |g| ==> now.status[x] == was.status[x] || (was.status[x].Unseen? && now.status[x].Left?))
    && (forall x :: 0 <= x < |g| && !was.status[x].Unseen? ==> now.rows[x] == was.rows[x])
    && |was.left| <= |now.left| && was.left == now.left[..|was.left|]
    && (was.back ==> now.back)
  }

  /** Every cycle met since `was` is known: to a node that was left, or to one of the nodes in js through a row, which
      then names an entered node. */
  ghost predicate CyclesKnown(g: Succ, was: Dfs, now: Dfs, js: seq<nat>) {
    |now.status| == |now.rows| == |g| && (now.back ==> was.back || LoopKnown(now) || EnteredSeen(now, js))
  }

  ghost predicate EnteredSeen(s: Dfs, js: seq<nat>) {
    exists y: nat, j: nat :: j in js && y < |s.status| && s.status[y].Entered? && j < |s.rows| &&
      (y == j || y in s.rows[j])
  }

  /** The nodes in js have been visited; without back edges, they have been left. */
  ghost predicate Met(s: Dfs, js: seq<nat>) {
    forall x :: x in js ==> x < |s.status| && !s.status[x].Unseen? && (!s.back ==> x in s.left)
  }

  function Entering(s: Dfs, i: nat): Dfs
    requires i < |s.status|
  {
    s.(status := s.status[i := Entered])
  }

  lemma EnterNode(g: Succ, v: Visitor, s: Dfs, i: nat)
    requires SearchOk(g, v, s) && i < |g| && s.status[i].Unseen?
    ensures SearchOk(g, v, Entering(s, i))
  {
  }

  /** An edge into an entered node closes a cycle. */
  lemma BackEdge(g: Succ, i: nat, j: nat)
    requires i < |g| && j in g[i] && (j == i || Reach(Edges(g), j, i))
    ensures !Acyclic(Edges(g))
  {
    EdgeOf(g, i, j);
    EdgeReaches(Edges(g), i, j);
    if j != i { ReachTransitive(Edges(g), i, j, i); }
  }

  lemma VisitedTransitive(g: Succ, a: Dfs, b: Dfs, c: Dfs)
    requires Visited(g, a, b) && Visited(g, b, c)
    ensures Visited(g, a, c)
  {
    assert a.left == b.left[..|a.left|] == c.left[..|b.left|][..|a.left|] == c.left[..|a.left|];
  }

  lemma UnseenShrinks(g: Succ, was: Dfs, now: Dfs, i: nat)
    requires i < |g| && |was.status| == |was.rows| == |g| && was.status[i].Unseen? && Visited(g, Entering(was, i), now)
    ensures UnseenNodes(now.status) < UnseenNodes(was.status)
  {
    assert i in UnseenNodes(was.status) && i !in UnseenNodes(now.status);
  }

  lemma MetMore(g: Succ, v: Visitor, s: Dfs, now: Dfs, js: seq<nat>, j: nat)
    requires SearchOk(g, v, s) && SearchOk(g, v, now) && Visited(g, s, now) && Met(s, js)
    requires j < |g| && !now.status[j].Unseen? && (!now.back ==> now.status[j].Left?)
    ensures Met(now, js + [j])
  {
    forall x | x in js + [j] ensures x < |g| && !now.status[x].Unseen? && (!now.back ==> x in now.left) {
      assert x == j || x in js;
    }
  }

  lemma LoopStaysKnown(g: Succ, v: Visitor, s: Dfs, now: Dfs)
    requires SearchOk(g, v, s) && SearchOk(g, v, now) && Visited(g, s, now) && LoopKnown(s)
    ensures LoopKnown(now)
  {
    var x :| x in s.left && x < |s.rows| && x in s.rows[x];
    assert x in now.left;
  }

  lemma EnteredStaysSeen(g: Succ, s: Dfs, now: Dfs, js: seq<nat>, ks: seq<nat>)
    requires Visited(g, s, now) && EnteredSeen(s, js)
    requires forall x :: x in js ==> x in ks && x < |g| && !s.status[x].Unseen?
    ensures EnteredSeen(now, ks)
  {
    var y: nat, x: nat :| x in js && y < |s.status| && s.status[y].Entered? && x < |s.rows| &&
      (y == x || y in s.rows[x]);
    assert now.status[y].Entered? && now.rows[x] == s.rows[x];
  }

  lemma VisitedNothing(g: Succ, s: Dfs)
    requires |s.status| == |s.rows| == |g|
    ensures Visited(g, s, s)
  {
  }

  /** What holds while the successors of a node are looked at: those in js have been. */
  ghost predicate Exploring(g: Succ, v: Visitor, entered: Dfs, s: Dfs, js: seq<nat>) {
    SearchOk(g, v, s) && Visited(g, entered, s) && Met(s, js) && CyclesKnown(g, entered, s, js)
  }

  /** Another successor has been visited. */
  lemma ExploreChild(g: Succ, v: Visitor, entered: Dfs, s: Dfs, now: Dfs, js: seq<nat>, j: nat)
    requires Exploring(g, v, entered, s, js) && SearchOk(g, v, now) && Visited(g, s, now)
    requires j < |g| && now.status[j].Left? && CyclesKnown(g, s, now, [j])
    ensures Exploring(g, v, entered, now, js + [j])
  {
    VisitedTransitive(g, entered, s, now);
    MetMore(g, v, s, now, js, j);
    if s.back && !entered.back && LoopKnown(s) { LoopStaysKnown(g, v, s, now); }
    if s.back && !entered.back && EnteredSeen(s, js) { EnteredStaysSeen(g, s, now, js, js + [j]); }
    if EnteredSeen(now, [j]) {
      VisitedNothing(g, now);
      EnteredStaysSeen(g, now, now, [j], js + [j]);
    }
  }

  /** Another successor had been left before. */
  lemma ExploreLeft(g: Succ, v: Visitor, entered: Dfs, s: Dfs, js: seq<nat>, j: nat)
    requires Exploring(g, v, entered, s, js) && j < |g| && s.status[j].Left?
    ensures Exploring(g, v, entered, s, js + [j])
  {
    VisitedNothing(g, s);
    MetMore(g, v, s, s, js, j);
    if EnteredSeen(s, js) { EnteredStaysSeen(g, s, s, js, js + [j]); }
  }

  /** The edge to another successor is a back edge. */
  lemma ExploreBack(g: Succ, v: Visitor, entered: Dfs, s: Dfs, js: seq<nat>, j: nat)
    requires Exploring(g, v, entered, s, js) && j < |g| && s.status[j].Entered? && v.Closing? && !Acyclic(Edges(g))
    ensures Exploring(g, v, entered, s.(back := true), js + [j])
  {
    var now := s.(back := true);
    VisitedNothing(g, s);
    VisitedTransitive(g, entered, s, now);
    MetMore(g, v, s, now, js, j);
    assert j in js + [j] && now.status[j].Entered? && EnteredSeen(now, js + [j]);
  }

  lemma EnteredReach(g: Succ, entered: Dfs, s: Dfs, i: nat, j: nat)
    requires Visited(g, entered, s) && i < |g| && j in g[i]
    requires forall z: nat :: z < |g| && entered.status[z].Entered? ==> z == i || Reach(Edges(g), z, i)
    ensures forall z: nat :: z < |g| && s.status[z].Entered? ==> Reach(Edges(g), z, j)
  {
    EdgeOf(g, i, j);
    EdgeReaches(Edges(g), i, j);
    forall z: nat | z < |g| && s.status[z].Entered? ensures Reach(Edges(g), z, j) {
      if z != i { ReachTransitive(Edges(g), z, i, j); }
    }
  }

  /** The node is left, with the given row. */
  function Leaving(s: Dfs, i: nat, row: set<nat>): Dfs
    requires i < |s.status| && i < |s.rows|
  {
    Dfs(s.status[i := Left], s.rows[i := row], s.left + [i], s.back)
  }

  /** The row takes in the successors and their rows. */
  ghost predicate Absorbs(s: Dfs, row: set<nat>, js: seq<nat>) {
    forall j :: j in js ==> j in row && (j < |s.rows| ==> s.rows[j] <= row)
  }

  lemma LeaveNode(g: Succ, v: Visitor, s: Dfs, i: nat, row: set<nat>)
    requires SearchOk(g, v, s) && i < |g| && s.status[i].Entered? && RowOk(g, i, row)
    requires Met(s, g[i])
    requires v.Closing? ==> Absorbs(s, row, g[i])
    ensures SearchOk(g, v, Leaving(s, i, row))
  {
    var t := Leaving(s, i, row);
    if !s.back {
      forall p, j | 0 <= p < |t.left| && t.left[p] < |g| && j in g[t.left[p]] ensures j in t.left[..p] {
        if p < |s.left| { assert t.left[..p] == s.left[..p]; } else { assert t.left[..p] == s.left; }
      }
      if v.Closing? { LeaveGrown(g, s, i, row); }
    }
  }

  lemma LeaveGrown(g: Succ, s: Dfs, i: nat, row: set<nat>)
    requires |s.status| == |s.rows| == |g| && RowsGrown(g, s) && Ordered(g, s.left) && i < |g| && i !in s.left
    requires Absorbs(s, row, g[i]) && forall j :: j in g[i] ==> j in s.left
    ensures RowsGrown(g, Leaving(s, i, row))
  {
    var t := Leaving(s, i, row);
    forall x, j | x in t.left && x < |g| && j in g[x] && j < |g| ensures t.rows[j] <= t.rows[x] {
      if x != i {
        var p :| 0 <= p < |s.left| && s.left[p] == x;
        assert j in s.left[..p];
        assert j != i;
      }
    }
  }

  lemma LeaveKnown(g: Succ, was: Dfs, s: Dfs, i: nat, row: set<nat>)
    requires i < |g| && i < |was.status| && CyclesKnown(g, Entering(was, i), s, g[i]) && s.status[i].Entered?
    requires i !in s.left && Absorbs(s, row, g[i])
    ensures CyclesKnown(g, was, Leaving(s, i, row), [i])
  {
    var t := Leaving(s, i, row);
    if LoopKnown(s) {
      var x :| x in s.left && x < |s.rows| && x in s.rows[x];
      assert x in t.left && x in t.rows[x];
    }
    if EnteredSeen(s, g[i]) {
      var y: nat, j: nat :| j in g[i] && y < |s.status| && s.status[y].Entered? && j < |s.rows| &&
        (y == j || y in s.rows[j]);
      assert y in row;
      assert t.rows[i] == row && i in t.left && i in [i];
      assert y != i ==> t.status[y].Entered?;
    }
  }

  /** The end of the visit of a node. */
  lemma Explored(g: Succ, v: Visitor, was: Dfs, s: Dfs, i: nat, row: set<nat>)
    requires |was.status| == |was.rows| == |g| && i < |g| && was.status[i].Unseen?
    requires Exploring(g, v, Entering(was, i), s, g[i]) && RowOk(g, i, row)
    requires if v.Closing? then Absorbs(s, row, g[i]) else row == s.rows[i]
    ensures var t := Leaving(s, i, row); SearchOk(g, v, t) && Visited(g, was, t) && CyclesKnown(g, was, t, [i])
  {
    LeaveNode(g, v, s, i, row);
    var t := Leaving(s, i, row);
    assert was.left == s.left[..|was.left|] == t.left[..|was.left|];
    if v.Closing? { LeaveKnown(g, was, s, i, row); }
  }

  /** Taking in the row of a successor. */
  lemma AbsorbRow(g: Succ, rows: Rows, i: nat, row: set<nat>, j: nat)
    requires RowsOk(g, rows) && Closed(g) && i < |g| && j in g[i] && RowOk(g, i, row)
    ensures RowOk(g, i, row + rows[j] + {j})
  {
    EdgeOf(g, i, j);
    EdgeReaches(Edges(g), i, j);
    forall z | z in rows[j] ensures z < |g| && Reach(Edges(g), i, z) {
      assert RowOk(g, j, rows[j]);
      ReachTransitive(Edges(g), i, j, z);
    }
  }

  // ---- Searches that are over.

  ghost predicate AllLeft(g: Succ, s: Dfs) {
    |s.status| == |g| && forall x :: 0 <= x < |g| ==> s.status[x].Left?
  }

  /** Without a back edge, the reverse of the exit order is a topological sorting. */
  lemma ReverseSorts(g: Succ, left: seq<nat>, order: seq<nat>)
    requires Closed(g) && NoDup(left) && Ordered(g, left) && forall x: nat :: x in left <==> x < |g|
    requires |order| == |left| && forall p :: 0 <= p < |left| ==> order[p] == left[|left| - 1 - p]
    ensures LinearExtension(Edges(g), |g|, order) && Acyclic(Edges(g))
  {
    var n := |left|;
    forall x: nat ensures x in order <==> x < |g| {
      if x in left {
        var p :| 0 <= p < n && left[p] == x;
        assert order[n - 1 - p] == x;
      }
      if x in order {
        var p :| 0 <= p < n && order[p] == x;
        assert left[n - 1 - p] in left;
      }
    }
    forall p, q | 0 <= p < n && 0 <= q < n && (order[p], order[q]) in Edges(g) ensures p < q {
      EdgeOf(g, order[p], order[q]);
      assert left[n - 1 - p] in left;
      assert left[n - 1 - q] in left[..n - 1 - p];
      var k :| 0 <= k < n - 1 - p && left[k] == left[n - 1 - q];
      assert k == n - 1 - q;
    }
    forall a: nat, b: nat | (a, b) in Edges(g) ensures a < |g| && b < |g| { EdgeOf(g, a, b); }
    SortedIsAcyclic(Edges(g), |g|, order);
  }

  function Reverse(s: seq<nat>): (r: seq<nat>)
    ensures |r| == |s| && forall p :: 0 <= p < |s| ==> r[p] == s[|s| - 1 - p]
  {
    seq(|s|, p requires 0 <= p < |s| => s[|s| - 1 - p])
  }

  /** A complete search without a back edge leaves exactly the reachable nodes in the rows. */
  lemma {:induction false} RowsReach(g: Succ, s: Dfs, steps: nat, a: nat, b: nat)
    requires SearchOk(g, Closing, s) && AllLeft(g, s) && !s.back && Chain(Edges(g), steps, a, b)
    ensures a < |g| && b in s.rows[a]
  {
    if steps == 0 {
      EdgeOf(g, a, b);
      assert RowOk(g, a, s.rows[a]);
    } else {
      var c: nat :| (a, c) in Edges(g) && Chain(Edges(g), steps - 1, c, b);
      EdgeOf(g, a, c);
      RowsReach(g, s, steps - 1, c, b);
      assert a in s.left;
    }
  }

  /** A complete search decides reachability, or knows a node on a cycle. */
  lemma SearchDecides(g: Succ, s: Dfs)
    requires SearchOk(g, Closing, s) && AllLeft(g, s) && (s.back ==> LoopKnown(s))
    ensures Decides(g, s.rows)
  {
    forall x | 0 <= x < |g| && x in s.rows[x] ensures Reach(Edges(g), x, x) { assert RowOk(g, x, s.rows[x]); }
    if !s.back {
      ReverseSorts(g, s.left, Reverse(s.left));
      forall a: nat, b: nat | a < |g| ensures b in s.rows[a] <==> Reach(Edges(g), a, b) {
        assert RowOk(g, a, s.rows[a]);
        if Reach(Edges(g), a, b) {
          var steps: nat :| Chain(Edges(g), steps, a, b);
          RowsReach(g, s, steps, a, b);
        }
      }
    }
  }

  // ---- Graphs as objects.

  /** The number of nodes with an edge to b. */
  function Sources(g: Succ, b: nat): set<nat> {
    set a: nat | a < |g| && b in g[a]
  }

  /** Whatever was asked to be added, reachability is that of the successor lists. */
  ghost predicate Covers(g: Succ, added: Rel) {
    Edges(g) <= added && forall a: nat, b: nat :: (a, b) in added ==> Reach(Edges(g), a, b)
  }

  lemma AcyclicSame(g: Succ, added: Rel)
    requires Covers(g, added)
    ensures Acyclic(Edges(g)) <==> Acyclic(added)
    ensures forall a: nat, b: nat :: Reach(Edges(g), a, b) <==> Reach(added, a, b)
  {
    ReachSame(Edges(g), added);
  }

  /** A sorting along the successor lists sorts along implied edges, too. */
  lemma SortsAdded(g: Succ, added: Rel, order: seq<nat>)
    requires Covers(g, added) && Closed(g) && LinearExtension(Edges(g), |g|, order)
    ensures LinearExtension(added, |g|, order)
  {
    forall x: nat, y: nat | (x, y) in Edges(g) ensures x in order { EdgeOf(g, x, y); }
    forall i, j | 0 <= i < |order| && 0 <= j < |order| && (order[i], order[j]) in added ensures i < j {
      var steps: nat :| Chain(Edges(g), steps, order[i], order[j]);
      ForwardChain(Edges(g), order, steps, order[i], j);
    }
  }

  /** An edge the rows know is implied already. */
  lemma EdgeImplied(g: Succ, rows: Rows, added: Rel, a: nat, b: nat)
    requires RowsOk(g, rows) && Covers(g, added) && a < |g| && b in rows[a]
    ensures Covers(g, added + {(a, b)})
  {
    assert RowOk(g, a, rows[a]);
  }

  /** A new edge. */
  lemma EdgeAdded(g: Succ, rows: Rows, added: Rel, a: nat, b: nat)
    requires Closed(g) && RowsOk(g, rows) && Covers(g, added) && a < |g| && b < |g| && b !in rows[a]
    ensures var h := g[a := g[a] + [b]];
      Closed(h) && RowsOk(h, rows[a := rows[a] + {b}]) && Covers(h, added + {(a, b)})
  {
    var h, q := g[a := g[a] + [b]], rows[a := rows[a] + {b}];
    forall x: nat, y: nat ensures (x, y) in Edges(h) <==> (x, y) in Edges(g) || (x == a && y == b) {
      EdgeOf(g, x, y);
      EdgeOf(h, x, y);
    }
    EdgeReaches(Edges(h), a, b);
    forall x: nat, y: nat | Reach(Edges(g), x, y) ensures Reach(Edges(h), x, y) {
      forall c: nat, d: nat | (c, d) in Edges(g) ensures Reach(Edges(h), c, d) { EdgeReaches(Edges(h), c, d); }
      var steps: nat :| Chain(Edges(g), steps, x, y);
      ChainMonotone(Edges(g), Edges(h), steps, x, y);
    }
    forall x | 0 <= x < |h| ensures RowOk(h, x, q[x]) { assert RowOk(g, x, rows[x]); }
  }

  lemma SourcesGrow(g: Succ, a: nat, b: nat, x: nat)
    requires a < |g| && b !in g[a]
    ensures |Sources(g[a := g[a] + [b]], x)| == |Sources(g, x)| + if x == b then 1 else 0
  {
    var h := g[a := g[a] + [b]];
    var was, now := if x == b then Sources(g, x) + {a} else Sources(g, x), Sources(h, x);
    forall y | y in was ensures y in now { }
    forall y | y in now ensures y in was { }
    assert was - now == {} && now - was == {};
    assert now == was;
    assert a !in Sources(g, b);
  }

  class AdjList {
    var nodeSucc: seq<seq<nat>>
    var inDegree: seq<nat>
    var calculatedTransC: bool
    var transC: seq<set<nat>>
    ghost var added: Rel        // every edge passed to AddEdge

    // The variables of the running search.
    var status: seq<Status>
    var left: seq<nat>
    ghost var back: bool

    ghost predicate Valid()
      reads this
    {
      && Closed(nodeSucc) && NoRepeats(nodeSucc) && RowsOk(nodeSucc, transC) && Covers(nodeSucc, added)
      && |inDegree| == |nodeSucc| && (forall b :: 0 <= b < |nodeSucc| ==> inDegree[b] == |Sources(nodeSucc, b)|)
      && (calculatedTransC ==> Decides(nodeSucc, transC))
    }

    ghost function State(): Dfs
      reads this
    {
      Dfs(status, transC, left, back)
    }

    constructor (size: nat)
      ensures Valid() && |nodeSucc| == size && added == {}
    {
      nodeSucc, inDegree, transC := seq(size, _ => []), seq(size, _ => 0), seq(size, _ => {});
      calculatedTransC, added := false, {};
      status, left, back := [], [], false;
      new;
      forall a: nat, b: nat ensures (a, b) !in Edges(nodeSucc) { EdgeOf(nodeSucc, a, b); }
    }

    method AddEdge(a: nat, b: nat)
      requires Valid() && a < |nodeSucc| && b < |nodeSucc|
      modifies this
      ensures Valid() && |nodeSucc| == |old(nodeSucc)| && added == old(added) + {(a, b)}
      ensures forall x :: 0 <= x < |nodeSucc| ==>
        nodeSucc[x] == if x == a && b !in old(transC)[a] then old(nodeSucc)[x] + [b] else old(nodeSucc)[x]
    {
      added := added + {(a, b)};
      if b in transC[a] {
        EdgeImplied(nodeSucc, transC, old(added), a, b);
        return;
      }
      EdgeAdded(nodeSucc, transC, old(added), a, b);
      assert RowOk(nodeSucc, a, transC[a]);
      forall x | 0 <= x < |nodeSucc|
        ensures |Sources(nodeSucc[a := nodeSucc[a] + [b]], x)| == |Sources(nodeSucc, x)| + if x == b then 1 else 0
      {
        SourcesGrow(nodeSucc, a, b, x);
      }
      nodeSucc := nodeSucc[a := nodeSucc[a] + [b]];
      transC := transC[a := transC[a] + {b}];
      inDegree := inDegree[b := inDegree[b] + 1];
      calculatedTransC := false;
    }

    /** What transClosure does when the search leaves a node. */
    method AbsorbSuccessors(i: nat)
      requires Closed(nodeSucc) && RowsOk(nodeSucc, transC) && i < |nodeSucc|
      modifies this`transC
      ensures |transC| == |old(transC)| && transC == old(transC)[i := transC[i]]
      ensures RowOk(nodeSucc, i, transC[i]) && Absorbs(old(State()), transC[i], nodeSucc[i])
    {
      ghost var rows := transC;
      for k := 0 to |nodeSucc[i]|
        invariant |transC| == |rows| && transC == rows[i := transC[i]]
        invariant RowOk(nodeSucc, i, transC[i]) && rows[i] <= transC[i]
        invariant forall m :: 0 <= m < k ==> nodeSucc[i][m] in transC[i] && rows[nodeSucc[i][m]] <= transC[i]
      {
        var j := nodeSucc[i][k];
        AbsorbRow(nodeSucc, rows, i, transC[i], j);
        assert transC[i] + transC[j] + {j} == transC[i] + rows[j] + {j};
        transC := transC[i := transC[i] + transC[j]];
        transC := transC[i := transC[i] + {j}];
      }
    }

    /** The end of dfsUtil. */
    method Leave(i: nat, v: Visitor)
      requires Closed(nodeSucc) && RowsOk(nodeSucc, transC) && i < |nodeSucc| && i < |status|
      modifies this`status, this`left, this`transC
      ensures |transC| == |old(transC)| && State() == Leaving(old(State()), i, transC[i]) &&
        RowOk(nodeSucc, i, transC[i])
      ensures if v.Closing? then Absorbs(old(State()), transC[i], nodeSucc[i]) else transC == old(transC)
    {
      status := status[i := Left];
      left := left + [i];
      assert RowOk(nodeSucc, i, transC[i]);
      if v.Closing? { AbsorbSuccessors(i); }
    }

    /** dfsUtil; false if the search met a back edge it does not allow for. */
    method DfsUtil(i: nat, v: Visitor) returns (ok: bool)
      requires SearchOk(nodeSucc, v, State()) && i < |nodeSucc| && status[i].Unseen?
      requires forall z: nat :: z < |status| && status[z].Entered? ==> Reach(Edges(nodeSucc), z, i)
      modifies this`status, this`transC, this`left, this`back
      ensures ok ==> SearchOk(nodeSucc, v, State()) && Visited(nodeSucc, old(State()), State()) && status[i].Left?
      ensures ok ==> CyclesKnown(nodeSucc, old(State()), State(), [i])
      ensures !ok ==> v.Sorting? && !Acyclic(Edges(nodeSucc))
      ensures v.Sorting? ==> transC == old(transC)
      decreases UnseenNodes(status)
    {
      ghost var was := State();
      EnterNode(nodeSucc, v, State(), i);
      status := status[i := Entered];
      ghost var entered := State();
      VisitedNothing(nodeSucc, entered);
      for k := 0 to |nodeSucc[i]|
        invariant Exploring(nodeSucc, v, entered, State(), nodeSucc[i][..k])
        invariant v.Sorting? ==> transC == old(transC)
      {
        var j := nodeSucc[i][k];
        ghost var s, js := State(), nodeSucc[i][..k];
        assert j in nodeSucc[i] && nodeSucc[i][..k + 1] == js + [j];
        if status[j].Unseen? {
          UnseenShrinks(nodeSucc, was, State(), i);
          EnteredReach(nodeSucc, entered, State(), i, j);
          var fine := DfsUtil(j, v);
          if !fine { return false; }
          ExploreChild(nodeSucc, v, entered, s, State(), js, j);
        } else if status[j].Entered? {
          BackEdge(nodeSucc, i, j);
          if v.Sorting? { return false; }
          ExploreBack(nodeSucc, v, entered, State(), js, j);
          back := true;
        } else {
          ExploreLeft(nodeSucc, v, entered, State(), js, j);
        }
      }
      assert nodeSucc[i][..|nodeSucc[i]|] == nodeSucc[i];
      ghost var s := State();
      Leave(i, v);
      Explored(nodeSucc, v, was, s, i, transC[i]);
      ok := true;
    }

    /** dfs. */
    method SearchAll(v: Visitor) returns (ok: bool)
      requires Valid()
      modifies this`status, this`transC, this`left, this`back
      ensures ok ==> SearchOk(nodeSucc, v, State()) && AllLeft(nodeSucc, State())
      ensures ok ==> (back ==> LoopKnown(State()))
      ensures !ok ==> v.Sorting? && !Acyclic(Edges(nodeSucc))
      ensures v.Sorting? ==> transC == old(transC)
    {
      status, left, back := seq(|nodeSucc|, _ => Status.Unseen), [], false;
      for i := 0 to |nodeSucc|
        invariant SearchOk(nodeSucc, v, State())
        invariant forall x :: 0 <= x < |nodeSucc| ==> !status[x].Entered? && (x < i ==> status[x].Left?)
        invariant back ==> LoopKnown(State())
        invariant v.Sorting? ==> transC == old(transC)
      {
        ghost var s := State();
        if status[i].Unseen? {
          var fine := DfsUtil(i, v);
          if !fine { return false; }
          if back && s.back { LoopStaysKnown(nodeSucc, v, s, State()); }
        }
      }
      ok := true;
    }

    /** transClosure: afterwards the rows decide reachability along the edges added, or show that there is a cycle. */
    method TransClosure()
      requires Valid()
      modifies this`status, this`transC, this`left, this`back, this`calculatedTransC
      ensures Valid() && calculatedTransC
      ensures Acyclic(added) ==> forall a: nat, b: nat :: a < |nodeSucc| ==> (b in transC[a] <==> Reach(added, a, b))
      ensures Acyclic(added) <==> forall x :: 0 <= x < |nodeSucc| ==> x !in transC[x]
    {
      AcyclicSame(nodeSucc, added);
      if calculatedTransC { return; }
      var ok := SearchAll(Closing);
      SearchDecides(nodeSucc, State());
      calculatedTransC := true;
    }

    /** isIrreflexive. */
    method IsIrreflexive() returns (yes: bool)
      requires Valid()
      ensures yes <==> forall x :: 0 <= x < |nodeSucc| ==> x !in transC[x]
      ensures calculatedTransC ==> (yes <==> Acyclic(added))
    {
      AcyclicSame(nodeSucc, added);
      for i := 0 to |nodeSucc|
        invariant forall x :: 0 <= x < i ==> x !in transC[x]
      {
        if i in transC[i] { return false; }
      }
      yes := true;
    }

    /** topoSort: fails exactly on cyclic graphs; otherwise the result lists every node once, edges pointing forward. */
    method TopoSort() returns (sorted: Option<seq<nat>>)
      requires Valid()
      modifies this`status, this`transC, this`left, this`back
      ensures Valid() && transC == old(transC)
      ensures sorted.Some? <==> Acyclic(added)
      ensures sorted.Some? ==> LinearExtension(added, |nodeSucc|, sorted.value)
    {
      AcyclicSame(nodeSucc, added);
      var ok := SearchAll(Sorting);
      if !ok { return None; }
      var order := Reverse(left);
      ReverseSorts(nodeSucc, left, order);
      SortsAdded(nodeSucc, added, order);
      sorted := Some(order);
    }
  }
}
