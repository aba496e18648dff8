/** The adjacency matrix of genmc/genmc/ADT/Matrix2D.hpp, for elements that are their own index: the two-pass
    transitive closure, the incremental closure, in-degrees and the stack-based topological sort. */
module Matrix {
  import opened Relation

  /** The nodes below k with an edge to x that are not in `done`. */
  ghost function Preds(r: Rel, done: set<nat>, x: nat, k: nat): set<nat> {
    set j: nat | j < k && (j, x) in r && j !in done
  }

  ghost function Listed(order: seq<nat>): set<nat> {
    set x | x in order
  }

  /** There is a path from i to j all of whose inner nodes are below m. */
  ghost predicate Via(r: Rel, m: nat, i: nat, j: nat) {
    if m == 0 then (i, j) in r
    else Via(r, m - 1, i, j) || (Via(r, m - 1, i, m - 1) && Via(r, m - 1, m - 1, j))
  }

  lemma {:induction false} ViaReaches(r: Rel, m: nat, i: nat, j: nat)
    requires Via(r, m, i, j)
    ensures Reach(r, i, j)
  {
    if m == 0 {
      EdgeReaches(r, i, j);
    } else if Via(r, m - 1, i, j) {
      ViaReaches(r, m - 1, i, j);
    } else {
      ViaReaches(r, m - 1, i, m - 1);
      ViaReaches(r, m - 1, m - 1, j);
      ReachTransitive(r, i, m - 1, j);
    }
  }

  lemma {:induction false} EdgeIsVia(r: Rel, m: nat, i: nat, j: nat)
    requires (i, j) in r
    ensures Via(r, m, i, j)
  {
    if m > 0 { EdgeIsVia(r, m - 1, i, j); }
  }

  lemma {:induction false} ViaThrough(r: Rel, m: nat, i: nat, k: nat, j: nat)
    requires k < m && Via(r, m, i, k) && Via(r, m, k, j)
    ensures Via(r, m, i, j)
  {
    if k < m - 1 {
      if Via(r, m - 1, i, k) && Via(r, m - 1, k, j) { ViaThrough(r, m - 1, i, k, j); }
      if Via(r, m - 1, i, k) && Via(r, m - 1, k, m - 1) { ViaThrough(r, m - 1, i, k, m - 1); }
      if Via(r, m - 1, m - 1, k) && Via(r, m - 1, k, j) { ViaThrough(r, m - 1, m - 1, k, j); }
    }
  }

  /** Below n, paths through arbitrary nodes are exactly reachability. */
  lemma {:induction false} ReachIsVia(r: Rel, n: nat, steps: nat, i: nat, j: nat)
    requires Within(r, n) && Chain(r, steps, i, j)
    ensures Via(r, n, i, j)
  {
    if steps == 0 {
      EdgeIsVia(r, n, i, j);
    } else {
      var c: nat :| (i, c) in r && Chain(r, steps - 1, c, j);
      EdgeIsVia(r, n, i, c);
      ReachIsVia(r, n, steps - 1, c, j);
      ViaThrough(r, n, i, c, j);
    }
  }

  lemma PredsStep(r: Rel, done: set<nat>, x: nat, k: nat)
    ensures |Preds(r, done, x, k + 1)| == |Preds(r, done, x, k)| + if (k, x) in r && k !in done then 1 else 0
  {
    if (k, x) in r && k !in done {
      assert Preds(r, done, x, k + 1) == Preds(r, done, x, k) + {k};
    } else {
      assert Preds(r, done, x, k + 1) == Preds(r, done, x, k);
    }
  }

  /** Finishing node y lowers the number of open predecessors of exactly its successors, each by one. */
  lemma PredsDone(r: Rel, done: set<nat>, y: nat, x: nat, n: nat)
    requires y < n && y !in done
    ensures |Preds(r, done, x, n)| == |Preds(r, done + {y}, x, n)| + if (y, x) in r then 1 else 0
  {
    if (y, x) in r {
      assert Preds(r, done, x, n) == Preds(r, done + {y}, x, n) + {y};
    } else {
      assert Preds(r, done, x, n) == Preds(r, done + {y}, x, n);
    }
  }

  ghost predicate Transitive(r: Rel) {
    forall x: nat, y: nat, z: nat :: (x, y) in r && (y, z) in r ==> (x, z) in r
  }

  /** Adding the edge (a, b) to a transitive relation connects exactly what leads to a with what b leads to. */
  lemma IncrementalClosure(r: Rel, a: nat, b: nat, t: Rel)
    requires Transitive(r)
    requires forall x: nat, y: nat :: (x, y) in t <==>
      (x, y) in r || ((x == a || (x, a) in r) && (y == b || (b, y) in r))
    ensures forall x: nat, y: nat :: (x, y) in t <==> Reach(r + {(a, b)}, x, y)
  {
    var q := r + {(a, b)};
    forall x: nat, y: nat | (x, y) in q ensures Reach(q, x, y) { EdgeReaches(q, x, y); }
    forall x: nat, y: nat ensures (x, y) in t <==> Reach(q, x, y) {
      if (x, y) in t && (x, y) !in r {
        assert (a, b) in q;
        if x != a { assert (x, a) in q; ReachTransitive(q, x, a, b); }
        if y != b { assert (b, y) in q; ReachTransitive(q, x, b, y); }
      }
      if Reach(q, x, y) {
        var steps: nat :| Chain(q, steps, x, y);
        assert forall e :: e in q ==> (e.0, e.1) in t;
        ReachIsLeast(q, t, steps, x, y);
      }
    }
  }

  /** x lies on a cycle or can be reached from one. */
  ghost predicate BehindCycle(r: Rel, x: nat) {
    exists c: nat :: Reach(r, c, c) && (c == x || Reach(r, c, x))
  }

  /** If every unlisted node keeps an unlisted predecessor, every unlisted node is behind a cycle. */
  lemma UnlistedBehindCycle(r: Rel, n: nat, order: seq<nat>, x: nat)
    requires Within(r, n) && x < n && x !in order
    requires forall y: nat :: y < n && y !in order ==> Preds(r, Listed(order), y, n) != {}
    ensures BehindCycle(r, x)
  {
    var s := set y: nat | y < n && y !in order && (y == x || Reach(r, y, x));
    assert x in s;
    forall y | y in s ensures HasPredIn(r, s, y) {
      var z :| z in Preds(r, Listed(order), y, n);
      EdgeReaches(r, z, y);
      if y != x { ReachTransitive(r, z, y, x); }
      assert z in s;
    }
    var c := NoSourceHasCycle(r, s);
  }

  /** The state of Kahn's algorithm between two pops: the stack holds exactly the free nodes not yet emitted. */
  ghost predicate Kahn(r: Rel, n: nat, sorted: seq<nat>, stack: seq<nat>, inDegree: seq<int>) {
    && Within(r, n) && |inDegree| == n
    && NoDup(sorted) && NoDup(stack) && (forall x :: x in sorted ==> x !in stack)
    && (forall x: nat :: x < n ==> inDegree[x] == |Preds(r, Listed(sorted), x, n)|)
    && (forall x: nat :: (x in sorted || x in stack) <==> x < n && inDegree[x] == 0)
    && Forward(r, sorted)
  }

  /** A free node has all its predecessors emitted. */
  lemma FreeNode(r: Rel, n: nat, sorted: seq<nat>, stack: seq<nat>, inDegree: seq<int>, j: nat, x: nat)
    requires Kahn(r, n, sorted, stack, inDegree)
    requires (j, x) in r && (x in sorted || x in stack)
    ensures j in sorted
  {
    assert Preds(r, Listed(sorted), x, n) == {};
    assert j !in sorted ==> j in Preds(r, Listed(sorted), x, n);
  }

  lemma KahnStep(r: Rel, n: nat, sorted: seq<nat>, rest: seq<nat>, y: nat, was: seq<int>,
                 freed: seq<nat>, inDegree: seq<int>)
    requires Kahn(r, n, sorted, rest + [y], was)
    requires |inDegree| == n && NoDup(freed)
    requires forall x: nat :: x < n ==> inDegree[x] == was[x] - if (y, x) in r then 1 else 0
    requires forall x: nat :: x in freed <==> x < n && (y, x) in r && inDegree[x] == 0
    ensures Kahn(r, n, sorted + [y], rest + freed, inDegree)
  {
    var stack := rest + [y];
    assert y == stack[|rest|] && y in stack;
    assert Listed(sorted + [y]) == Listed(sorted) + {y};
    assert y !in rest by {
      forall i | 0 <= i < |rest| ensures rest[i] != y { assert stack[i] == rest[i]; }
    }
    assert NoDup(rest) by {
      forall i, j | 0 <= i < j < |rest|
        ensures rest[i] != rest[j]
      {
        assert stack[i] == rest[i] && stack[j] == rest[j];
      }
    }
    forall x: nat | x < n ensures inDegree[x] == |Preds(r, Listed(sorted + [y]), x, n)| {
      PredsDone(r, Listed(sorted), y, x, n);
    }
    forall x: nat | (y, x) in r ensures x !in sorted && x !in stack {
      if x in sorted || x in stack { FreeNode(r, n, sorted, stack, was, y, x); }
    }
    forall x | x in rest ensures x !in freed { assert x in stack; }
    forall x: nat ensures (x in sorted + [y] || x in rest + freed) <==> x < n && inDegree[x] == 0 {
      assert x in stack <==> x in rest || x == y;
    }
    forall i, j | 0 <= i < |rest| && 0 <= j < |freed| ensures rest[i] != freed[j] {
      assert rest[i] in rest && freed[j] in freed;
    }
    forall i | 0 <= i < |sorted| ensures (y, sorted[i]) !in r { assert sorted[i] in sorted; }
  }

  /** With nothing left to pop, the emitted list is the promised one. */
  lemma KahnDone(r: Rel, n: nat, sorted: seq<nat>, inDegree: seq<int>)
    requires Kahn(r, n, sorted, [], inDegree)
    ensures forall x: nat :: x in sorted <==> x < n && !BehindCycle(r, x)
    ensures |sorted| == n <==> Acyclic(r)
  {
    forall x: nat, y: nat | (x, y) in r && y in sorted ensures x in sorted {
      FreeNode(r, n, sorted, [], inDegree, x, y);
    }
    forall x: nat ensures x in sorted <==> x < n && !BehindCycle(r, x) {
      if x in sorted && BehindCycle(r, x) {
        var c: nat :| Reach(r, c, c) && (c == x || Reach(r, c, x));
        ForwardAvoidsCycles(r, sorted, c, x);
      }
      if x < n && x !in sorted {
        UnlistedBehindCycle(r, n, sorted, x);
      }
    }
    forall i | 0 <= i < |sorted| ensures sorted[i] < n { assert sorted[i] in sorted; }
    NoDupBound(sorted, n);
    if |sorted| == n {
      SortedIsAcyclic(r, n, sorted);
    } else if Acyclic(r) {
      forall x: nat | x < n ensures x in sorted { }
      AllListed(sorted, n);
    }
  }

  class Matrix2D {
    const size: nat
    const matrix: array2<bool>

    ghost predicate Valid() {
      matrix.Length0 == size && matrix.Length1 == size
    }

    ghost function Edges(): (r: Rel)
      requires Valid()
      reads matrix
      ensures Within(r, size)
    {
      set i: nat, j: nat | i < size && j < size && matrix[i, j] :: (i, j)
    }

    constructor (n: nat)
      ensures Valid() && size == n && fresh(matrix)
      ensures Edges() == {}
    {
      size := n;
      matrix := new bool[n, n]((i, j) => false);
    }

    method AddEdge(a: nat, b: nat)
      requires Valid() && a < size && b < size
      modifies matrix
      ensures Edges() == old(Edges()) + {(a, b)}
    {
      matrix[a, b] := true;
    }

    /** The innermost loop of the closure: row i absorbs row k. */
    method OrRow(i: nat, k: nat)
      requires Valid() && i < size && k < size
      modifies matrix
      ensures forall x, y :: 0 <= x < size && 0 <= y < size ==>
        matrix[x, y] == (old(matrix[x, y]) || (x == i && old(matrix[k, y])))
    {
      for j := 0 to size
        invariant forall x, y :: 0 <= x < size && 0 <= y < size ==>
          matrix[x, y] == (old(matrix[x, y]) || (x == i && y < j && old(matrix[k, y])))
      {
        matrix[i, j] := matrix[i, j] || matrix[k, j];
      }
    }

    /** What both passes keep: nothing lost, nothing that is not reachable gained. */
    ghost predicate Between(r: Rel)
      requires Valid()
      reads matrix
    {
      forall x: nat, y: nat :: x < size && y < size ==>
        ((x, y) in r ==> matrix[x, y]) && (matrix[x, y] ==> Reach(r, x, y))
    }

    ghost predicate RowVia(r: Rel, m: nat, x: nat)
      requires Valid() && x < size
      reads matrix
    {
      forall y: nat :: y < size && Via(r, m, x, y) ==> matrix[x, y]
    }

    /** One step of either pass: row i absorbs a row k that already knows its paths below k. */
    method Absorb(i: nat, k: nat, ghost r: Rel)
      requires Valid() && i < size && k < size && i != k
      requires Between(r) && RowVia(r, k, k) && RowVia(r, k, i)
      modifies matrix
      ensures Between(r) && RowVia(r, k + 1, i)
      ensures forall x: nat, y: nat :: x < size && y < size && x != i ==> matrix[x, y] == old(matrix[x, y])
      ensures forall x: nat, m: nat :: x < size && x != i && old(RowVia(r, m, x)) ==> RowVia(r, m, x)
    {
      if matrix[i, k] {
        OrRow(i, k);
        forall x: nat, y: nat | x < size && y < size && matrix[x, y] ensures Reach(r, x, y) {
          if !old(matrix[x, y]) { ReachTransitive(r, i, k, y); }
        }
      }
    }

    /** Two ordered passes close an arbitrary relation, cyclic or not, although the row being scanned grows. */
    method TransClosure()
      requires Valid()
      modifies matrix
      ensures forall i: nat, j: nat :: (i, j) in Edges() <==> Reach(old(Edges()), i, j)
    {
      ghost var r := Edges();
      forall x: nat, y: nat | (x, y) in r ensures Reach(r, x, y) { EdgeReaches(r, x, y); }
      var i := 1;
      while i < size
        invariant 1 <= i && (i <= size || size == 0)
        invariant Between(r)
        invariant forall x: nat :: x < i && x < size ==> RowVia(r, x, x)
      {
        for k := 0 to i
          invariant Between(r) && RowVia(r, k, i)
          invariant forall x: nat :: x < i ==> RowVia(r, x, x)
        {
          Absorb(i, k, r);
        }
        i := i + 1;
      }
      i := 0;
      while i < size - 1
        invariant 0 <= i && (i <= size - 1 || size == 0)
        invariant Between(r)
        invariant forall x: nat :: x < i && x < size ==> RowVia(r, size, x)
        invariant forall x: nat :: i <= x < size ==> RowVia(r, x, x)
      {
        assert RowVia(r, i + 1, i) by { assert RowVia(r, i, i); }
        for k := i + 1 to size
          invariant Between(r) && RowVia(r, k, i)
          invariant forall x: nat :: x < i && x < size ==> RowVia(r, size, x)
          invariant forall x: nat :: i < x < size ==> RowVia(r, x, x)
        {
          Absorb(i, k, r);
        }
        i := i + 1;
      }
      forall a: nat, b: nat ensures (a, b) in Edges() <==> Reach(r, a, b) {
        if Reach(r, a, b) {
          var steps: nat :| Chain(r, steps, a, b);
          ChainWithin(r, size, steps, a, b);
          ReachIsVia(r, size, steps, a, b);
          assert RowVia(r, size, a) by { if a == size - 1 { assert RowVia(r, a, a); } }
        }
      }
    }

    /** Adds an edge to a closed matrix and closes it again, also when the edge completes a cycle. */
    method AddEdgeAndTransitive(a: nat, b: nat)
      requires Valid() && a < size && b < size
      requires Transitive(Edges())
      modifies matrix
      ensures forall i: nat, j: nat :: (i, j) in Edges() <==> Reach(old(Edges()) + {(a, b)}, i, j)
    {
      for i := 0 to size
        invariant forall x, y :: 0 <= x < size && 0 <= y < size ==>
          matrix[x, y] == (old(matrix[x, y]) || (x < i && old(matrix[x, a]) && old(matrix[b, y])))
      {
        if matrix[i, a] {
          assert old((i, a) in Edges());
          OrRow(i, b);
        }
      }
      OrRow(a, b);
      label Rows:
      for i := 0 to size
        invariant forall x, y :: 0 <= x < size && 0 <= y < size ==>
          matrix[x, y] == (old@Rows(matrix[x, y]) || (x < i && y == b && old@Rows(matrix[x, a])))
      {
        matrix[i, b] := matrix[i, b] || matrix[i, a];
      }
      matrix[a, b] := true;
      ghost var r := old(Edges());
      assert forall x: nat, y: nat :: (x, y) in Edges() <==>
        ((x, y) in r || ((x == a || (x, a) in r) && (y == b || (b, y) in r)));
      IncrementalClosure(old(Edges()), a, b, Edges());
    }

    method GetInDegrees() returns (inDegree: array<int>)
      requires Valid()
      ensures fresh(inDegree) && inDegree.Length == size
      ensures forall i :: 0 <= i < size ==> inDegree[i] == |Preds(Edges(), {}, i, size)|
    {
      inDegree := new int[size](_ => 0);
      for i := 0 to size
        invariant forall x :: 0 <= x < i ==> inDegree[x] == |Preds(Edges(), {}, x, size)|
        invariant forall x :: i <= x < size ==> inDegree[x] == 0
      {
        assert Preds(Edges(), {}, i, 0) == {};
        for j := 0 to size
          invariant forall x :: 0 <= x < i ==> inDegree[x] == |Preds(Edges(), {}, x, size)|
          invariant inDegree[i] == |Preds(Edges(), {}, i, j)|
          invariant forall x :: i < x < size ==> inDegree[x] == 0
        {
          PredsStep(Edges(), {}, i, j);
          inDegree[i] := inDegree[i] + if matrix[j, i] then 1 else 0;
        }
      }
    }

    /** Kahn's algorithm with a stack. Nothing is emitted twice, every edge between emitted nodes points forward,
        and what is missing is exactly what lies on or behind a cycle. */
    method TopoSort() returns (sorted: seq<nat>)
      requires Valid()
      ensures NoDup(sorted) && Forward(Edges(), sorted)
      ensures forall x: nat :: x in sorted <==> x < size && !BehindCycle(Edges(), x)
      ensures |sorted| == size <==> Acyclic(Edges())
    {
      ghost var r := Edges();
      sorted := [];
      var stack: seq<nat> := [];
      var inDegree := GetInDegrees();
      for i := 0 to size
        invariant NoDup(stack)
        invariant forall x: nat :: x in stack <==> x < i && inDegree[x] == 0
      {
        if inDegree[i] == 0 { stack := stack + [i]; }
      }
      assert Listed(sorted) == {};
      while |stack| > 0
        invariant Edges() == r && Kahn(r, size, sorted, stack, inDegree[..])
        decreases size - |sorted|
      {
        var nextI := stack[|stack| - 1];
        ghost var was := inDegree[..];
        var rest := stack[..|stack| - 1];
        assert stack == rest + [nextI] && nextI in stack;
        sorted := sorted + [nextI];
        ghost var freed;
        stack, freed := Release(nextI, rest, inDegree);
        KahnStep(r, size, sorted[..|sorted| - 1], rest, nextI, was, freed, inDegree[..]);
        assert sorted == sorted[..|sorted| - 1] + [nextI];
        forall i | 0 <= i < |sorted| ensures sorted[i] < size { assert sorted[i] in sorted; }
        NoDupBound(sorted, size);
      }
      KahnDone(r, size, sorted, inDegree[..]);
    }

    /** Takes node y out of the in-degrees of its successors and stacks those that become free. */
    method Release(y: nat, stack0: seq<nat>, inDegree: array<int>)
      returns (stack: seq<nat>, ghost freed: seq<nat>)
      requires Valid() && y < size && inDegree.Length == size
      modifies inDegree
      ensures forall x :: 0 <= x < size ==> inDegree[x] == old(inDegree[x]) - if matrix[y, x] then 1 else 0
      ensures stack == stack0 + freed && NoDup(freed)
      ensures forall x: nat :: x in freed <==> x < size && matrix[y, x] && inDegree[x] == 0
    {
      stack, freed := stack0, [];
      for i := 0 to size
        invariant forall x :: 0 <= x < size ==>
          inDegree[x] == old(inDegree[x]) - if x < i && matrix[y, x] then 1 else 0
        invariant stack == stack0 + freed && NoDup(freed)
        invariant forall x: nat :: x in freed <==> x < i && matrix[y, x] && inDegree[x] == 0
      {
        if matrix[y, i] {
          inDegree[i] := inDegree[i] - 1;
          if inDegree[i] == 0 { stack, freed := stack + [i], freed + [i]; }
        }
      }
    }

    /** On a closed matrix this decides whether the relation has a cycle. */
    method IsIrreflexive() returns (yes: bool)
      requires Valid()
      ensures yes <==> forall x: nat :: (x, x) !in Edges()
      ensures Transitive(Edges()) ==> (yes <==> Acyclic(Edges()))
    {
      for i := 0 to size
        invariant forall x: nat :: x < i ==> !matrix[x, x]
      {
        if matrix[i, i] {
          assert (i, i) in Edges();
          EdgeReaches(Edges(), i, i);
          return false;
        }
      }
      if Transitive(Edges()) {
        forall x: nat ensures !Reach(Edges(), x, x) { TransitiveReach(Edges(), x); }
      }
      yes := true;
    }
  }

  /** Whatever a transitive relation leads from a node back to itself is a loop of the relation. */
  lemma TransitiveReach(r: Rel, x: nat)
    requires Transitive(r)
    ensures Reach(r, x, x) ==> (x, x) in r
  {
    if Reach(r, x, x) {
      var steps: nat :| Chain(r, steps, x, x);
      ReachIsLeast(r, r, steps, x, x);
    }
  }
}
