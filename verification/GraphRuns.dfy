/** Runs of operations on an execution graph: what holds in every graph they lead to. */
module GraphRuns {
  import opened Options
  import opened Events
  import opened Relation
  import opened Clocks
  import opened Graphs
  import opened ExecutionGraphs
  import opened GraphCopies

  datatype Op =
    | AddThread
    | AddLabel(t: nat, kind: Kind)
    | SetRf(r: Event, src: Option<Event>)
    | AddCo(w: Event, a: int, pred: Event)
    | MoveCo(w: Event, a: int, pred: Event)
    | RemoveLast(t: nat)
    | CutToStamp(stamp: nat, view: Clock)

  const initial := Graph([[Label(Init, 0, None, [])]], map[], map[], [INIT], 1)

  /** What the caller of an operation sees to. */
  ghost predicate Allowed(g: Graph, op: Op) {
    match op
    case AddThread => true
    case AddLabel(t, kind) => t < |g.events| && (kind.Read? || kind.Write? || kind.Other?)
    case SetRf(r, src) => g.Contains(r) && g.At(r).kind.Read? && (src.Some? ==> g.Source(src.value))
    case AddCo(w, a, pred) =>
      g.IsWrite(w, a) && a in g.coherence && w !in g.coherence[a] && (pred == INIT || pred in g.coherence[a])
    case MoveCo(w, a, pred) =>
      a in g.coherence && w in g.coherence[a] && pred != w && (pred == INIT || pred in g.coherence[a])
    case RemoveLast(t) =>
      t < |g.events| && |g.events[t]| > 1 && forall a :: a in g.coherence ==> LastOf(g, t) !in g.coherence[a]
    case CutToStamp(stamp, view) => UpToStamp(g, stamp, view)
  }

  ghost function Step(g: Graph, op: Op): Graph
    requires Allowed(g, op)
  {
    match op
    case AddThread => Added(g.(events := g.events + [[]]), |g.events|, Start)
    case AddLabel(t, kind) => Added(g, t, kind)
    case SetRf(r, src) => RfSet(g, r, src)
    case AddCo(w, a, pred) => CoAdded(g, w, a, pred)
    case MoveCo(w, a, pred) => CoMoved(g, w, a, pred)
    case RemoveLast(t) => Removed(g, t)
    case CutToStamp(_, view) => Cut(g, view)
  }

  /** The graph after a run of allowed operations. */
  ghost function Run(ops: seq<Op>): Option<Graph> {
    if |ops| == 0 then Some(initial)
    else
      var g := Run(ops[..|ops| - 1]);
      if g.Some? && Allowed(g.value, ops[|ops| - 1]) then Some(Step(g.value, ops[|ops| - 1])) else None
  }

  lemma StepKeepsWellFormed(g: Graph, op: Op)
    requires g.WellFormed() && Allowed(g, op)
    ensures Step(g, op).WellFormed()
  {
    match op
    case AddThread => ThreadAdded(g, g.(events := g.events + [[]]));
    case AddLabel(t, kind) => AddedWellFormed(g, t, kind);
    case SetRf(r, src) => RfSetWellFormed(g, r, src);
    case AddCo(w, a, pred) => CoAddedWellFormed(g, w, a, pred);
    case MoveCo(w, a, pred) => CoMovedWellFormed(g, w, a, pred);
    case RemoveLast(t) => RemovedWellFormed(g, t);
    case CutToStamp(_, view) => CutWellFormed(g, view);
  }

  /** In every graph a run leads to, reads-from edges and reader lists agree, coherence lists are duplicate-free lists
      of writes to their location, and stamps follow the insertion order and program order. */
  lemma {:induction false} RunsAreWellFormed(ops: seq<Op>)
    ensures Run(ops).Some? ==> Run(ops).value.WellFormed()
  {
    if |ops| > 0 {
      var front, last := ops[..|ops| - 1], ops[|ops| - 1];
      RunsAreWellFormed(front);
      if Run(front).Some? && Allowed(Run(front).value, last) { StepKeepsWellFormed(Run(front).value, last); }
    }
  }

  /** In every graph a run leads to, the two directions of immediate from-reads agree exactly for reads that have a
      source in coherence, where there is a write. */
  lemma RunsAgreeOnFromReads(ops: seq<Op>, r: Event, a: int)
    requires Run(ops).Some?
    requires Run(ops).value.Contains(r) && Run(ops).value.At(r).kind == Read(a) && a in Run(ops).value.coherence
    ensures Run(ops).value.WellFormed()
    ensures (forall w: Event :: AgreeOn(Run(ops).value, r, w, a)) <==>
      Run(ops).value.coherence[a] == [] || Sourced(Run(ops).value, r, a)
    ensures Sourced(Run(ops).value, r, a) ==> forall x: Event ::
      FrImmSucc(Run(ops).value, r) == Some(x) <==> NextInCo(Run(ops).value.coherence[a], Run(ops).value.At(r).rf, x)
  {
    RunsAreWellFormed(ops);
    FromReadsAgree(Run(ops).value, r, a);
  }

  /** A run after which removing a label breaks the graph: the write is still in its coherence list. */
  lemma RemovalCanBreak() returns (ops: seq<Op>)
    ensures Run(ops).Some? && Run(ops).value.WellFormed()
    ensures |Run(ops).value.events| == 2 && |Run(ops).value.events[1]| == 2 && !Removed(Run(ops).value, 1).WellFormed()
  {
    var w := Event(1, 1);
    var thread, write, place := AddThread, AddLabel(1, Write(7)), AddCo(w, 7, INIT);
    var g1 := Step(initial, thread);
    var g2 := Step(g1, write);
    var g3 := Step(g2, place);
    RunNext([], thread);
    RunNext([thread], write);
    RunNext([thread] + [write], place);
    ops := [thread] + [write] + [place];
    RunsAreWellFormed(ops);
    assert g3.coherence[7] == [w] && w in g3.coherence[7];
    RemovedWellFormed(g3, 1);
  }

  lemma RunNext(ops: seq<Op>, op: Op)
    requires Run(ops).Some? && Allowed(Run(ops).value, op)
    ensures Run(ops + [op]) == Some(Step(Run(ops).value, op))
  {
    assert (ops + [op])[..|ops|] == ops;
  }

  /** The operations on the graph object do what a run says. */
  method Perform(graph: ExecutionGraph, op: Op)
    requires graph.Valid() && Allowed(graph.State(), op)
    modifies graph
    ensures graph.Valid() && graph.State() == Step(old(graph.State()), op)
  {
    match op
    case AddThread =>
      var t := graph.AddThread();
    case AddLabel(t, kind) =>
      var e := graph.AddLabel(t, kind);
    case SetRf(r, src) => graph.SetRf(r, src);
    case AddCo(w, a, pred) => graph.AddCo(w, a, pred);
    case MoveCo(w, a, pred) =>
      ghost var others := graph.MoveCo(w, a, pred);
    case RemoveLast(t) => graph.RemoveLast(t);
    case CutToStamp(stamp, view) =>
      ghost var g := graph.State();
      ghost var preds := graph.CutToStamp(stamp);
      OneCut(g, stamp, preds, view);
  }

  /** So every run can be had on a graph object, which then is the graph of the run. */
  method Execute(ops: seq<Op>) returns (graph: ExecutionGraph)
    requires Run(ops).Some?
    ensures fresh(graph) && graph.Valid() && Run(ops) == Some(graph.State())
  {
    graph := new ExecutionGraph();
    for i := 0 to |ops|
      invariant fresh(graph) && graph.Valid() && Run(ops[..i]) == Some(graph.State())
    {
      assert ops[..i + 1][..i] == ops[..i];
      AllowedSoFar(ops, i);
      Perform(graph, ops[i]);
    }
    assert ops[..|ops|] == ops;
  }

  lemma {:induction false} AllowedSoFar(ops: seq<Op>, i: nat)
    requires Run(ops).Some? && i < |ops|
    ensures Run(ops[..i]).Some? && Allowed(Run(ops[..i]).value, ops[i])
    decreases |ops|
  {
    var front := ops[..|ops| - 1];
    if i < |front| {
      AllowedSoFar(front, i);
      assert front[..i] == ops[..i];
    }
  }
}
