/** The bookkeeping of genmc/genmc/Execution/ExecutionState.cpp: the heap and the race summaries, updated event by
    event. */
module ExecutionStates {
  import opened Options
  import opened Events
  import opened Clocks
  import opened AdaptiveViews
  import opened IntervalMaps
  import opened RaceSummary
  import opened Initialization
  import opened LastWrites
  import opened HeapStates

  /** Which accesses a summary map records. */
  datatype Kind = NARead | ARead | AWrite | Unprotected

  /** One more record in the history of kind k. */
  ghost function Extended(h: Kind -> seq<Record>, k: Kind, r: Record): Kind -> seq<Record> {
    l => if l == k then h(l) + [r] else h(l)
  }

  /** The histories once an access that hazard pointers cover, or do not, is recorded as unprotected. */
  ghost function Exposed(h: Kind -> seq<Record>, covered: bool, r: Record): Kind -> seq<Record> {
    if covered then h else Extended(h, Unprotected, r)
  }

  /** What that comes to, kind by kind. */
  lemma HistoriesGrow(h: Kind -> seq<Record>, k: Kind, covered: bool, r: Record)
    requires k != Unprotected
    ensures var now := Exposed(Extended(h, k, r), covered, r);
      && now(k) == h(k) + [r] && now(Unprotected) == h(Unprotected) + (if covered then [] else [r])
      && forall l: Kind :: l != k && l != Unprotected ==> now(l) == h(l)
    ensures var now := Exposed(h, covered, r);
      && now(Unprotected) == h(Unprotected) + (if covered then [] else [r])
      && forall l: Kind :: l != Unprotected ==> now(l) == h(l)
  {
  }

  /** One summary per kind of access in place of the full history. */
  class RaceMaps {
    const lastNAReadView: IntervalMap<Storage>
    const lastAReadView: IntervalMap<Storage>
    const lastAWriteView: IntervalMap<Storage>
    const lastUnprotectedAccess: IntervalMap<Storage>
    /** The inclusion tests of the four maps. */
    const oracle: Kind -> Oracle
    /** The accesses of each kind recorded since the maps were cleared. */
    ghost var history: Kind -> seq<Record>

    function MapOf(k: Kind): IntervalMap<Storage> {
      match k
      case NARead => lastNAReadView
      case ARead => lastAReadView
      case AWrite => lastAWriteView
      case Unprotected => lastUnprotectedAccess
    }

    ghost function Maps(): set<object> {
      {lastNAReadView, lastAReadView, lastAWriteView, lastUnprotectedAccess}
    }

    ghost function Objects(): set<object> { {this} + Maps() }

    ghost predicate Distinct() {
      && lastNAReadView != lastAReadView && lastNAReadView != lastAWriteView && lastNAReadView != lastUnprotectedAccess
      && lastAReadView != lastAWriteView && lastAReadView != lastUnprotectedAccess
      && lastAWriteView != lastUnprotectedAccess
    }

    ghost predicate Valid()
      reads this, Maps()
    {
      && Distinct()
      && Summarizes(lastNAReadView, oracle(NARead), history(NARead))
      && Summarizes(lastAReadView, oracle(ARead), history(ARead))
      && Summarizes(lastAWriteView, oracle(AWrite), history(AWrite))
      && Summarizes(lastUnprotectedAccess, oracle(Unprotected), history(Unprotected))
    }

    constructor (oracle: Kind -> Oracle, naRead: IntervalMap<Storage>, aRead: IntervalMap<Storage>,
                 aWrite: IntervalMap<Storage>, unprotected: IntervalMap<Storage>)
      requires naRead != aRead && naRead != aWrite && naRead != unprotected
      requires aRead != aWrite && aRead != unprotected && aWrite != unprotected
      requires Summarizes(naRead, oracle(NARead), []) && Summarizes(aRead, oracle(ARead), [])
      requires Summarizes(aWrite, oracle(AWrite), []) && Summarizes(unprotected, oracle(Unprotected), [])
      ensures Valid() && Maps() == {naRead, aRead, aWrite, unprotected} && forall k: Kind :: history(k) == []
    {
      lastNAReadView, lastAReadView, lastAWriteView, lastUnprotectedAccess := naRead, aRead, aWrite, unprotected;
      this.oracle, history := oracle, _ => [];
    }

    /** Adds an access to one summary. */
    method AddTo(k: Kind, access: Access, pos: Event, view: Clock)
      requires Valid()
      modifies this`history, MapOf(k)
      ensures Valid() && history == Extended(old(history), k, Record(access, pos, view))
      ensures history(k) == old(history)(k) + [Record(access, pos, view)]
      ensures forall l: Kind :: l != k ==> history(l) == old(history)(l)
    {
      RecordIn(MapOf(k), oracle(k), history(k), access, pos, view);
      history := Extended(history, k, Record(access, pos, view));
    }

    method Clear()
      requires Valid()
      modifies this`history, Maps()
      ensures Valid() && forall k: Kind :: history(k) == []
    {
      lastNAReadView.Clear();
      lastAReadView.Clear();
      lastAWriteView.Clear();
      lastUnprotectedAccess.Clear();
      history := _ => [];
    }
  }

  /** The last non-atomic and the first write to each byte. */
  class WriteMaps {
    const lastNAWriteEvent: IntervalMap<Option<Event>>
    const initialized: IntervalMap<Storage>
    /** The inclusion test of the map of first writes. */
    const oracle: Oracle
    /** Since the maps were cleared: the non-atomic writes, and the first write to each byte. */
    ghost var naWrites: seq<Record>
    ghost var firsts: int -> seq<Record>

    ghost function Maps(): set<object> { {lastNAWriteEvent, initialized as object} }

    ghost function Objects(): set<object> { {this} + Maps() }

    ghost predicate Valid()
      reads this, Maps()
    {
      && lastNAWriteEvent as object != initialized
      && Remembers(lastNAWriteEvent, naWrites) && InitializedBy(initialized, oracle, firsts)
    }

    constructor (oracle: Oracle)
      requires SoundOracle(oracle)
      ensures Valid() && fresh(Maps()) && naWrites == [] && forall p: int :: firsts(p) == []
    {
      var na := new IntervalMap<Option<Event>>(EventOps());
      SummaryLawful(oracle);
      var ini := new IntervalMap<Storage>(SummaryOps(oracle));
      lastNAWriteEvent, initialized := na, ini;
      this.oracle, naWrites, firsts := oracle, [], _ => [];
    }

    method MarkInitialized(access: Access, pos: Event, view: Clock)
      requires Valid()
      modifies this`firsts, initialized
      ensures Valid() && firsts == Firsts(old(firsts), Record(access, pos, view))
    {
      MarkFirstWrite(initialized, oracle, firsts, access, pos, view);
      firsts := Firsts(firsts, Record(access, pos, view));
    }

    method AddNAWrite(access: Access, pos: Event, ghost view: Clock)
      requires Valid()
      modifies this`naWrites, lastNAWriteEvent
      ensures Valid() && naWrites == old(naWrites) + [Record(access, pos, view)]
    {
      Remember(lastNAWriteEvent, naWrites, Record(access, pos, view), access, pos);
      naWrites := naWrites + [Record(access, pos, view)];
    }

    method Clear()
      requires Valid()
      modifies this, Maps()
      ensures Valid() && naWrites == [] && forall p: int :: firsts(p) == []
    {
      initialized.Clear();
      lastNAWriteEvent.Clear();
      naWrites, firsts := [], _ => [];
    }
  }

  /** The whole state. */
  class ExecutionState {
    const heap: HeapState
    const races: RaceMaps
    const writes: WriteMaps
    /** Index of the last access of each thread. */
    var lastMemAccess: Clock

    ghost predicate Distinct() {
      && heap.Objects() !! races.Objects() && heap.Objects() !! writes.Objects() && races.Objects() !! writes.Objects()
      && this !in heap.Objects() + races.Objects() + writes.Objects()
    }

    ghost predicate Valid()
      reads this, heap.Objects(), races.Objects(), writes.Objects()
    {
      Distinct() && heap.Valid() && races.Valid() && writes.Valid()
    }

    constructor (heap: HeapState, races: RaceMaps, writes: WriteMaps)
      requires heap.Valid() && races.Valid() && writes.Valid()
      requires heap.Objects() !! races.Objects() && heap.Objects() !! writes.Objects()
      requires races.Objects() !! writes.Objects()
      ensures Valid() && this.heap == heap && this.races == races && this.writes == writes
    {
      this.heap, this.races, this.writes, lastMemAccess := heap, races, writes, [];
    }

    /** The end of recordMemAccess and of recordNAWrite. */
    method RecordUnprotected(access: Access, pos: Event, view: Clock)
      requires Distinct() && races.Valid() && Counts(heap.hpProtectCount, heap.hpProtectMap, heap.allocs)
      modifies this`lastMemAccess, races.Objects()
      ensures races.Valid() && lastMemAccess == See(old(lastMemAccess), pos)
      ensures races.history == Exposed(old(races.history), heap.Covered(access), Record(access, pos, view))
    {
      lastMemAccess := See(lastMemAccess, pos);
      var isProtected := heap.IsProtected(access);
      if !isProtected { races.AddTo(Unprotected, access, pos, view); }
    }

    /** recordMemAccess, as far as the race summaries are concerned. */
    method RecordTwice(k: Kind, access: Access, pos: Event, view: Clock)
      requires Distinct() && races.Valid() && Counts(heap.hpProtectCount, heap.hpProtectMap, heap.allocs)
      requires k != Unprotected
      modifies this`lastMemAccess, races.Objects()
      ensures races.Valid() && lastMemAccess == See(old(lastMemAccess), pos)
      ensures var r := Record(access, pos, view);
        races.history == Exposed(Extended(old(races.history), k, r), heap.Covered(access), r)
    {
      races.AddTo(k, access, pos, view);
      RecordUnprotected(access, pos, view);
    }

    /** Records an access in the summary of its kind and, unless hazard pointers protect all of it, as unprotected. */
    method RecordMemAccess(k: Kind, access: Access, pos: Event, view: Clock)
      requires Valid() && k != Unprotected
      modifies this`lastMemAccess, races.Objects()
      ensures Valid()
      ensures forall t: nat :: GetMax(lastMemAccess, t) == MaxNat(old(GetMax(lastMemAccess, t)), Reading(pos, t))
      ensures races.history(k) == old(races.history)(k) + [Record(access, pos, view)]
      ensures races.history(Unprotected) ==
        old(races.history)(Unprotected) + if heap.Covered(access) then [] else [Record(access, pos, view)]
      ensures forall l: Kind :: l != k && l != Unprotected ==> races.history(l) == old(races.history)(l)
    {
      HistoriesGrow(races.history, k, heap.Covered(access), Record(access, pos, view));
      RecordTwice(k, access, pos, view);
    }

    /** The parts of onATStore that concern races and first writes. */
    method RecordATStore(pos: Event, access: Access, view: Clock)
      requires Valid()
      modifies this`lastMemAccess, races.Objects(), writes.Objects()
      ensures Valid() && lastMemAccess == See(old(lastMemAccess), pos)
      ensures var r := Record(access, pos, view);
        && races.history == Exposed(Extended(old(races.history), AWrite, r), old(heap.Covered(access)), r)
        && writes.firsts == Firsts(old(writes.firsts), r)
    {
      RecordTwice(AWrite, access, pos, view);
      writes.MarkInitialized(access, pos, view);
    }

    /** An atomic store is recorded, is the first write to what it initializes, and ends the protection of a hazard
        pointer stored there; `ok` is false when that pointer's allocation has lost its record. */
    method OnATStore(pos: Event, access: Access, view: Clock) returns (ok: bool)
      requires Valid()
      modifies this`lastMemAccess, races.Objects(), writes.Objects(), heap`hpProtectMap, heap.hpProtectCount
      ensures Valid()
      ensures forall t: nat :: GetMax(lastMemAccess, t) == MaxNat(old(GetMax(lastMemAccess, t)), Reading(pos, t))
      ensures races.history(AWrite) == old(races.history)(AWrite) + [Record(access, pos, view)]
      ensures races.history(Unprotected) ==
        old(races.history)(Unprotected) + if old(heap.Covered(access)) then [] else [Record(access, pos, view)]
      ensures forall l: Kind :: l != AWrite && l != Unprotected ==> races.history(l) == old(races.history)(l)
      ensures forall p: int :: access.Touches(p) && old(writes.firsts)(p) == [] ==>
        writes.firsts(p) == [Record(access, pos, view)]
      ensures forall p: int :: !access.Touches(p) || old(writes.firsts)(p) != [] ==>
        writes.firsts(p) == old(writes.firsts)(p)
      ensures ok <==> access.addr !in old(heap.hpProtectMap) || old(heap.Intact(heap.hpProtectMap[access.addr]))
      ensures heap.hpProtectMap == if ok && access.addr in old(heap.hpProtectMap)
        then old(heap.hpProtectMap)[access.addr := 0] else old(heap.hpProtectMap)
    {
      HistoriesGrow(races.history, AWrite, heap.Covered(access), Record(access, pos, view));
      ok := StoreAtomic(pos, access, view);
    }

    method StoreAtomic(pos: Event, access: Access, view: Clock) returns (ok: bool)
      requires Valid()
      modifies this`lastMemAccess, races.Objects(), writes.Objects(), heap`hpProtectMap, heap.hpProtectCount
      ensures Valid() && lastMemAccess == See(old(lastMemAccess), pos)
      ensures var r := Record(access, pos, view);
        && races.history == Exposed(Extended(old(races.history), AWrite, r), old(heap.Covered(access)), r)
        && writes.firsts == Firsts(old(writes.firsts), r)
      ensures ok <==> access.addr !in old(heap.hpProtectMap) || old(heap.Intact(heap.hpProtectMap[access.addr]))
      ensures heap.hpProtectMap == if ok && access.addr in old(heap.hpProtectMap)
        then old(heap.hpProtectMap)[access.addr := 0] else old(heap.hpProtectMap)
    {
      ghost var covered := heap.Covered(access);
      RecordATStore(pos, access, view);
      ghost var h, f, last := races.history, writes.firsts, lastMemAccess;
      ok := StoreToHp(access.addr);
      assert races.history == h && writes.firsts == f && lastMemAccess == last && old(heap.Covered(access)) == covered;
    }

    method StoreToHp(addr: int) returns (ok: bool)
      requires Valid()
      modifies heap`hpProtectMap, heap.hpProtectCount
      ensures Valid() && (ok <==> addr !in old(heap.hpProtectMap) || old(heap.Intact(heap.hpProtectMap[addr])))
      ensures heap.hpProtectMap ==
        if ok && addr in old(heap.hpProtectMap) then old(heap.hpProtectMap)[addr := 0] else old(heap.hpProtectMap)
    {
      ok := heap.OnStoreToHp(addr);
    }

    /** A non-atomic store is the first write to what it initializes, the last non-atomic write to all of its bytes and,
        unless hazard pointers protect all of it, an unprotected access. */
    method OnNAStore(pos: Event, access: Access, view: Clock)
      requires Valid()
      modifies this`lastMemAccess, races.Objects(), writes.Objects()
      ensures Valid()
      ensures forall t: nat :: GetMax(lastMemAccess, t) == MaxNat(old(GetMax(lastMemAccess, t)), Reading(pos, t))
      ensures writes.naWrites == old(writes.naWrites) + [Record(access, pos, view)]
      ensures forall p: int :: access.Touches(p) && old(writes.firsts)(p) == [] ==>
        writes.firsts(p) == [Record(access, pos, view)]
      ensures forall p: int :: !access.Touches(p) || old(writes.firsts)(p) != [] ==>
        writes.firsts(p) == old(writes.firsts)(p)
      ensures races.history(Unprotected) ==
        old(races.history)(Unprotected) + if heap.Covered(access) then [] else [Record(access, pos, view)]
      ensures forall l: Kind :: l != Unprotected ==> races.history(l) == old(races.history)(l)
    {
      HistoriesGrow(races.history, NARead, heap.Covered(access), Record(access, pos, view));
      StoreNonAtomic(pos, access, view);
    }

    method StoreNonAtomic(pos: Event, access: Access, view: Clock)
      requires Valid()
      modifies this`lastMemAccess, races.Objects(), writes.Objects()
      ensures Valid() && lastMemAccess == See(old(lastMemAccess), pos)
      ensures var r := Record(access, pos, view);
        && writes.naWrites == old(writes.naWrites) + [r] && writes.firsts == Firsts(old(writes.firsts), r)
        && races.history == Exposed(old(races.history), heap.Covered(access), r)
    {
      writes.MarkInitialized(access, pos, view);
      RecordNAWrite(access, pos, view);
    }

    method RecordNAWrite(access: Access, pos: Event, view: Clock)
      requires Distinct() && races.Valid() && writes.Valid()
      requires Counts(heap.hpProtectCount, heap.hpProtectMap, heap.allocs)
      modifies this`lastMemAccess, races.Objects(), writes`naWrites, writes.lastNAWriteEvent
      ensures races.Valid() && writes.Valid() && lastMemAccess == See(old(lastMemAccess), pos)
      ensures var r := Record(access, pos, view);
        && writes.naWrites == old(writes.naWrites) + [r]
        && races.history == Exposed(old(races.history), heap.Covered(access), r)
    {
      writes.AddNAWrite(access, pos, view);
      RecordUnprotected(access, pos, view);
    }

    /** The summary of one kind answers as its history does, for every clock closed under the recorded causes. */
    method GetMaxView(k: Kind, access: Access) returns (result: AdaptiveView)
      requires Valid()
      ensures fresh(result)
      ensures forall c: Clock :: Closed(races.history(k), c) ==>
        (Below(result.storage, c) <==> SeenAll(races.history(k), access, c))
    {
      result := RaceSummary.GetMaxView(races.MapOf(k), races.oracle(k), races.history(k), access);
    }

    /** Unprotected accesses to the allocation that starts at addr, or to what a denied request claims from null on;
        `ok` is false exactly when there is no such record at addr. */
    method GetMaxUnprotectedView(addr: int) returns (ok: bool, result: AdaptiveView?)
      requires Valid()
      ensures (ok <==> if addr == 0 then heap.denied.Some? else heap.Intact(addr)) && (ok <==> result != null)
      ensures ok ==> fresh(result) && forall c: Clock :: Closed(races.history(Unprotected), c) ==>
        (Below(result.storage, c) <==>
          SeenAll(races.history(Unprotected), (if addr == 0 then heap.denied.value else heap.allocs[addr]).access, c))
    {
      RecordAt(heap.allocInfoMap.entries, heap.allocs, heap.denied, addr);
      var allocAccess := heap.GetAllocAccess(addr);
      if allocAccess.None? || allocAccess.value.addr != addr { return false, null; }
      result := GetMaxView(Unprotected, allocAccess.value);
      ok := true;
    }

    /** clear: nothing is allocated, protected, recorded or initialized any more. */
    method Clear()
      requires Valid()
      modifies this`lastMemAccess, races.Objects(), writes.Objects()
      modifies heap`allocs, heap`denied, heap`origins, heap`dynamicPool, heap`hpProtectMap
      modifies heap.allocInfoMap, heap.hpProtectCount
      ensures Valid() && heap.allocs == map[] && heap.denied == None && heap.hpProtectMap == map[]
      ensures forall t: nat :: t in heap.dynamicPool ==> heap.dynamicPool[t] == 1
      ensures heap.staticPool == old(heap.staticPool) && heap.staticRanges == old(heap.staticRanges)
      ensures lastMemAccess == [] && writes.naWrites == []
      ensures (forall k: Kind :: races.history(k) == []) && forall p: int :: writes.firsts(p) == []
    {
      heap.ClearAllocations();
      ClearRecords();
    }

    method ClearRecords()
      requires Distinct() && races.Valid() && writes.Valid()
      modifies this`lastMemAccess, races.Objects(), writes.Objects()
      ensures races.Valid() && writes.Valid() && lastMemAccess == [] && writes.naWrites == []
      ensures (forall k: Kind :: races.history(k) == []) && forall p: int :: writes.firsts(p) == []
    {
      writes.Clear();
      races.Clear();
      lastMemAccess := [];
    }
  }

  /** A state with nothing in it. */
  method NewState(oracle: Kind -> Oracle, initOracle: Oracle) returns (state: ExecutionState)
    requires SoundOracle(initOracle) && forall k: Kind :: SoundOracle(oracle(k))
    ensures fresh(state) && state.Valid() && state.writes.naWrites == []
    ensures (forall k: Kind :: state.races.history(k) == []) && forall p: int :: state.writes.firsts(p) == []
  {
    var writes := new WriteMaps(initOracle);
    var races := NewRaces(oracle, writes.Objects());
    var heap := NewHeap(races.Objects() + writes.Objects());
    state := new ExecutionState(heap, races, writes);
  }

  method NewRaces(oracle: Kind -> Oracle, ghost others: set<object>) returns (races: RaceMaps)
    requires forall k: Kind :: SoundOracle(oracle(k))
    ensures races.Valid() && races.Objects() !! others && forall k: Kind :: races.history(k) == []
  {
    var naRead := NewSummary(oracle(NARead), others);
    var aRead := NewSummary(oracle(ARead), others + {naRead});
    var aWrite := NewSummary(oracle(AWrite), others + {naRead, aRead});
    var unprotected := NewSummary(oracle(Unprotected), others + {naRead, aRead, aWrite});
    races := CombineRaces(oracle, naRead, aRead, aWrite, unprotected, others);
  }

  method CombineRaces(oracle: Kind -> Oracle, naRead: IntervalMap<Storage>, aRead: IntervalMap<Storage>,
                      aWrite: IntervalMap<Storage>, unprotected: IntervalMap<Storage>, ghost others: set<object>)
    returns (races: RaceMaps)
    requires {naRead as object, aRead, aWrite, unprotected} !! others
    requires naRead != aRead && naRead != aWrite && naRead != unprotected
    requires aRead != aWrite && aRead != unprotected && aWrite != unprotected
    requires Summarizes(naRead, oracle(NARead), []) && Summarizes(aRead, oracle(ARead), [])
    requires Summarizes(aWrite, oracle(AWrite), []) && Summarizes(unprotected, oracle(Unprotected), [])
    ensures races.Valid() && races.Objects() !! others && forall k: Kind :: races.history(k) == []
  {
    races := new RaceMaps(oracle, naRead, aRead, aWrite, unprotected);
    ghost var objects := races.Objects();
    Disjoint(races, races.Maps(), others);
    assert objects == {races} + races.Maps();
  }

  lemma Disjoint(o: object, objects: set<object>, others: set<object>)
    requires o !in others && objects !! others
    ensures {o} + objects !! others
  {
  }
}
