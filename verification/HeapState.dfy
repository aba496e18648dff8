/** Allocations and hazard-pointer counts (genmc/genmc/Execution/ExecutionState.cpp), updated event by event. */
module HeapStates {
  import opened Options
  import opened Events
  import opened IntervalMaps
  import opened RaceSummary
  import opened SAddrAllocators

  datatype AllocInfo = AllocInfo(pos: Event, access: Access, alignment: nat, freePos: Option<Event>, isRetire: bool)

  /** Bytes outside allocations hold None, the default record; aggregating records overwrites. */
  function AllocOps(): Ops<Option<AllocInfo>> {
    Ops(None, (a, b) => a == b, (n, a, b) => b)
  }

  function CountOps(): Ops<int> {
    Ops(0, (a, b) => a == b, (n, a, b) => a + b)
  }

  type Allocs = map<int, AllocInfo>

  /** Two accesses share no byte. */
  predicate Apart(a: Access, b: Access) {
    a.addr + a.size <= b.addr || b.addr + b.size <= a.addr
  }

  /** Records are filed under their base address, which is not null; distinct allocations share no byte. */
  ghost predicate WellAllocated(allocs: Allocs) {
    && (forall b :: b in allocs ==> b > 0 && allocs[b].access.addr == b && allocs[b].access.size > 0)
    && (forall b, c :: b in allocs && c in allocs && b != c ==> Apart(allocs[b].access, allocs[c].access))
  }

  /** The record filed for a request that was denied, if there was one: it claims the bytes from null on. */
  type NullRecord = o: Option<AllocInfo> | o.Some? ==> o.value.access.addr == 0 && o.value.access.size > 0
    witness None

  /** How far the null record reaches. */
  function Extent(nul: NullRecord): nat { if nul.None? then 0 else nul.value.access.size }

  /** Every byte the null record claims has that record; of the others, the bytes of an allocation have its record and
      the rest have none. */
  ghost predicate ResolvedBy(s: seq<Cell<Option<AllocInfo>>>, allocs: Allocs, nul: NullRecord) {
    && (forall p: int :: 0 <= p < Extent(nul) ==> Raw(AllocOps(), s, p) == nul)
    && (forall b, p: int :: b in allocs && allocs[b].access.Touches(p) && Extent(nul) <= p ==>
          Raw(AllocOps(), s, p) == Some(allocs[b]))
    && (forall p: int :: Raw(AllocOps(), s, p).Some? && !(0 <= p < Extent(nul)) ==>
          IsAllocation(allocs, Raw(AllocOps(), s, p).value, p))
  }

  /** Record i is that of the allocation around p. */
  ghost predicate IsAllocation(allocs: Allocs, i: AllocInfo, p: int) {
    i.access.addr in allocs && allocs[i.access.addr] == i && i.access.Touches(p)
  }

  ghost predicate Resolves(m: IntervalMap<Option<AllocInfo>>, allocs: Allocs, nul: NullRecord)
    reads m
  {
    m.Valid() && m.ops == AllocOps() && ResolvedBy(m.entries, allocs, nul)
  }

  /** Where the bytes of an access begin that the null record does not claim. */
  function Visible(nul: NullRecord, base: int): int { if base < Extent(nul) then Extent(nul) else base }

  /** A segment ends where its value does. */
  lemma SegmentEdges(s: seq<Cell<Option<AllocInfo>>>, it: nat)
    requires Canonical(AllocOps(), s) && Live(AllocOps(), s, it)
    ensures it + 1 < |s| && s[it].key < s[it + 1].key
    ensures Raw(AllocOps(), s, s[it].key - 1) != s[it].val && Raw(AllocOps(), s, s[it + 1].key) != s[it].val
    ensures forall p: int :: s[it].key <= p < s[it + 1].key ==> Raw(AllocOps(), s, p) == s[it].val
  {
    assert it + 1 < |s|;
    var key, next := s[it].key, s[it + 1].key;
    assert it > 0 ==> s[it - 1].key < key;
    assert it + 2 < |s| ==> next < s[it + 2].key;
    RawAt(AllocOps(), s, it, key - 1);
    RawAt(AllocOps(), s, it + 2, next);
    forall p: int | key <= p < next ensures Raw(AllocOps(), s, p) == s[it].val { RawAt(AllocOps(), s, it + 1, p); }
  }

  /** A segment that holds a record is all the null record claims, or all of an allocation that it does not claim. */
  lemma SegmentIsAllocation(s: seq<Cell<Option<AllocInfo>>>, allocs: Allocs, nul: NullRecord, it: nat)
    requires WellAllocated(allocs) && Canonical(AllocOps(), s) && ResolvedBy(s, allocs, nul) && Live(AllocOps(), s, it)
    ensures it + 1 < |s| && s[it].val.Some?
    ensures s[it].key < Extent(nul) ==> nul == s[it].val && s[it].key == 0 && s[it + 1].key == Extent(nul)
    ensures Extent(nul) <= s[it].key ==> var i := s[it].val.value;
      i.access.addr in allocs && allocs[i.access.addr] == i &&
      s[it].key == Visible(nul, i.access.addr) && s[it + 1].key == i.access.addr + i.access.size
  {
    SegmentEdges(s, it);
    SegmentOwner(s, allocs, nul, s[it].key, s[it + 1].key, s[it].val);
  }

  /** Where a record begins and ends that holds for [key, next) and neither just before nor just after. */
  lemma SegmentOwner(s: seq<Cell<Option<AllocInfo>>>, allocs: Allocs, nul: NullRecord, key: int, next: int,
                     val: Option<AllocInfo>)
    requires WellAllocated(allocs) && ResolvedBy(s, allocs, nul) && val.Some? && key < next
    requires forall p: int :: key <= p < next ==> Raw(AllocOps(), s, p) == val
    requires Raw(AllocOps(), s, key - 1) != val && Raw(AllocOps(), s, next) != val
    ensures key < Extent(nul) ==> nul == val && key == 0 && next == Extent(nul)
    ensures Extent(nul) <= key ==> var i := val.value;
      i.access.addr in allocs && allocs[i.access.addr] == i &&
      key == Visible(nul, i.access.addr) && next == i.access.addr + i.access.size
  {
    assert Raw(AllocOps(), s, key) == val && Raw(AllocOps(), s, next - 1) == val;
    if key <= Extent(nul) < next { assert Raw(AllocOps(), s, Extent(nul)) == val; }
    if key <= Extent(nul) - 1 < next { assert Raw(AllocOps(), s, Extent(nul) - 1) == val; }
  }

  /** The hazard pointers that currently protect the allocation containing p. */
  ghost function Protecting(hps: map<int, int>, allocs: Allocs, p: int): set<int> {
    set h | h in hps && hps[h] in allocs && allocs[hps[h]].access.Touches(p)
  }

  lemma Member<T>(s: set<T>) returns (x: T)
    requires |s| > 0
    ensures x in s
  {
    assert s != {};
    x :| x in s;
  }

  lemma SomeProtect(hps: map<int, int>, allocs: Allocs, p: int)
    ensures |Protecting(hps, allocs, p)| > 0 <==>
      exists h :: h in hps && hps[h] in allocs && allocs[hps[h]].access.Touches(p)
  {
    var s := Protecting(hps, allocs, p);
    if |s| > 0 {
      var h := Member(s);
      assert h in hps;
    }
    if h: int :| h in hps && hps[h] in allocs && allocs[hps[h]].access.Touches(p) {
      assert h in Protecting(hps, allocs, p);
    }
  }

  /** Redirecting one hazard pointer moves one unit of count. */
  lemma Redirect(hps: map<int, int>, allocs: Allocs, hp: int, prot: int, p: int)
    ensures |Protecting(hps[hp := prot], allocs, p)| ==
      |Protecting(hps, allocs, p)|
      - (if hp in hps && hps[hp] in allocs && allocs[hps[hp]].access.Touches(p) then 1 else 0)
      + (if prot in allocs && allocs[prot].access.Touches(p) then 1 else 0)
  {
    var was, now := Protecting(hps, allocs, p), Protecting(hps[hp := prot], allocs, p);
    forall h | h in was - {hp} ensures h in now - {hp} { }
    forall h | h in now - {hp} ensures h in was - {hp} { }
    assert was - {hp} == now - {hp};
    assert hp in now <==> prot in allocs && allocs[prot].access.Touches(p);
    SizeWithout(was, hp);
    SizeWithout(now, hp);
  }

  /** The counts of the bytes of the allocation that pointer hp protects, if any, have changed. */
  ghost predicate Shifted(was: seq<Cell<int>>, now: seq<Cell<int>>, hps: map<int, int>, allocs: Allocs, hp: int,
                          count: int)
  {
    forall p: int ::
      Raw(CountOps(), now, p) == Raw(CountOps(), was, p) + if Guards(hps, allocs, hp, p) then count else 0
  }

  ghost predicate Guards(hps: map<int, int>, allocs: Allocs, hp: int, p: int) {
    hp in hps && hps[hp] in allocs && allocs[hps[hp]].access.Touches(p)
  }

  ghost predicate Counted(s: seq<Cell<int>>, hps: map<int, int>, allocs: Allocs) {
    forall p: int :: Raw(CountOps(), s, p) == |Protecting(hps, allocs, p)|
  }

  /** Letting go and taking hold keeps the counts exact. */
  lemma Redirected(was: seq<Cell<int>>, mid: seq<Cell<int>>, now: seq<Cell<int>>, hps: map<int, int>, allocs: Allocs,
                   hp: int, prot: int)
    requires Counted(was, hps, allocs)
    requires Shifted(was, mid, hps, allocs, hp, -1) && Shifted(mid, now, hps[hp := prot], allocs, hp, 1)
    ensures Counted(now, hps[hp := prot], allocs)
  {
    forall p: int ensures Raw(CountOps(), now, p) == |Protecting(hps[hp := prot], allocs, p)| {
      Redirect(hps, allocs, hp, prot, p);
      assert Guards(hps[hp := prot], allocs, hp, p) <==> prot in allocs && allocs[prot].access.Touches(p);
    }
  }

  /** A hazard pointer that is gone protects as little as one that holds null. */
  lemma DroppedSame(hps: map<int, int>, allocs: Allocs, hp: int)
    requires 0 !in allocs && hp in hps
    ensures forall p: int :: Protecting(hps - {hp}, allocs, p) == Protecting(hps[hp := 0], allocs, p)
  {
  }

  lemma SizeWithout<T>(s: set<T>, x: T)
    ensures |s| == |s - {x}| + if x in s then 1 else 0
  {
    if x in s { assert s == (s - {x}) + {x}; } else { assert s - {x} == s; }
  }

  /** Addresses in different places are apart, whatever their indices. */
  lemma PlacesApart(p: Place, i: nat, m: nat, q: Place, j: nat, n: nat)
    requires p.thread <= THREAD_LIMIT && q.thread <= THREAD_LIMIT
    requires i + m <= ALLOC_LIMIT && j + n <= ALLOC_LIMIT
    requires p != q || i + m <= j
    ensures Apart(Access(Address(p, i), m), Access(Address(q, j), n))
  {
    if p != q {
      if High(p) == High(q) { HighIsInjective(p, q); }
    }
  }

  /** Where an allocation was placed. */
  datatype Origin = Origin(place: Place, index: nat)

  type Pools = map<nat, nat>

  lemma NewStatic(ranges: set<(int, int)>, origins: map<int, Origin>, pools: Pools, o: Origin, size: nat, pool: nat)
    requires StaticsPlaced(ranges, origins, pools)
    requires o.place.region.Static? && o.place.thread == 0 && size > 0
    requires PoolOf(pools, 0, 0) <= o.index && o.index + size == pool <= ALLOC_LIMIT
    ensures var addr := Address(o.place, o.index);
      && StaticsPlaced(ranges + {(addr, addr + size - 1)}, origins[addr := o], pools[0 := pool])
      && forall r :: r in ranges && r.0 != 0 ==> r.1 < addr || addr + size - 1 < r.0
  {
    var addr := Address(o.place, o.index);
    forall r | r in ranges && r.0 != 0
      ensures (r.1 < addr || addr + size - 1 < r.0) && StaticPlaced(r, origins[addr := o], pools[0 := pool])
    {
      assert StaticPlaced(r, origins, pools);
      var q := origins[r.0];
      PlacesApart(q.place, q.index, r.1 - r.0 + 1, o.place, o.index, size);
    }
  }

  lemma NewDynamic(allocs: Allocs, origins: map<int, Origin>, pools: Pools, o: Origin, size: nat, pool: nat)
    requires Placed(allocs, origins, pools) && o.place.thread <= THREAD_LIMIT
    requires PoolOf(pools, o.place.thread, 1) <= o.index && o.index + size == pool <= ALLOC_LIMIT
    ensures Placed(allocs, origins, pools[o.place.thread := pool])
    ensures forall b :: b in allocs ==>
      Apart(allocs[b].access, Access(Address(o.place, o.index), size)) || allocs[b].access.addr != b
  {
    forall b | b in allocs
      ensures Apart(Access(b, allocs[b].access.size), Access(Address(o.place, o.index), size))
      ensures PlacedAt(b, allocs[b].access.size, origins[b], pools[o.place.thread := pool])
    {
      var q := origins[b];
      PlacesApart(q.place, q.index, allocs[b].access.size, o.place, o.index, size);
    }
  }

  lemma AboveDynamic(ranges: set<(int, int)>, origins: map<int, Origin>, pools: Pools, o: Origin, size: nat)
    requires StaticsPlaced(ranges, origins, pools)
    requires !o.place.region.Static? && o.place.thread <= THREAD_LIMIT && o.index + size <= ALLOC_LIMIT
    ensures forall r :: r in ranges && r.0 != 0 ==> Address(o.place, o.index) + size <= r.0
  {
    forall r | r in ranges && r.0 != 0 ensures Address(o.place, o.index) + size <= r.0 {
      assert StaticPlaced(r, origins, pools);
      assert High(o.place) < High(origins[r.0].place);
    }
  }

  function PoolOf(pools: Pools, t: nat, first: nat): nat {
    if t in pools then pools[t] else first
  }

  /** Every dynamic allocation lies below the pool of its thread; a fresh dynamic pool starts at 1. */
  ghost predicate Placed(allocs: Allocs, origins: map<int, Origin>, pools: Pools) {
    && (forall t :: t in pools ==> 1 <= pools[t] <= ALLOC_LIMIT)
    && allocs.Keys == origins.Keys
    && forall b :: b in origins ==> PlacedAt(b, allocs[b].access.size, origins[b], pools)
  }

  ghost predicate PlacedAt(b: int, size: nat, o: Origin, pools: Pools) {
    && b == Address(o.place, o.index) && !o.place.region.Static? && o.place.thread <= THREAD_LIMIT
    && 1 <= o.index && o.index + size <= PoolOf(pools, o.place.thread, 1)
  }

  /** A static range, given by its first and last address, lies below the static pool of thread 0. */
  ghost predicate StaticPlaced(r: (int, int), origins: map<int, Origin>, pools: Pools) {
    r.0 in origins &&
    var o := origins[r.0];
    && r.0 == Address(o.place, o.index) && o.place.region.Static? && o.place.thread == 0
    && r.0 <= r.1 && o.index + (r.1 - r.0 + 1) <= PoolOf(pools, 0, 0)
  }

  ghost predicate StaticsPlaced(ranges: set<(int, int)>, origins: map<int, Origin>, pools: Pools) {
    && (forall t :: t in pools ==> pools[t] <= ALLOC_LIMIT)
    && (forall r :: r in ranges && r.0 != 0 ==> StaticPlaced(r, origins, pools))
    && (forall r, q :: r in ranges && q in ranges && r.0 != 0 && q.0 != 0 && r != q ==> r.1 < q.0 || q.1 < r.0)
  }

  /** The count at each byte is the number of hazard pointers protecting the allocation that contains it. */
  ghost predicate Counts(m: IntervalMap<int>, hps: map<int, int>, allocs: Allocs)
    reads m
  {
    m.Valid() && m.ops == CountOps() && Counted(m.entries, hps, allocs)
  }

  /** Hazard pointers protect allocations or nothing. */
  ghost predicate ProtectsAllocs(hps: map<int, int>, allocs: Allocs) {
    forall h :: h in hps ==> hps[h] == 0 || hps[h] in allocs
  }

  /** Allocations and hazard pointers. */
  class HeapState {
    const allocInfoMap: IntervalMap<Option<AllocInfo>>
    var staticPool: Pools
    var dynamicPool: Pools
    /** First and last address of every static range. */
    var staticRanges: set<(int, int)>
    /** Hazard pointer to the base it protects, or 0. */
    var hpProtectMap: map<int, int>
    const hpProtectCount: IntervalMap<int>

    /** Since the state was cleared: the allocations made, by base address, the record filed for a denied request, and
        where everything was placed. */
    ghost var allocs: Allocs
    ghost var denied: NullRecord
    ghost var origins: map<int, Origin>
    ghost var staticOrigins: map<int, Origin>

    ghost function Objects(): set<object> { {this, allocInfoMap, hpProtectCount} }

    ghost predicate Valid()
      reads this, allocInfoMap, hpProtectCount
    {
      && Hazards()
      && Placed(allocs, origins, dynamicPool) && StaticsPlaced(staticRanges, staticOrigins, staticPool)
    }

    /** The part of validity that hazard pointers are about. */
    ghost predicate Hazards()
      reads this, allocInfoMap, hpProtectCount
    {
      && allocInfoMap as object != hpProtectCount
      && WellAllocated(allocs) && Resolves(allocInfoMap, allocs, denied)
      && ProtectsAllocs(hpProtectMap, allocs) && Counts(hpProtectCount, hpProtectMap, allocs)
    }

    constructor ()
      ensures Valid() && fresh(allocInfoMap) && fresh(hpProtectCount)
      ensures allocs == map[] && denied == None && hpProtectMap == map[] && dynamicPool == map[] && staticRanges == {}
    {
      var ai := new IntervalMap<Option<AllocInfo>>(AllocOps());
      var hc := new IntervalMap<int>(CountOps());
      allocInfoMap, hpProtectCount := ai, hc;
      staticPool, dynamicPool, staticRanges, hpProtectMap := map[], map[], {}, map[];
      allocs, denied, origins, staticOrigins := map[], None, map[], map[];
      new;
      assert forall p: int :: Protecting(hpProtectMap, allocs, p) == {};
    }

    method PlaceStatic(size: nat, alignment: nat, durable: bool, internal: bool) returns (addr: nat)
      requires StaticsPlaced(staticRanges, staticOrigins, staticPool) && 0 < size < WORD
      requires alignment == 0 || (PowerOfTwo(alignment) && alignment <= 0x8000_0000_0000_0000)
      modifies this`staticPool, this`staticRanges, this`staticOrigins
      ensures addr == 0 <==>
        RoundUp(PoolOf(old(staticPool), 0, 0), if alignment == 0 then 1 else alignment) + size >= ALLOC_LIMIT
      ensures staticRanges == old(staticRanges) + {(addr, addr + size - 1)}
      ensures StaticsPlaced(staticRanges, staticOrigins, staticPool)
      ensures addr != 0 ==> forall r :: r in old(staticRanges) && r.0 != 0 ==> r.1 < addr || addr + size - 1 < r.0
    {
      var g := Allocate(PoolOf(staticPool, 0, 0), size, alignment);
      if g.Denied? {
        addr := 0;
        staticRanges := staticRanges + {(0, size - 1)};
        return;
      }
      var place := Place(Static, 0, durable, internal);
      addr := Address(place, g.index);
      NewStatic(staticRanges, staticOrigins, staticPool, Origin(place, g.index), size, g.pool);
      staticPool := staticPool[0 := g.pool];
      staticOrigins := staticOrigins[addr := Origin(place, g.index)];
      staticRanges := staticRanges + {(addr, addr + size - 1)};
    }

    /** Registers a static range, apart from all others. A denied request is registered all the same, from null on. */
    method AddStaticRange(size: nat, alignment: nat, durable: bool, internal: bool) returns (addr: nat)
      requires Valid() && 0 < size < WORD
      requires alignment == 0 || (PowerOfTwo(alignment) && alignment <= 0x8000_0000_0000_0000)
      modifies this`staticPool, this`staticRanges, this`staticOrigins
      ensures addr == 0 <==>
        RoundUp(PoolOf(old(staticPool), 0, 0), if alignment == 0 then 1 else alignment) + size >= ALLOC_LIMIT
      ensures staticRanges == old(staticRanges) + {(addr, addr + size - 1)}
      ensures Valid()
      ensures addr != 0 ==> forall r :: r in old(staticRanges) && r.0 != 0 ==> r.1 < addr || addr + size - 1 < r.0
    {
      addr := PlaceStatic(size, alignment, durable, internal);
    }

    /** Takes a fresh address from the pool of the thread; null when the pool is exhausted. */
    method GetFreshAddr(thread: nat, size: nat, alignment: nat, region: Region, durable: bool, internal: bool)
      returns (addr: nat, ghost o: Origin)
      requires Placed(allocs, origins, dynamicPool) && StaticsPlaced(staticRanges, staticOrigins, staticPool)
      requires 0 < size < WORD && thread <= THREAD_LIMIT && !region.Static?
      requires PowerOfTwo(alignment) && 0 < alignment <= 0x8000_0000_0000_0000
      modifies this`dynamicPool
      ensures Placed(allocs, origins, dynamicPool)
      ensures var index := RoundUp(PoolOf(old(dynamicPool), thread, 1), alignment);
        if index + size >= ALLOC_LIMIT then addr == 0 && dynamicPool == old(dynamicPool)
        else addr == Address(Place(region, thread, durable, internal), index) &&
             dynamicPool == old(dynamicPool)[thread := index + size]
      ensures addr == 0 <==> RoundUp(PoolOf(old(dynamicPool), thread, 1), alignment) + size >= ALLOC_LIMIT
      ensures addr != 0 ==> PlacedAt(addr, size, o, dynamicPool)
      ensures addr != 0 ==>
        forall b :: b in allocs && allocs[b].access.addr == b ==> Apart(allocs[b].access, Access(addr, size))
      ensures addr != 0 ==> forall r :: r in staticRanges && r.0 != 0 ==> addr + size <= r.0
      ensures addr != 0 && alignment <= INDEX_SPACE ==> Multiple(addr, alignment)
    {
      var g := Allocate(PoolOf(dynamicPool, thread, 1), size, alignment);
      var place := Place(region, thread, durable, internal);
      o := Origin(place, 0);
      if g.Denied? { return 0, o; }
      addr, o := Address(place, g.index), Origin(place, g.index);
      NewDynamic(allocs, origins, dynamicPool, o, size, g.pool);
      AboveDynamic(staticRanges, staticOrigins, staticPool, o, size);
      dynamicPool := dynamicPool[thread := g.pool];
      RoundUpIsLeast(PoolOf(old(dynamicPool), thread, 1), alignment, 0);
      if alignment <= INDEX_SPACE { AlignedAddress(place, g.index, alignment); }
    }

    /** Files the record of an allocation for all bytes that the null record does not claim. */
    method PutRecord(start: int, end: int, info: AllocInfo)
      requires WellAllocated(allocs) && Resolves(allocInfoMap, allocs, denied)
      requires WellAllocated(allocs[info.access.addr := info])
      requires info.access.addr in allocs ==> allocs[info.access.addr].access == info.access
      requires start == Visible(denied, info.access.addr) < end == info.access.addr + info.access.size
      modifies this`allocs, allocInfoMap
      ensures allocs == old(allocs)[info.access.addr := info]
      ensures WellAllocated(allocs) && Resolves(allocInfoMap, allocs, denied)
    {
      allocInfoMap.Add(start, end, Some(info));
      Overwritten(old(allocInfoMap.entries), allocInfoMap.entries, allocs, denied, info);
      allocs := allocs[info.access.addr := info];
    }

    /** Files a record for the bytes from null on. */
    method PutNull(info: AllocInfo)
      requires WellAllocated(allocs) && Resolves(allocInfoMap, allocs, denied)
      requires info.access.addr == 0 && info.access.size > 0
      requires denied.Some? ==> denied.value.access == info.access
      modifies this`denied, allocInfoMap
      ensures denied == Some(info) && Resolves(allocInfoMap, allocs, denied)
    {
      allocInfoMap.Add(0, info.access.size, Some(info));
      NullWritten(old(allocInfoMap.entries), allocInfoMap.entries, allocs, denied, info);
      denied := Some(info);
    }

    /** As long as the thread's index space lasts, an allocation is non-null, aligned and apart from all others. The
        check that its address is free fails exactly when the record of a denied request claims it; the program stops
        there. A denied request is filed all the same, from null on. */
    method OnAlloc(pos: Event, size: nat, alignment: nat, region: Region, durable: bool, internal: bool)
      returns (addr: nat, ok: bool)
      requires Valid() && 0 < size < WORD && pos.thread <= THREAD_LIMIT && !region.Static?
      requires PowerOfTwo(alignment) && 0 < alignment <= 0x8000_0000_0000_0000
      modifies this`dynamicPool, this`allocs, this`denied, this`origins, allocInfoMap
      ensures var index := RoundUp(PoolOf(old(dynamicPool), pos.thread, 1), alignment);
        if index + size >= ALLOC_LIMIT then addr == 0 && dynamicPool == old(dynamicPool)
        else addr == Address(Place(region, pos.thread, durable, internal), index) &&
             dynamicPool == old(dynamicPool)[pos.thread := index + size]
      ensures addr == 0 <==> RoundUp(PoolOf(old(dynamicPool), pos.thread, 1), alignment) + size >= ALLOC_LIMIT
      ensures ok <==> Extent(old(denied)) <= addr
      ensures ok <==> !(old(denied).Some? && old(denied).value.access.Touches(addr))
      ensures Valid()
      ensures var info := AllocInfo(pos, Access(addr, size), alignment, None, false);
        && allocs == (if ok && addr != 0 then old(allocs)[addr := info] else old(allocs))
        && denied == (if ok && addr == 0 then Some(info) else old(denied))
      ensures addr !in old(allocs)
      ensures addr != 0 ==> forall r :: r in staticRanges && r.0 != 0 ==> addr + size <= r.0
      ensures addr != 0 && alignment <= INDEX_SPACE ==> Multiple(addr, alignment)
    {
      ghost var o;
      addr, o := GetFreshAddr(pos.thread, size, alignment, region, durable, internal);
      ok := FileFresh(AllocInfo(pos, Access(addr, size), alignment, None, false), o);
    }

    /** The check that the address is free, and the record. */
    method FileFresh(info: AllocInfo, ghost o: Origin) returns (ok: bool)
      requires Hazards() && Placed(allocs, origins, dynamicPool) && info.access.size > 0
      requires info.access.addr != 0 ==>
        PlacedAt(info.access.addr, info.access.size, o, dynamicPool) &&
        forall b :: b in allocs ==> Apart(allocs[b].access, info.access)
      modifies this`allocs, this`denied, this`origins, allocInfoMap
      ensures Hazards() && Placed(allocs, origins, dynamicPool)
      ensures (ok <==> Extent(old(denied)) <= info.access.addr) && info.access.addr !in old(allocs)
      ensures allocs == if ok && info.access.addr != 0 then old(allocs)[info.access.addr := info] else old(allocs)
      ensures denied == if ok && info.access.addr == 0 then Some(info) else old(denied)
    {
      FreshIsUnresolved(allocInfoMap, allocs, denied, info.access);
      var it := allocInfoMap.FindInternal(info.access.addr);
      ok := it == |allocInfoMap.entries|;
      if !ok { return; }
      if info.access.addr == 0 { PutNull(info); } else { RecordAlloc(info, o); }
    }

    /** Files the record of a fresh allocation. */
    method RecordAlloc(info: AllocInfo, ghost o: Origin)
      requires Hazards() && Placed(allocs, origins, dynamicPool)
      requires info.access.size > 0 && Extent(denied) <= info.access.addr != 0
      requires PlacedAt(info.access.addr, info.access.size, o, dynamicPool)
      requires forall b :: b in allocs ==> Apart(allocs[b].access, info.access)
      modifies this`allocs, this`origins, allocInfoMap
      ensures Hazards() && Placed(allocs, origins, dynamicPool)
      ensures info.access.addr !in old(allocs) && allocs == old(allocs)[info.access.addr := info]
    {
      FreshWellAllocated(allocs, info);
      PutRecord(info.access.addr, info.access.addr + info.access.size, info);
      origins := origins[info.access.addr := o];
      forall p: int ensures Protecting(hpProtectMap, allocs, p) == Protecting(hpProtectMap, old(allocs), p) {
        FreshKeepsCounts(hpProtectMap, old(allocs), info, p);
      }
    }

    /** A free marks the record that claims addr, for all bytes that hold it. */
    method MarkFreed(pos: Event, addr: int, isRetire: bool)
      requires Hazards() && allocInfoMap.At(addr).Some?
      modifies this`allocs, this`denied, allocInfoMap
      ensures Hazards() && SameRanges(allocs, old(allocs))
      ensures var i := old(allocInfoMap.At(addr)).value.(freePos := Some(pos), isRetire := isRetire);
        && allocs == (if addr < Extent(old(denied)) then old(allocs) else old(allocs)[i.access.addr := i])
        && denied == (if addr < Extent(old(denied)) then Some(i) else old(denied))
    {
      var it := allocInfoMap.FindInternal(addr);
      SegmentIsAllocation(allocInfoMap.entries, allocs, denied, it);
      var newVal := allocInfoMap.entries[it].val.value.(freePos := Some(pos), isRetire := isRetire);
      Refile(allocInfoMap.entries[it].key, allocInfoMap.entries[it + 1].key, newVal);
      forall p: int ensures Protecting(hpProtectMap, allocs, p) == Protecting(hpProtectMap, old(allocs), p) { }
    }

    /** Replaces the record of a segment by one for the same range. */
    method Refile(start: int, end: int, info: AllocInfo)
      requires WellAllocated(allocs) && Resolves(allocInfoMap, allocs, denied)
      requires if start < Extent(denied)
        then denied.Some? && info.access == denied.value.access && start == 0 && end == Extent(denied)
               else info.access.addr in allocs && allocs[info.access.addr].access == info.access &&
                    start == Visible(denied, info.access.addr) < end == info.access.addr + info.access.size
      modifies this`allocs, this`denied, allocInfoMap
      ensures WellAllocated(allocs) && Resolves(allocInfoMap, allocs, denied)
      ensures allocs == if start < Extent(old(denied)) then old(allocs) else old(allocs)[info.access.addr := info]
      ensures denied == if start < Extent(old(denied)) then Some(info) else old(denied)
    {
      ghost var was := allocInfoMap.entries;
      allocInfoMap.Add(start, end, Some(info));
      if start < Extent(denied) {
        NullWritten(was, allocInfoMap.entries, allocs, denied, info);
        denied := Some(info);
      } else {
        Overwritten(was, allocInfoMap.entries, allocs, denied, info);
        allocs := allocs[info.access.addr := info];
      }
    }

    /** Null, or the base of an allocation whose record nothing overwrote. */
    ghost predicate Intact(target: int)
      reads this
    {
      target == 0 || (target in allocs && Extent(denied) <= target)
    }

    /** onFree: the record is marked, and a hazard pointer stored at addr lets go; `ok` is false when there is no record
        at addr, or when the record of the allocation the pointer protects was overwritten; the program stops there. */
    method OnFree(pos: Event, addr: int, isRetire: bool) returns (ok: bool)
      requires Valid()
      modifies this`allocs, this`denied, this`hpProtectMap, allocInfoMap, hpProtectCount
      ensures Valid()
      ensures old(allocInfoMap.At(addr)).None? ==> allocs == old(allocs) && denied == old(denied)
      ensures old(allocInfoMap.At(addr)).Some? ==>
        var i := old(allocInfoMap.At(addr)).value.(freePos := Some(pos), isRetire := isRetire);
        && allocs == (if addr < Extent(old(denied)) then old(allocs) else old(allocs)[i.access.addr := i])
        && denied == (if addr < Extent(old(denied)) then Some(i) else old(denied))
      ensures ok <==>
        old(allocInfoMap.At(addr)).Some? && (addr !in old(hpProtectMap) || old(Intact(hpProtectMap[addr])))
      ensures hpProtectMap == if ok then old(hpProtectMap) - {addr} else old(hpProtectMap)
    {
      ok := Free(pos, addr, isRetire);
    }

    /** The same for the heap as far as hazard pointers are concerned. */
    method Free(pos: Event, addr: int, isRetire: bool) returns (ok: bool)
      requires Hazards()
      modifies this`allocs, this`denied, this`hpProtectMap, allocInfoMap, hpProtectCount
      ensures Hazards() && SameRanges(allocs, old(allocs))
      ensures old(allocInfoMap.At(addr)).None? ==> allocs == old(allocs) && denied == old(denied)
      ensures old(allocInfoMap.At(addr)).Some? ==>
        var i := old(allocInfoMap.At(addr)).value.(freePos := Some(pos), isRetire := isRetire);
        && allocs == (if addr < Extent(old(denied)) then old(allocs) else old(allocs)[i.access.addr := i])
        && denied == (if addr < Extent(old(denied)) then Some(i) else old(denied))
      ensures ok <==>
        old(allocInfoMap.At(addr)).Some? && (addr !in old(hpProtectMap) || old(Intact(hpProtectMap[addr])))
      ensures hpProtectMap == if ok then old(hpProtectMap) - {addr} else old(hpProtectMap)
    {
      var it := allocInfoMap.FindInternal(addr);
      if it == |allocInfoMap.entries| { return false; }
      MarkFreed(pos, addr, isRetire);
      ok := DropPointer(addr);
    }

    /** The hazard pointer stored at addr, if any, disappears. */
    method DropPointer(addr: int) returns (ok: bool)
      requires Hazards()
      modifies this`hpProtectMap, hpProtectCount
      ensures Hazards() && (ok <==> addr !in old(hpProtectMap) || Intact(old(hpProtectMap)[addr]))
      ensures hpProtectMap == if ok then old(hpProtectMap) - {addr} else old(hpProtectMap)
    {
      if addr !in hpProtectMap { return true; }
      ok := LetGo(addr);
      if !ok { return; }
      Redirected(old(hpProtectCount.entries), hpProtectCount.entries, hpProtectCount.entries, hpProtectMap, allocs,
        addr, 0);
      DroppedSame(hpProtectMap, allocs, addr);
      hpProtectMap := hpProtectMap - {addr};
    }

    /** The protection a hazard pointer gives, if any, is taken back from the counts. */
    method LetGo(hpAddr: int) returns (ok: bool)
      requires Hazards()
      modifies hpProtectCount
      ensures hpProtectCount.Valid() && (ok <==> (hpAddr in hpProtectMap ==> Intact(hpProtectMap[hpAddr])))
      ensures !ok ==> hpProtectCount.entries == old(hpProtectCount.entries)
      ensures ok ==> Shifted(old(hpProtectCount.entries), hpProtectCount.entries, hpProtectMap, allocs, hpAddr, -1)
    {
      ok := true;
      if hpAddr in hpProtectMap && hpProtectMap[hpAddr] != 0 { ok := UpdateHpCount(hpAddr, -1); }
    }

    /** Changes the count of the bytes of the protected allocation; `ok` is false, and nothing changes, when the address
        protected is not the base of an allocation, or the record found there is not its own. */
    method UpdateHpCount(addr: int, count: int) returns (ok: bool)
      requires allocInfoMap as object != hpProtectCount && WellAllocated(allocs)
      requires Resolves(allocInfoMap, allocs, denied) && hpProtectCount.Valid() && hpProtectCount.ops == CountOps()
      requires addr in hpProtectMap && hpProtectMap[addr] != 0
      modifies hpProtectCount
      ensures hpProtectCount.Valid() && (ok <==> Intact(hpProtectMap[addr]))
      ensures !ok ==> hpProtectCount.entries == old(hpProtectCount.entries)
      ensures ok ==> Shifted(old(hpProtectCount.entries), hpProtectCount.entries, hpProtectMap, allocs, addr, count)
    {
      var protectedAddr := hpProtectMap[addr];
      RecordAt(allocInfoMap.entries, allocs, denied, protectedAddr);
      var found := GetAllocAccess(protectedAddr);
      if found.None? || found.value.addr != protectedAddr { return false; }
      var access := found.value;
      hpProtectCount.Add(access.addr, access.addr + access.size, count);
      CountsAdded(old(hpProtectCount.entries), hpProtectCount.entries, access, count);
      ok := true;
    }

    /** Redirects a hazard pointer to an allocation, or to nothing; `ok` is false exactly when the record of the
        allocation it protected was overwritten, or what it is to protect is neither null nor an allocation whose
        record was not. */
    method OnProtect(hpAddr: int, protAddr: int) returns (ok: bool)
      requires Valid()
      modifies this`hpProtectMap, hpProtectCount
      ensures ok <==> (hpAddr in old(hpProtectMap) ==> Intact(old(hpProtectMap)[hpAddr])) && Intact(protAddr)
      ensures ok ==> Valid() && hpProtectMap == old(hpProtectMap)[hpAddr := protAddr]
    {
      ok := Repoint(hpAddr, protAddr);
    }

    method Repoint(hpAddr: int, protAddr: int) returns (ok: bool)
      requires Hazards()
      modifies this`hpProtectMap, hpProtectCount
      ensures ok <==> (hpAddr in old(hpProtectMap) ==> Intact(old(hpProtectMap)[hpAddr])) && Intact(protAddr)
      ensures ok ==> Hazards() && hpProtectMap == old(hpProtectMap)[hpAddr := protAddr]
    {
      ok := LetGo(hpAddr);
      if !ok { return; }
      ghost var mid := hpProtectCount.entries;
      hpProtectMap := hpProtectMap[hpAddr := protAddr];
      if protAddr != 0 {
        ok := UpdateHpCount(hpAddr, 1);
        if !ok { return; }
      }
      Redirected(old(hpProtectCount.entries), mid, hpProtectCount.entries, old(hpProtectMap), allocs, hpAddr, protAddr);
    }

    /** An atomic store over a hazard pointer ends its protection. */
    method OnStoreToHp(addr: int) returns (ok: bool)
      requires Valid()
      modifies this`hpProtectMap, hpProtectCount
      ensures Valid() && (ok <==> addr !in old(hpProtectMap) || Intact(old(hpProtectMap)[addr]))
      ensures hpProtectMap ==
        if ok && addr in old(hpProtectMap) then old(hpProtectMap)[addr := 0] else old(hpProtectMap)
    {
      ok := NullPointer(addr);
    }

    method NullPointer(addr: int) returns (ok: bool)
      requires Hazards()
      modifies this`hpProtectMap, hpProtectCount
      ensures Hazards() && (ok <==> addr !in old(hpProtectMap) || Intact(old(hpProtectMap)[addr]))
      ensures hpProtectMap ==
        if ok && addr in old(hpProtectMap) then old(hpProtectMap)[addr := 0] else old(hpProtectMap)
    {
      ok := true;
      if addr in hpProtectMap && hpProtectMap[addr] != 0 {
        ok := UpdateHpCount(addr, -1);
        if !ok { return; }
        Redirected(old(hpProtectCount.entries), hpProtectCount.entries, hpProtectCount.entries, hpProtectMap, allocs,
          addr, 0);
        hpProtectMap := hpProtectMap[addr := 0];
      }
    }

    /** Every address inside an allocation, and no other, resolves to exactly that allocation, unless the null record
        claims it. */
    method GetAllocAccess(addr: int) returns (access: Option<Access>)
      requires WellAllocated(allocs) && Resolves(allocInfoMap, allocs, denied)
      ensures access == if allocInfoMap.At(addr).None? then None else Some(allocInfoMap.At(addr).value.access)
      ensures 0 <= addr < Extent(denied) ==> access == Some(Access(0, Extent(denied)))
      ensures !(0 <= addr < Extent(denied)) ==>
        (access.Some? <==> exists b :: b in allocs && allocs[b].access.Touches(addr))
      ensures !(0 <= addr < Extent(denied)) && access.Some? ==>
        forall b :: b in allocs ==> (allocs[b].access.Touches(addr) <==> allocs[b].access == access.value)
    {
      var it := allocInfoMap.FindInternal(addr);
      if it == |allocInfoMap.entries| { return None; }
      access := Some(allocInfoMap.entries[it].val.value.access);
    }

    /** Some hazard pointer protects the allocation that contains p. */
    ghost predicate Guarded(p: int)
      reads this
    {
      exists h :: h in hpProtectMap && hpProtectMap[h] in allocs && allocs[hpProtectMap[h]].access.Touches(p)
    }

    /** Every byte of the access is protected. */
    ghost predicate Covered(access: Access)
      reads this
    {
      forall p: int :: access.Touches(p) ==> Guarded(p)
    }

    method IsProtected(access: Access) returns (all: bool)
      requires Counts(hpProtectCount, hpProtectMap, allocs)
      ensures all <==> Covered(access)
    {
      all := PositiveThroughout(hpProtectCount, access);
      forall p: int ensures Raw(hpProtectCount.ops, hpProtectCount.entries, p) > 0 <==> Guarded(p) {
        assert hpProtectCount.At(p) == |Protecting(hpProtectMap, allocs, p)|;
        SomeProtect(hpProtectMap, allocs, p);
      }
      assert forall p: int :: access.Touches(p) <==> access.addr <= p < access.addr + access.size;
    }

    /** clear, as far as the heap is concerned. */
    method ClearAllocations()
      requires Valid()
      modifies this`allocs, this`denied, this`origins, this`dynamicPool, this`hpProtectMap, allocInfoMap, hpProtectCount
      ensures Valid() && allocs == map[] && denied == None && hpProtectMap == map[]
      ensures (forall t: nat :: PoolOf(dynamicPool, t, 1) == 1) && forall t :: t in dynamicPool ==> dynamicPool[t] == 1
      ensures staticPool == old(staticPool) && staticRanges == old(staticRanges)
    {
      ClearPools();
      ClearHazards();
    }

    /** Restricting the allocator to the empty view: the dynamic pools start over. */
    method ClearPools()
      modifies this`dynamicPool
      ensures forall t: nat :: PoolOf(dynamicPool, t, 1) == 1
      ensures forall t :: t in dynamicPool ==> dynamicPool[t] == 1
    {
      dynamicPool := map t | t in dynamicPool :: 1;
    }

    method ClearHazards()
      requires allocInfoMap as object != hpProtectCount && allocInfoMap.Valid() && allocInfoMap.ops == AllocOps()
      requires hpProtectCount.Valid() && hpProtectCount.ops == CountOps()
      modifies this`allocs, this`denied, this`origins, this`hpProtectMap, allocInfoMap, hpProtectCount
      ensures Hazards() && allocs == map[] && origins == map[] && denied == None && hpProtectMap == map[]
    {
      allocInfoMap.Clear();
      hpProtectMap := map[];
      hpProtectCount.Clear();
      allocs, denied, origins := map[], None, map[];
      assert forall p: int :: Protecting(hpProtectMap, allocs, p) == {};
    }
  }

  ghost predicate PositiveOn(ops: Ops<int>, s: seq<Cell<int>>, start: int, end: int) {
    forall p: int :: start <= p < end ==> Raw(ops, s, p) > 0
  }

  /** The segments before `it` have been followed up to `upto`. */
  ghost predicate Followed(ops: Ops<int>, s: seq<Cell<int>>, it: nat, start: int, end: int, upto: int) {
    && start <= upto && PositiveOn(ops, s, start, upto)
    && forall j: nat :: j < it && Overlaps(ops, s, j, start, end) ==>
        j + 1 < |s| && (s[j + 1].key <= upto || s[j].val <= 0)
  }

  /** The loop of isProtected: follows the segments with a positive count through the access. */
  method PositiveThroughout(m: IntervalMap<int>, access: Access) returns (all: bool)
    requires m.Valid() && m.ops == CountOps()
    ensures all <==> PositiveOn(m.ops, m.entries, access.addr, access.addr + access.size)
  {
    ghost var ops, s := m.ops, m.entries;
    var start, end := access.addr, access.addr + access.size;
    var it, ie := m.Range(start, end);
    var lastUncovered := access.addr;
    while it != ie
      invariant it <= ie <= |s| && (it < |s| ==> Live(ops, s, it))
      invariant Followed(ops, s, it, start, end, lastUncovered)
      decreases ie - it
    {
      assert it + 1 < |s|;
      ghost var was := lastUncovered;
      if m.entries[it].val > 0 && m.entries[it].key <= lastUncovered && m.entries[it + 1].key > lastUncovered {
        lastUncovered := m.entries[it + 1].key;
      }
      if m.entries[it].key > lastUncovered {
        GapBefore(ops, s, it, start, end, lastUncovered);
        return false;
      }
      FollowOne(ops, s, it, start, end, was, lastUncovered);
      it := m.SkipIdentity(it + 1);
    }
    all := lastUncovered >= end;
    if !all { GapBefore(ops, s, ie, start, end, lastUncovered); }
  }

  lemma FollowOne(ops: Ops<int>, s: seq<Cell<int>>, it: nat, start: int, end: int, was: int, upto: int)
    requires Sorted(s) && it + 1 < |s| && Followed(ops, s, it, start, end, was) && s[it].key <= upto
    requires upto == if s[it].val > 0 && s[it].key <= was && s[it + 1].key > was then s[it + 1].key else was
    ensures Followed(ops, s, it + 1, start, end, upto)
  {
    forall p: int | was <= p < upto ensures Raw(ops, s, p) > 0 { RawAt(ops, s, it + 1, p); }
  }

  /** The first point not followed has no positive count when the next segment to visit starts after it. */
  lemma GapBefore(ops: Ops<int>, s: seq<Cell<int>>, it: nat, start: int, end: int, p: int)
    requires ops == CountOps() && Sorted(s) && it <= |s| && Followed(ops, s, it, start, end, p)
    requires it < |s| ==> s[it].key > p || forall j: nat :: it <= j ==> !Overlaps(ops, s, j, start, end)
    requires p < end
    ensures !PositiveOn(ops, s, start, end)
  {
    var k := CountUpTo(s, p);
    forall j | it <= j < |s| ensures s[it].key <= s[j].key { }
    if k > 0 && Live(ops, s, k - 1) { assert Overlaps(ops, s, k - 1, start, end); }
    assert Raw(ops, s, p) <= 0;
  }

  /** The record found at an address is filed under that address exactly at the base of an allocation that the null
      record does not claim, and at null if there is a null record. */
  lemma RecordAt(s: seq<Cell<Option<AllocInfo>>>, allocs: Allocs, nul: NullRecord, b: int)
    requires WellAllocated(allocs) && ResolvedBy(s, allocs, nul)
    ensures Raw(AllocOps(), s, b).Some? && Raw(AllocOps(), s, b).value.access.addr == b <==>
      if b == 0 then nul.Some? else b in allocs && Extent(nul) <= b
    ensures b == 0 && nul.Some? ==> Raw(AllocOps(), s, b) == nul
    ensures b in allocs && Extent(nul) <= b ==> Raw(AllocOps(), s, b) == Some(allocs[b])
  {
    assert b in allocs ==> allocs[b].access.Touches(b);
  }

  lemma CountsAdded(was: seq<Cell<int>>, now: seq<Cell<int>>, access: Access, count: int)
    requires count != 0 && access.size > 0 ==>
      RewrittenOn(CountOps(), was, now, Aggregate(count), access.addr, access.addr + access.size)
    requires count == 0 || access.size == 0 ==> now == was
    ensures forall p: int ::
      Raw(CountOps(), now, p) == Raw(CountOps(), was, p) + if access.Touches(p) then count else 0
  {
    forall p: int
      ensures Raw(CountOps(), now, p) == Raw(CountOps(), was, p) + if access.Touches(p) then count else 0
    {
      if count != 0 && access.size > 0 {
        assert Rewritten(CountOps(), was, now, Aggregate(count), access.addr, access.addr + access.size, p);
      }
    }
  }

  /** The same bases with the same ranges. */
  ghost predicate SameRanges(a: Allocs, b: Allocs) {
    a.Keys == b.Keys && forall x :: x in a ==> a[x].access == b[x].access
  }

  /** A fresh range, and the null address, has no record exactly outside what the null record claims. */
  lemma FreshIsUnresolved(m: IntervalMap<Option<AllocInfo>>, allocs: Allocs, nul: NullRecord, a: Access)
    requires WellAllocated(allocs) && Resolves(m, allocs, nul) && a.size > 0 && a.addr >= 0
    requires a.addr == 0 || forall b :: b in allocs ==> Apart(allocs[b].access, a)
    ensures m.At(a.addr) == None <==> Extent(nul) <= a.addr
    ensures a.addr !in allocs
  {
  }

  /** After a record is written over what the null record leaves of its range, the map resolves the updated set of
      allocations. */
  lemma Overwritten(was: seq<Cell<Option<AllocInfo>>>, now: seq<Cell<Option<AllocInfo>>>, before: Allocs,
                    nul: NullRecord, info: AllocInfo)
    requires WellAllocated(before[info.access.addr := info]) && ResolvedBy(was, before, nul)
    requires info.access.addr in before ==> before[info.access.addr].access == info.access
    requires RewrittenOn(AllocOps(), was, now, Aggregate(Some(info)),
                         Visible(nul, info.access.addr), info.access.addr + info.access.size)
    ensures ResolvedBy(now, before[info.access.addr := info], nul)
  {
    var after := before[info.access.addr := info];
    forall p: int
      ensures Raw(AllocOps(), now, p) ==
        if info.access.Touches(p) && Extent(nul) <= p then Some(info) else Raw(AllocOps(), was, p)
    {
      assert Rewritten(AllocOps(), was, now, Aggregate(Some(info)),
                       Visible(nul, info.access.addr), info.access.addr + info.access.size, p);
    }
    forall b, p: int | b in after && after[b].access.Touches(p) && Extent(nul) <= p
      ensures Raw(AllocOps(), now, p) == Some(after[b])
    {
      if b != info.access.addr { assert Apart(after[b].access, after[info.access.addr].access); }
    }
  }

  /** The record of a denied request overwrites whatever lies in its range. */
  lemma NullWritten(was: seq<Cell<Option<AllocInfo>>>, now: seq<Cell<Option<AllocInfo>>>, allocs: Allocs,
                    nul: NullRecord, info: AllocInfo)
    requires ResolvedBy(was, allocs, nul) && info.access.addr == 0 && info.access.size > 0
    requires nul.Some? ==> nul.value.access == info.access
    requires RewrittenOn(AllocOps(), was, now, Aggregate(Some(info)), 0, info.access.size)
    ensures ResolvedBy(now, allocs, Some(info))
  {
    forall p: int
      ensures Raw(AllocOps(), now, p) == if 0 <= p < info.access.size then Some(info) else Raw(AllocOps(), was, p)
    {
      assert Rewritten(AllocOps(), was, now, Aggregate(Some(info)), 0, info.access.size, p);
    }
  }

  lemma FreshWellAllocated(allocs: Allocs, info: AllocInfo)
    requires WellAllocated(allocs) && info.access.size > 0 && info.access.addr > 0
    requires forall b :: b in allocs ==> Apart(allocs[b].access, info.access)
    ensures WellAllocated(allocs[info.access.addr := info])
  {
  }

  lemma FreshKeepsCounts(hps: map<int, int>, before: Allocs, info: AllocInfo, p: int)
    requires info.access.addr !in before && info.access.addr != 0
    requires forall h :: h in hps ==> hps[h] == 0 || hps[h] in before
    ensures Protecting(hps, before[info.access.addr := info], p) == Protecting(hps, before, p)
  {
    assert forall h :: h in hps ==> hps[h] != info.access.addr;
  }

  /** A heap with nothing in it, apart from what there is. */
  method NewHeap(ghost others: set<object>) returns (heap: HeapState)
    ensures heap.Valid() && heap.Objects() !! others
    ensures heap.allocs == map[] && heap.denied == None && heap.hpProtectMap == map[]
  {
    heap := new HeapState();
  }

  /** Two requests after which the check for freshness fails: the second one is granted an address that the record of
      the first, denied one claims. */
  method FreshnessCanFail() returns (heap: HeapState, first: nat, second: nat, ok: bool)
    ensures fresh(heap) && heap.Valid() && first == 0 && 0 < second < Extent(heap.denied)
    ensures second !in heap.allocs && PoolOf(heap.dynamicPool, 0, 1) == second + 8 && !ok
  {
    heap := new HeapState();
    assert Pow2(0) == 1;
    RoundUpIsLeast(1, 1, 1);
    var filed;
    first, filed := heap.OnAlloc(Event(0, 1), 0x2_0000_0000, 1, Region.Heap, false, false);
    second, ok := heap.OnAlloc(Event(0, 2), 8, 1, Region.Heap, false, false);
  }

  /** An allocation whose record the record of a denied request overwrites. */
  method RecordCanBeLost() returns (heap: HeapState, base: nat)
    ensures fresh(heap) && heap.Valid() && base in heap.allocs && !heap.Intact(base)
  {
    heap := new HeapState();
    assert Pow2(0) == 1;
    RoundUpIsLeast(1, 1, 1);
    var filed, none;
    base, filed := heap.OnAlloc(Event(0, 1), 8, 1, Region.Heap, false, false);
    none, filed := heap.OnAlloc(Event(0, 2), 0x2_0000_0000, 1, Region.Heap, false, false);
  }
}
