/** Two repairs that succeed and do not do what a repair is for
    (crates/djbod-node/src/coordinator.rs:2349-2576, 3735-3780): one that loses
    an empty object, and one after which a shard still counts as unavailable. */
module RepairCases {
  import opened Prelude
  import opened Erasure
  import opened ObjectWrite
  import opened ObjectRead
  import opened ObjectRepair
  import opened Records
  import opened Replacement
  import opened Scrub
  import opened RepairPlacement
  import opened RepairScrub

  /** Every request is answered. */
  function AllAnswer(): Network {
    Network(true, true, _ => Done, _ => Done, _ => Done)
  }

  lemma AllAnswered(p: Plan)
    ensures Answered(p, AllAnswer())
  {
    ReachedAre(p.Copies(), AllAnswer().copy);
    ReachedAre(p.Stale(), AllAnswer().removal);
  }

  // --------------------------------------------------------- an empty object

  /** An empty object coded 2+0, whose first shard was to move to device 3. */
  ghost predicate EmptyAndMoved(record: Record, c: Coding) {
    && record.body.k == 2 && record.body.m == 0 && record.body.size == 0 && WasPut(record, c, [])
    && record.revision == 1 && record.shards == [Location(0, 3), Location(1, 2)]
  }

  function BeforeMove(record: Record): Record {
    record.(revision := 0, shards := [Location(0, 1), Location(1, 2)])
  }

  function LeftBehind(record: Record): seq<Located> {
    [Located(1, BeforeMove(record)), Located(2, record)]
  }

  function StoreLeft(record: Record): Store {
    map[1 := Held(Some(BeforeMove(record)), map[]), 2 := Held(Some(record), map[])]
  }

  lemma EmptyPlan(record: Record, c: Coding)
    requires EmptyAndMoved(record, c)
    ensures MovedThenLost(PlanFor(StoreLeft(record), {1, 2}, LeftBehind(record), record.body.key, record, [1], c, []))
  {
  }

  lemma EmptyReady(p: Plan)
    requires MovedThenLost(p) && p.record.body.size == 0
    ensures Ready(p, AllAnswer()) && Answered(p, AllAnswer())
    ensures Found(p.store, p.serving, p.located) && Repairable(p.located, p.key, p.record)
    ensures forall r :: Repairable(p.located, p.key, r) ==> r == p.record
  {
    MovedFound(p);
    MovedRepairable(p);
    MovedRelocates(p);
    AllAnswered(p);
    OnlyThisRecord(p.located, p.key, p.record);
  }

  lemma EmptyGone(p: Plan, c: Coding, writes: seq<ShardWrite>)
    requires MovedThenLost(p) && p.record.body.size == 0 && p.record.body.m == 0
    requires Prepared(p, AllAnswer(), c, [], writes)
    ensures forall found, r :: Found(Mended(p, writes), p.serving, found) ==> !Repairable(found, p.key, r)
  {
    OriginalsFulfil(p, c, [], writes);
    forall found | Found(Mended(p, writes), p.serving, found) ensures forall r :: !Repairable(found, p.key, r) {
      EmptyMoveThenLoss(p, WholeTest(p.record, c, []), writes, found);
    }
  }

  lemma PlacedOnTwo(shards: seq<Location>)
    requires |shards| == 2 && shards[0].index == 0 && shards[1].index == 1 && shards[0].device != shards[1].device
    ensures PlacementOk(shards, 2)
  {
  }

  /** What the repair asks for, and what makes it succeed. */
  lemma EmptyCall(record: Record, c: Coding)
    requires EmptyAndMoved(record, c)
    ensures Found(StoreLeft(record), {1, 2}, LeftBehind(record)) && Repairable(LeftBehind(record), record.body.key, record)
    ensures forall r :: Repairable(LeftBehind(record), record.body.key, r) ==> r == record
    ensures forall l <- LeftBehind(record) :: PlacementOk(l.record.shards, l.record.Total()) && l.record.body.k >= 1
    ensures var plan := PlanFor(StoreLeft(record), {1, 2}, LeftBehind(record), record.body.key, record, [1], c, []);
            MovedThenLost(plan) && Ready(plan, AllAnswer()) && Answered(plan, AllAnswer())
  {
    EmptyPlan(record, c);
    EmptyReady(PlanFor(StoreLeft(record), {1, 2}, LeftBehind(record), record.body.key, record, [1], c, []));
    PlacedOnTwo(record.shards);
    PlacedOnTwo(BeforeMove(record).shards);
  }

  /** The move left its source behind, and device 3 is lost. The repair succeeds,
      and no record is left that any repair could complete towards. */
  method LosesEmptyObject(record: Record, c: Coding)
    returns (devices: DeviceSet, r: Result<Record, RepairError>)
    requires EmptyAndMoved(record, c)
    ensures fresh(devices) && r.Ok?
    ensures forall found, other :: Found(devices.store, {1, 2}, found) ==> !Repairable(found, record.body.key, other)
  {
    devices := new DeviceSet(StoreLeft(record));
    EmptyCall(record, c);
    ghost var p, writes;
    r, p, writes := RepairObject(devices, {1, 2}, LeftBehind(record), record.body.key, [1], AllAnswer(), c, []);
    EmptyGone(p, c, writes);
  }

  // -------------------------------------------------------- a file left over

  /** An object coded 1+1 is whole on devices 1 and 2; device 3 has a file of its
      first shard that is cut short, and no record. */
  ghost predicate WithOrphan(store: Store, record: Record, file0: seq<Byte>, file1: seq<Byte>) {
    && store.Keys == {1, 2, 3} && store[3] == Held(None, map[0 := Stored([], {})])
    && store[1] == Held(Some(record), map[0 := Stored(file0, {})])
    && store[2] == Held(Some(record), map[1 := Stored(file1, {})])
  }

  ghost predicate PutOnTwo(record: Record, c: Coding, body: seq<Byte>, file0: seq<Byte>, file1: seq<Byte>) {
    && WasPut(record, c, body) && record.body.k == 1 && record.body.m == 1 && record.body.size > 0
    && record.shards == [Location(0, 1), Location(1, 2)]
    && FileTest(ObjectOf(record, c), body)(0, file0) && FileTest(ObjectOf(record, c), body)(1, file1)
  }

  /** A shard whose device is in service and has its file is seen as served. */
  lemma SeenAt(store: Store, serving: set<nat>, r: Record, s: Location, count: nat, sum: Checksum)
    requires PlacementOk(r.shards, r.Total()) && s in r.shards && s.device in serving && s.index in Part(store, s.device).files
    ensures ShardAt(store, serving, r, s.index, count, sum) == Shown(Part(store, s.device).files[s.index], count, sum)
  {
    LookupsInverse(r, s);
  }

  lemma OrphanSeen(store: Store, record: Record, file0: seq<Byte>, file1: seq<Byte>, n: nat, sum: Checksum)
    requires WithOrphan(store, record, file0, file1) && record.shards == [Location(0, 1), Location(1, 2)] && record.Total() == 2
    ensures View(store, {1, 2, 3}, record, n, sum) == [Shown(Stored(file0, {}), n, sum), Shown(Stored(file1, {}), n, sum)]
  {
    PlacedOnTwo(record.shards);
    assert record.shards[0] in record.shards && record.shards[1] in record.shards;
    SeenAt(store, {1, 2, 3}, record, Location(0, 1), n, sum);
    SeenAt(store, {1, 2, 3}, record, Location(1, 2), n, sum);
  }

  lemma TwoUntouched(code: Code, sum: Checksum, stripes: seq<Block>, a: Shard, b: Shard)
    requires WellFormed(code) && Rectangular(code, stripes) && code.scheme.Total() == 2
    requires Serves(a, code, sum, stripes, 0) && Serves(b, code, sum, stripes, 1)
    ensures Holding(code, sum, stripes, [a, b])
  {
    UntouchedSurvive(code, sum, stripes, [a, b]);
  }

  lemma ServedFresh(r: Record, c: Coding, body: seq<Byte>, i: nat, file: seq<Byte>)
    requires WasPut(r, c, body) && r.body.size > 0 && FileTest(ObjectOf(r, c), body)(i, file)
    ensures i < c.code.scheme.Total() && Rectangular(c.code, StripesIn(r, c, body))
    ensures Serves(Shown(Stored(file, {}), |StripesIn(r, c, body)|, c.sum), c.code, c.sum, StripesIn(r, c, body), i)
  {
    FreshServes(ObjectOf(r, c), body, i, file);
  }

  lemma OrphanHonest(store: Store, record: Record, c: Coding, body: seq<Byte>, file0: seq<Byte>, file1: seq<Byte>)
    requires WithOrphan(store, record, file0, file1) && PutOnTwo(record, c, body, file0, file1)
    ensures Honest(store, {1, 2, 3}, record, c, body)
  {
    var n := |StripesIn(record, c, body)|;
    OrphanSeen(store, record, file0, file1, n, c.sum);
    ServedFresh(record, c, body, 0, file0);
    ServedFresh(record, c, body, 1, file1);
    TwoUntouched(c.code, c.sum, StripesIn(record, c, body), Shown(Stored(file0, {}), n, c.sum), Shown(Stored(file1, {}), n, c.sum));
  }

  lemma FreshFlag(store: Store, serving: set<nat>, r: Record, c: Coding, body: seq<Byte>, s: Location, file: seq<Byte>)
    requires WasPut(r, c, body) && r.body.size > 0 && PlacementOk(r.shards, r.Total()) && s in r.shards && s.device in serving
    requires s.index in Part(store, s.device).files && Part(store, s.device).files[s.index] == Stored(file, {})
    requires FileTest(ObjectOf(r, c), body)(s.index, file)
    ensures WholeFlags(store, serving, r, c, body)[s.index]
  {
    FreshIsWhole(ObjectOf(r, c), body, s.index, file);
    SeenWhole(store, serving, r, c, body, s);
  }

  lemma OrphanFlag0(store: Store, record: Record, c: Coding, body: seq<Byte>, file0: seq<Byte>, file1: seq<Byte>)
    requires WithOrphan(store, record, file0, file1) && PutOnTwo(record, c, body, file0, file1)
    ensures WholeFlags(store, {1, 2, 3}, record, c, body)[0]
  {
    PlacedOnTwo(record.shards);
    assert record.shards[0] in record.shards;
    FreshFlag(store, {1, 2, 3}, record, c, body, Location(0, 1), file0);
  }

  lemma OrphanFlag1(store: Store, record: Record, c: Coding, body: seq<Byte>, file0: seq<Byte>, file1: seq<Byte>)
    requires WithOrphan(store, record, file0, file1) && PutOnTwo(record, c, body, file0, file1)
    ensures WholeFlags(store, {1, 2, 3}, record, c, body)[1]
  {
    PlacedOnTwo(record.shards);
    assert record.shards[1] in record.shards;
    FreshFlag(store, {1, 2, 3}, record, c, body, Location(1, 2), file1);
  }

  lemma OrphanFlags(store: Store, record: Record, c: Coding, body: seq<Byte>, file0: seq<Byte>, file1: seq<Byte>)
    requires WithOrphan(store, record, file0, file1) && PutOnTwo(record, c, body, file0, file1)
    ensures WholeFlags(store, {1, 2, 3}, record, c, body) == [true, true]
  {
    OrphanFlag0(store, record, c, body, file0, file1);
    OrphanFlag1(store, record, c, body, file0, file1);
    BothSet(WholeFlags(store, {1, 2, 3}, record, c, body));
  }

  lemma BothSet(flags: seq<bool>)
    requires |flags| == 2 && flags[0] && flags[1]
    ensures flags == [true, true]
  {
  }

  /** The plan of a repair that has nothing to do. */
  ghost predicate NothingToDo(p: Plan, file0: seq<Byte>, file1: seq<Byte>) {
    && WithOrphan(p.store, p.record, file0, file1) && p.serving == {1, 2, 3} && p.ranked == [] && p.whole == [true, true]
    && p.record.body.k == 1 && p.record.body.m == 1 && p.record.body.size > 0 && p.key == p.record.body.key
    && p.record.shards == [Location(0, 1), Location(1, 2)]
    && p.located == OnTwo(p.record)
  }

  lemma OrphanFound(p: Plan, file0: seq<Byte>, file1: seq<Byte>)
    requires NothingToDo(p, file0, file1)
    ensures Found(p.store, p.serving, p.located) && Repairable(p.located, p.key, p.record)
  {
    assert p.located[0] in p.located && p.located[1] in p.located;
    AllVouch(p.located, p.record);
  }

  lemma OrphanStale(p: Plan, file0: seq<Byte>, file1: seq<Byte>)
    requires NothingToDo(p, file0, file1)
    ensures p.Stale() == []
  {
    SomeMember(p.Stale());
    assert Location(0, 1) in p.record.shards && Location(1, 2) in p.record.shards;
    forall d ensures d !in p.Stale() {
      StaleMembers(p.record, p.located, d);
    }
  }

  lemma OrphanLists(p: Plan, file0: seq<Byte>, file1: seq<Byte>)
    requires NothingToDo(p, file0, file1)
    ensures p.Lost() == [] && p.Copies() == [] && p.Stale() == [] && p.Targets() == [] && p.Next() == p.record && p.Spared()
  {
    SomeMember(p.Lost());
    SomeMember(p.Copies());
    SomeMember(p.Targets());
    assert p.located[0] in p.located && p.located[1] in p.located;
    OrphanStale(p, file0, file1);
  }

  lemma OrphanReady(p: Plan, file0: seq<Byte>, file1: seq<Byte>)
    requires NothingToDo(p, file0, file1)
    ensures Ready(p, AllAnswer()) && Answered(p, AllAnswer())
    ensures forall r :: Repairable(p.located, p.key, r) ==> r == p.record
  {
    OrphanLists(p, file0, file1);
    OrphanFound(p, file0, file1);
    AllAnswered(p);
    OnlyThisRecord(p.located, p.key, p.record);
    assert 0 in set i: nat | i < |p.whole| && p.whole[i];
    SubsetCount({0}, set i: nat | i < |p.whole| && p.whole[i]);
  }

  lemma OrphanCounts(p: Plan, file0: seq<Byte>, file1: seq<Byte>, sum: Checksum)
    requires NothingToDo(p, file0, file1)
    ensures DamageSpared(p, sum, 0)
  {
    OrphanLists(p, file0, file1);
    assert DamageStays(p, sum, 0, 3);
  }

  lemma OrphanStays(p: Plan, file0: seq<Byte>, file1: seq<Byte>, writes: seq<ShardWrite>)
    requires NothingToDo(p, file0, file1) && Ats(writes) == p.Targets()
    ensures Mended(p, writes) == p.store && Flags(p.store, p.located, map[1 := true, 2 := true])
  {
    OrphanLists(p, file0, file1);
    assert |writes| == |Ats(writes)| == 0;
    PlacedOnTwo(p.record.shards);
    assert p.record.shards[0] in p.record.shards && p.record.shards[1] in p.record.shards;
    LookupsInverse(p.record, Location(0, 1));
    LookupsInverse(p.record, Location(1, 2));
  }

  lemma OrphanPlan(store: Store, record: Record, c: Coding, body: seq<Byte>, file0: seq<Byte>, file1: seq<Byte>)
    requires WithOrphan(store, record, file0, file1) && PutOnTwo(record, c, body, file0, file1)
    ensures NothingToDo(PlanFor(store, {1, 2, 3}, OnTwo(record), record.body.key, record, [], c, body), file0, file1)
  {
    OrphanFlags(store, record, c, body, file0, file1);
  }

  function OnTwo(record: Record): seq<Located> {
    [Located(1, record), Located(2, record)]
  }

  /** What the repair asks for, and what makes it succeed. */
  lemma OrphanCall(store: Store, record: Record, c: Coding, body: seq<Byte>, file0: seq<Byte>, file1: seq<Byte>)
    requires WithOrphan(store, record, file0, file1) && PutOnTwo(record, c, body, file0, file1)
    ensures Found(store, {1, 2, 3}, OnTwo(record)) && Repairable(OnTwo(record), record.body.key, record)
    ensures forall r :: Repairable(OnTwo(record), record.body.key, r) ==> r == record
    ensures forall l <- OnTwo(record) :: PlacementOk(l.record.shards, l.record.Total()) && l.record.body.k >= 1
    ensures var plan := PlanFor(store, {1, 2, 3}, OnTwo(record), record.body.key, record, [], c, body);
            NothingToDo(plan, file0, file1) && Ready(plan, AllAnswer()) && Answered(plan, AllAnswer())
  {
    var plan := PlanFor(store, {1, 2, 3}, OnTwo(record), record.body.key, record, [], c, body);
    OrphanPlan(store, record, c, body, file0, file1);
    OrphanFound(plan, file0, file1);
    OrphanReady(plan, file0, file1);
    PlacedOnTwo(record.shards);
  }

  method RepairWithOrphan(devices: DeviceSet, record: Record, c: Coding, ghost body: seq<Byte>, ghost file0: seq<Byte>,
                          ghost file1: seq<Byte>)
    returns (r: Result<Record, RepairError>, ghost p: Plan, ghost writes: seq<ShardWrite>)
    requires WithOrphan(devices.store, record, file0, file1) && PutOnTwo(record, c, body, file0, file1)
    modifies devices
    ensures NothingToDo(p, file0, file1) && p.record == record && p.store == old(devices.store)
    ensures Prepared(p, AllAnswer(), c, body, writes) && devices.store == Mended(p, writes) && r == Ok(p.Next())
  {
    OrphanCall(devices.store, record, c, body, file0, file1);
    OrphanHonest(devices.store, record, c, body, file0, file1);
    r, p, writes := RepairObject(devices, {1, 2, 3}, OnTwo(record), record.body.key, [], AllAnswer(), c, body);
  }

  /** The repair finds every listed shard whole and succeeds, the scrub after it
      has nothing to report, and yet not every shard counts as available: the
      file on device 3 is a damaged one of shard 0. */
  method OrphanKeepsCountLow(store: Store, record: Record, c: Coding, ghost body: seq<Byte>, ghost file0: seq<Byte>,
                             ghost file1: seq<Byte>)
    returns (r: Result<Record, RepairError>, findings: seq<Finding>, shards: Option<ShardCount>)
    requires WithOrphan(store, record, file0, file1) && PutOnTwo(record, c, body, file0, file1)
    ensures r == Ok(record) && findings == [] && shards.Some? && shards.value.available < shards.value.total
  {
    var devices := new DeviceSet(store);
    ghost var p, writes;
    r, p, writes := RepairWithOrphan(devices, record, c, body, file0, file1);
    OrphanLists(p, file0, file1);
    OrphanFound(p, file0, file1);
    OrphanStays(p, file0, file1, writes);
    OrphanCounts(p, file0, file1, c.sum);
    var damaged := DamagedIn(devices.store, {1, 2, 3}, record.body.version, c.sum);
    findings, shards := ScrubOrphan(p, c, body, writes, OnTwo(record), damaged);
  }

  method ScrubOrphan(ghost p: Plan, ghost c: Coding, ghost body: seq<Byte>, ghost writes: seq<ShardWrite>, found: seq<Located>,
                     damaged: set<(nat, nat)>)
    returns (findings: seq<Finding>, shards: Option<ShardCount>)
    requires Prepared(p, AllAnswer(), c, body, writes) && p.Spared() && p.serving == {1, 2, 3} && p.record.body.size > 0
    requires Found(Mended(p, writes), p.serving, found) && Flags(Mended(p, writes), found, map[1 := true, 2 := true])
    requires damaged == DamagedIn(Mended(p, writes), p.serving, p.record.body.version, c.sum)
    requires Location(0, 1) in p.Next().shards && DamageSpared(p, c.sum, 0)
    ensures findings == [] && shards.Some? && shards.value.available < shards.value.total
  {
    findings, shards := ScrubAfterRepair(p, AllAnswer(), c, body, writes, {1, 2, 3}, found, map[1 := true, 2 := true], damaged);
  }
}
