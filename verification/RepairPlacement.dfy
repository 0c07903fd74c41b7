/** What a repair changes on the devices
    (crates/djbod-node/src/coordinator.rs:2277-2345, 2510-2660): which shards
    are written where, which record copies follow, which copies are removed,
    and what the scrub then finds. Files count as intact or not by a test that
    is left open here. */
module RepairPlacement {
  import opened Prelude
  import opened ObjectRepair
  import opened Records
  import opened Replacement
  import opened Scrub

  /** A device's part of the version: a record copy, and shard files. */
  datatype Held = Held(record: Option<Record>, files: map<nat, Stored>)

  type Store = map<nat, Held>

  function Part(store: Store, d: nat): Held {
    if d in store then store[d] else Held(None, map[])
  }

  ghost predicate Intact(store: Store, whole: Stored -> bool, d: nat, i: nat) {
    i in Part(store, d).files && whole(Part(store, d).files[i])
  }

  /** The copies on the devices in service, in any order. */
  ghost predicate Found(store: Store, serving: set<nat>, located: seq<Located>) {
    && (forall c <- located :: c.device in serving && Part(store, c.device).record == Some(c.record))
    && (forall i, j :: 0 <= i < j < |located| ==> located[i].device != located[j].device)
    && (forall d <- serving :: Part(store, d).record.Some? ==> Located(d, Part(store, d).record.value) in located)
  }

  // ------------------------------------------------------ whole-loop effects

  datatype ShardWrite = ShardWrite(at: Location, bytes: seq<Byte>)

  ghost predicate WrittenAt(writes: seq<ShardWrite>, at: Location) {
    exists w :: w in writes && w.at == at
  }

  /** Each file written afresh. */
  function WithShards(store: Store, writes: seq<ShardWrite>): Store {
    if writes == [] then store
    else
      WithShard(WithShards(store, writes[..|writes| - 1]), writes[|writes| - 1])
  }

  function WithShard(store: Store, w: ShardWrite): Store {
    store[w.at.device := Held(Part(store, w.at.device).record,
                              Part(store, w.at.device).files[w.at.index := Stored(w.bytes, {})])]
  }

  lemma OneMoreShard(store: Store, writes: seq<ShardWrite>, w: ShardWrite)
    ensures WithShards(store, writes + [w]) == WithShard(WithShards(store, writes), w)
  {
    assert (writes + [w])[..|writes|] == writes;
  }

  function WithRecord(store: Store, devices: seq<nat>, r: Record): Store {
    if devices == [] then store
    else
      var before := WithRecord(store, devices[..|devices| - 1], r);
      var d := devices[|devices| - 1];
      before[d := Held(Some(r), Part(before, d).files)]
  }

  function WithoutVersion(store: Store, devices: seq<nat>): Store {
    if devices == [] then store
    else WithoutVersion(store, devices[..|devices| - 1])[devices[|devices| - 1] := Held(None, map[])]
  }

  lemma {:induction false} ShardsWritten(store: Store, writes: seq<ShardWrite>, d: nat, i: nat)
    ensures Part(WithShards(store, writes), d).record == Part(store, d).record
    ensures WrittenAt(writes, Location(i, d)) ==>
              && i in Part(WithShards(store, writes), d).files
              && exists w :: w in writes && w.at == Location(i, d) && Part(WithShards(store, writes), d).files[i] == Stored(w.bytes, {})
    ensures !WrittenAt(writes, Location(i, d)) ==>
              && (i in Part(WithShards(store, writes), d).files <==> i in Part(store, d).files)
              && (i in Part(store, d).files ==> Part(WithShards(store, writes), d).files[i] == Part(store, d).files[i])
  {
    if writes != [] {
      var before, last := writes[..|writes| - 1], writes[|writes| - 1];
      assert writes == before + [last];
      ShardsWritten(store, before, d, i);
      if last.at != Location(i, d) {
        assert WrittenAt(writes, Location(i, d)) ==> WrittenAt(before, Location(i, d));
      }
    }
  }

  lemma {:induction false} RecordWritten(store: Store, devices: seq<nat>, r: Record, d: nat)
    ensures Part(WithRecord(store, devices, r), d) == Held(if d in devices then Some(r) else Part(store, d).record, Part(store, d).files)
  {
    if devices != [] {
      var before := devices[..|devices| - 1];
      assert devices == before + [devices[|devices| - 1]];
      RecordWritten(store, before, r, d);
    }
  }

  lemma {:induction false} VersionRemoved(store: Store, devices: seq<nat>, d: nat)
    ensures Part(WithoutVersion(store, devices), d) == if d in devices then Held(None, map[]) else Part(store, d)
  {
    if devices != [] {
      var before := devices[..|devices| - 1];
      assert devices == before + [devices[|devices| - 1]];
      VersionRemoved(store, before, d);
    }
  }

  /** The store when some of the writes, copies and removals have been made. */
  function Changed(store: Store, writes: seq<ShardWrite>, copies: seq<nat>, next: Record, removed: seq<nat>): Store {
    WithoutVersion(WithRecord(WithShards(store, writes), copies, next), removed)
  }

  lemma ChangedRecord(store: Store, writes: seq<ShardWrite>, copies: seq<nat>, next: Record, removed: seq<nat>, d: nat)
    ensures Part(Changed(store, writes, copies, next, removed), d).record ==
              if d in removed then None else if d in copies then Some(next) else Part(store, d).record
  {
    ShardsWritten(store, writes, d, 0);
    RecordWritten(WithShards(store, writes), copies, next, d);
    VersionRemoved(WithRecord(WithShards(store, writes), copies, next), removed, d);
  }

  lemma ChangedFile(store: Store, writes: seq<ShardWrite>, copies: seq<nat>, next: Record, removed: seq<nat>, d: nat, i: nat)
    ensures var files := Part(Changed(store, writes, copies, next, removed), d).files;
            if d in removed then files == map[]
            else if WrittenAt(writes, Location(i, d))
            then i in files && exists w :: w in writes && w.at == Location(i, d) && files[i] == Stored(w.bytes, {})
            else (i in files <==> i in Part(store, d).files) && (i in files ==> files[i] == Part(store, d).files[i])
  {
    ShardsWritten(store, writes, d, i);
    RecordWritten(WithShards(store, writes), copies, next, d);
    VersionRemoved(WithRecord(WithShards(store, writes), copies, next), removed, d);
  }

  // --------------------------------------------------------- the relocations

  /** The listed shards whose device is no longer in service. */
  function LostShards(shards: seq<Location>, serving: set<nat>): (lost: seq<nat>)
    ensures forall i :: i in lost <==> exists s :: s in shards && s.index == i && s.device !in serving
  {
    if shards == [] then []
    else
      var before := LostShards(shards[..|shards| - 1], serving);
      var last := shards[|shards| - 1];
      assert shards == shards[..|shards| - 1] + [last];
      if last.device in serving then before else before + [last.index]
  }

  /** Lost shards come as the record lists them. */
  lemma {:induction false} LostInOrder(shards: seq<Location>, serving: set<nat>)
    ensures Subsequence(LostShards(shards, serving), IndexList(shards))
  {
    if shards != [] {
      var before, last := shards[..|shards| - 1], shards[|shards| - 1];
      LostInOrder(before, serving);
      assert IndexList(shards) == IndexList(before) + [last.index];
      SubsequenceAppend(LostShards(before, serving), IndexList(before), [last.index]);
    }
  }

  lemma {:induction false} LostDistinct(shards: seq<Location>, serving: set<nat>)
    requires forall i, j :: 0 <= i < j < |shards| ==> shards[i].index != shards[j].index
    ensures Distinct(LostShards(shards, serving))
  {
    if shards != [] {
      var before, last := shards[..|shards| - 1], shards[|shards| - 1];
      assert shards == before + [last];
      LostDistinct(before, serving);
      forall s | s in before ensures s.index != last.index {
        var n :| 0 <= n < |before| && before[n] == s;
        assert shards[n] == s && shards[|before|] == last;
      }
      DistinctSnoc(LostShards(before, serving), last.index);
    }
  }

  /** The ranked devices that hold no shard of the version. */
  function Eligible(ranked: seq<nat>, record: Record): (r: seq<nat>)
    ensures forall d :: d in r <==> d in ranked && d !in Devices(record)
    ensures Distinct(ranked) ==> Distinct(r)
  {
    if ranked == [] then []
    else
      var before, last := ranked[..|ranked| - 1], ranked[|ranked| - 1];
      assert ranked == before + [last];
      if ShardOn(record, last).Some? then Eligible(before, record) else Eligible(before, record) + [last]
  }

  /** They keep their ranking. */
  lemma {:induction false} EligibleInOrder(ranked: seq<nat>, record: Record)
    ensures Subsequence(Eligible(ranked, record), ranked)
  {
    if ranked != [] {
      var before, last := ranked[..|ranked| - 1], ranked[|ranked| - 1];
      assert ranked == before + [last];
      EligibleInOrder(before, record);
      SubsequenceAppend(Eligible(before, record), before, [last]);
    }
  }

  /** Each lost shard with the best device that is left. */
  function Chosen(lost: seq<nat>, eligible: seq<nat>): (relocations: seq<Location>)
    requires |lost| <= |eligible|
    ensures |relocations| == |lost|
  {
    seq(|lost|, j requires 0 <= j < |lost| => Location(lost[j], eligible[j]))
  }

  function Destination(relocations: seq<Location>, s: Location): nat {
    match FirstAt(relocations, s.index)
    case Some(d) => d
    case None => s.device
  }

  /** The record a relocation writes: the lost shards placed anew, one revision
      on; without a relocation, the record itself. */
  function Relocated(r: Record, relocations: seq<Location>): Record {
    if relocations == [] then r
    else r.(revision := r.revision + 1,
            shards := seq(|r.shards|, n requires 0 <= n < |r.shards| =>
              Location(r.shards[n].index, Destination(relocations, r.shards[n]))))
  }

  /** One fresh device in service for each lost shard, all distinct. */
  ghost predicate RelocationsOk(r: Record, serving: set<nat>, relocations: seq<Location>) {
    && (forall i :: (exists t :: t in relocations && t.index == i) <==> i in LostShards(r.shards, serving))
    && (forall t <- relocations :: t.device in serving && t.device !in Devices(r))
    && (forall i, j :: 0 <= i < j < |relocations| ==>
          relocations[i].device != relocations[j].device && relocations[i].index != relocations[j].index)
  }

  /** `relocate_lost_shards`: the best ranked devices, one for each lost shard. */
  method RelocateLost(record: Record, lost: seq<nat>, ranked: seq<nat>, ghost serving: set<nat>)
    returns (relocations: Option<seq<Location>>)
    requires PlacementOk(record.shards, record.Total()) && lost == LostShards(record.shards, serving)
    requires Distinct(ranked) && forall d <- ranked :: d in serving
    ensures relocations.None? <==> |Eligible(ranked, record)| < |lost|
    ensures relocations.Some? ==> relocations.value == Chosen(lost, Eligible(ranked, record))
    ensures relocations.Some? ==> RelocationsOk(record, serving, relocations.value)
    ensures relocations.Some? ==>
              BestFirst(ranked, record, relocations.value) && Subsequence(IndexList(relocations.value), IndexList(record.shards))
  {
    var eligible := Eligible(ranked, record);
    if |eligible| < |lost| {
      return None;
    }
    var chosen: seq<Location> := [];
    for n := 0 to |lost|
      invariant |chosen| == n && forall j :: 0 <= j < n ==> chosen[j] == Location(lost[j], eligible[j])
    {
      chosen := chosen + [Location(lost[n], eligible[n])];
    }
    assert chosen == Chosen(lost, eligible);
    ChosenOk(record, serving, ranked);
    ChosenBest(ranked, record, lost);
    LostInOrder(record.shards, serving);
    assert IndexList(chosen) == lost;
    return Some(chosen);
  }

  /** A device ranked before a chosen one that holds no shard of the version was
      itself chosen earlier. */
  ghost predicate BestFirst(ranked: seq<nat>, record: Record, relocations: seq<Location>) {
    forall j, p, q :: 0 <= j < |relocations| && PassedOver(ranked, record, p, q, relocations[j].device) ==>
      ChosenBefore(relocations, j, ranked[p])
  }

  ghost predicate PassedOver(ranked: seq<nat>, record: Record, p: int, q: int, d: nat) {
    0 <= p < q < |ranked| && ranked[q] == d && ranked[p] !in Devices(record)
  }

  ghost predicate ChosenBefore(relocations: seq<Location>, j: nat, d: nat) {
    exists i :: 0 <= i < j && i < |relocations| && relocations[i].device == d
  }

  lemma ChosenBest(ranked: seq<nat>, record: Record, lost: seq<nat>)
    requires Distinct(ranked) && |lost| <= |Eligible(ranked, record)|
    ensures BestFirst(ranked, record, Chosen(lost, Eligible(ranked, record)))
  {
    var eligible := Eligible(ranked, record);
    var chosen := Chosen(lost, eligible);
    EligibleInOrder(ranked, record);
    forall j, p, q | 0 <= j < |chosen| && PassedOver(ranked, record, p, q, chosen[j].device)
      ensures ChosenBefore(chosen, j, ranked[p])
    {
      assert ranked[p] in eligible;
      var i :| 0 <= i < |eligible| && eligible[i] == ranked[p];
      if i >= j {
        if i > j {
          SubsequenceOrder(eligible, ranked, j, i);
        }
        assert false;
      }
      assert chosen[i].device == ranked[p];
    }
  }

  lemma ChosenOk(r: Record, serving: set<nat>, ranked: seq<nat>)
    requires PlacementOk(r.shards, r.Total()) && Distinct(ranked) && forall d <- ranked :: d in serving
    requires |LostShards(r.shards, serving)| <= |Eligible(ranked, r)|
    ensures RelocationsOk(r, serving, Chosen(LostShards(r.shards, serving), Eligible(ranked, r)))
  {
    var lost, eligible := LostShards(r.shards, serving), Eligible(ranked, r);
    var chosen := Chosen(lost, eligible);
    LostDistinct(r.shards, serving);
    forall i ensures (exists t :: t in chosen && t.index == i) <==> i in lost {
      if i in lost {
        var n :| 0 <= n < |lost| && lost[n] == i;
        assert chosen[n] in chosen;
      }
    }
    forall t | t in chosen ensures t.device in serving && t.device !in Devices(r) {
      var n :| 0 <= n < |chosen| && chosen[n] == t;
      assert eligible[n] in eligible;
    }
  }

  lemma NotLost(r: Record, serving: set<nat>, s: Location)
    requires PlacementOk(r.shards, r.Total()) && s in r.shards
    ensures s.index in LostShards(r.shards, serving) ==> s.device !in serving
  {
    if s.index in LostShards(r.shards, serving) {
      var t :| t in r.shards && t.index == s.index && t.device !in serving;
      LookupsInverse(r, s);
      LookupsInverse(r, t);
    }
  }

  lemma DestinationOf(r: Record, serving: set<nat>, relocations: seq<Location>, s: Location)
    requires PlacementOk(r.shards, r.Total()) && RelocationsOk(r, serving, relocations) && s in r.shards
    ensures s.device in serving ==> Destination(relocations, s) == s.device
    ensures s.device !in serving ==> Location(s.index, Destination(relocations, s)) in relocations
    ensures Destination(relocations, s) in serving
    ensures Destination(relocations, s) == s.device || Destination(relocations, s) !in Devices(r)
  {
    if s.device in serving {
      NotLost(r, serving, s);
    } else {
      assert s.index in LostShards(r.shards, serving);
      var t :| t in relocations && t.index == s.index;
    }
  }

  lemma SameRelocation(relocations: seq<Location>, a: Location, b: Location)
    requires a in relocations && b in relocations && a.device == b.device
    requires forall i, j :: 0 <= i < j < |relocations| ==> relocations[i].device != relocations[j].device
    ensures a == b
  {
  }

  lemma RelocatedDistinct(r: Record, serving: set<nat>, relocations: seq<Location>, i: nat, j: nat)
    requires PlacementOk(r.shards, r.Total()) && RelocationsOk(r, serving, relocations) && i < j < |r.shards|
    ensures Destination(relocations, r.shards[i]) != Destination(relocations, r.shards[j])
  {
    var a, b := r.shards[i], r.shards[j];
    DestinationOf(r, serving, relocations, a);
    DestinationOf(r, serving, relocations, b);
    assert a.device in Devices(r) && b.device in Devices(r);
    if a.device !in serving && b.device !in serving && Destination(relocations, a) == Destination(relocations, b) {
      SameRelocation(relocations, Location(a.index, Destination(relocations, a)), Location(b.index, Destination(relocations, b)));
    }
  }

  /** Where each shard of the record is in the relocated one. */
  lemma NextShard(r: Record, serving: set<nat>, relocations: seq<Location>, n: nat)
    requires PlacementOk(r.shards, r.Total()) && RelocationsOk(r, serving, relocations) && n < |r.shards|
    ensures Relocated(r, relocations).shards[n] == Location(r.shards[n].index, Destination(relocations, r.shards[n]))
  {
    assert r.shards[n] in r.shards;
    DestinationOf(r, serving, relocations, r.shards[n]);
  }

  /** The relocated record is a proper placement on devices in service. */
  lemma RelocatedPlaced(r: Record, serving: set<nat>, relocations: seq<Location>)
    requires PlacementOk(r.shards, r.Total()) && RelocationsOk(r, serving, relocations)
    ensures PlacementOk(Relocated(r, relocations).shards, r.Total())
    ensures Devices(Relocated(r, relocations)) <= serving
    ensures forall d <- Devices(Relocated(r, relocations)) :: d in Devices(r) || exists t :: t in relocations && t.device == d
  {
    var next := Relocated(r, relocations);
    if relocations != [] {
      forall i, j | 0 <= i < j < |next.shards| ensures next.shards[i].device != next.shards[j].device {
        RelocatedDistinct(r, serving, relocations, i, j);
      }
    }
    forall s | s in next.shards
      ensures s.device in serving && (s.device in Devices(r) || exists t :: t in relocations && t.device == s.device)
    {
      var n :| 0 <= n < |next.shards| && next.shards[n] == s;
      assert r.shards[n] in r.shards;
      DestinationOf(r, serving, relocations, r.shards[n]);
    }
  }

  /** A relocation's device is listed by the relocated record. */
  lemma TargetListed(r: Record, serving: set<nat>, relocations: seq<Location>, t: Location)
    requires PlacementOk(r.shards, r.Total()) && RelocationsOk(r, serving, relocations) && t in relocations
    ensures t in Relocated(r, relocations).shards && t.device in Devices(Relocated(r, relocations))
  {
    assert t.index in LostShards(r.shards, serving);
    var s :| s in r.shards && s.index == t.index && s.device !in serving;
    var n :| 0 <= n < |r.shards| && r.shards[n] == s;
    DestinationOf(r, serving, relocations, s);
    assert Relocated(r, relocations).shards[n] in Relocated(r, relocations).shards;
    assert Location(s.index, Destination(relocations, s)) == t;
  }

  /** A device of the old placement still in service keeps its place. */
  lemma StillListed(r: Record, serving: set<nat>, relocations: seq<Location>, d: nat)
    requires PlacementOk(r.shards, r.Total()) && RelocationsOk(r, serving, relocations) && d in serving
    ensures d in Devices(r) ==> d in Devices(Relocated(r, relocations))
  {
    if d in Devices(r) {
      var s :| s in r.shards && s.device == d;
      var n :| 0 <= n < |r.shards| && r.shards[n] == s;
      DestinationOf(r, serving, relocations, s);
      NextShard(r, serving, relocations, n);
      assert Relocated(r, relocations).shards[n] in Relocated(r, relocations).shards;
    }
  }

  // --------------------------------------------------------------- the plan

  /** Where to rebuild each shard that is not whole. */
  function TargetsFor(r: Record, relocations: seq<Location>, whole: seq<bool>): (targets: seq<Location>)
    ensures forall t <- targets :: t.index < |whole| && !whole[t.index]
    ensures forall i: nat :: i < |whole| && !whole[i] && DeviceFor(r, i).Some? ==>
              Location(i, Destination(relocations, Location(i, DeviceFor(r, i).value))) in targets
    ensures forall t <- targets ::
              DeviceFor(r, t.index).Some? && t.device == Destination(relocations, Location(t.index, DeviceFor(r, t.index).value))
  {
    if whole == [] then []
    else
      var i := |whole| - 1;
      var before := TargetsFor(r, relocations, whole[..i]);
      match DeviceFor(r, i)
      case None => before
      case Some(d) => if whole[i] then before else before + [Location(i, Destination(relocations, Location(i, d)))]
  }

  /** The listed devices without their copy. */
  function CopiesMissing(store: Store, r: Record, shards: seq<Location>): (devices: seq<nat>)
    ensures forall d :: d in devices <==> exists s :: s in shards && s.device == d && Part(store, d).record != Some(r)
  {
    if shards == [] then []
    else
      var before, last := CopiesMissing(store, r, shards[..|shards| - 1]), shards[|shards| - 1];
      assert shards == shards[..|shards| - 1] + [last];
      if Part(store, last.device).record != Some(r) then before + [last.device] else before
  }

  /** `devices_new_first`: every device of the relocated record. */
  function NewFirst(shards: seq<Location>, relocations: seq<Location>): (devices: seq<nat>)
    ensures forall d :: d in devices <==>
              (exists t :: t in relocations && t.device == d) || (exists s :: s in shards && s.device == d)
    ensures DevicesOf(relocations) <= devices
  {
    if shards == [] then DevicesOf(relocations)
    else
      var before, last := NewFirst(shards[..|shards| - 1], relocations), shards[|shards| - 1];
      assert shards == shards[..|shards| - 1] + [last];
      if last.device in DevicesOf(relocations) then before else before + [last.device]
  }

  function DevicesOf(locations: seq<Location>): (devices: seq<nat>)
    ensures forall d :: d in devices <==> exists t :: t in locations && t.device == d
  {
    var devices := seq(|locations|, n requires 0 <= n < |locations| => locations[n].device);
    assert forall n :: 0 <= n < |locations| ==> locations[n] in locations && devices[n] in devices;
    devices
  }

  /** All that a repair goes by: the devices in service and what is on them,
      the copies found, the record they agree on, the ranking of devices for
      lost shards, and which shards are whole. */
  datatype Plan = Plan(store: Store, serving: set<nat>, located: seq<Located>, key: seq<Byte>, record: Record,
                       ranked: seq<nat>, whole: seq<bool>)
  {
    function Lost(): seq<nat> { LostShards(record.shards, serving) }

    predicate Enough() { |Eligible(ranked, record)| >= |Lost()| }

    function Relocations(): seq<Location> {
      if Enough() then Chosen(Lost(), Eligible(ranked, record)) else []
    }

    function Next(): Record { Relocated(record, Relocations()) }

    function Targets(): seq<Location> {
      if record.body.size == 0 then [] else TargetsFor(record, Relocations(), whole)
    }

    function Copies(): seq<nat> {
      if Relocations() == [] then CopiesMissing(store, record, record.shards) else NewFirst(Next().shards, Relocations())
    }

    function Stale(): seq<nat> { StaleDevices(record, located) }

    /** No device chosen for a lost shard holds a stale copy. */
    ghost predicate Spared() {
      forall j :: 0 <= j < |Lost()| && j < |Eligible(ranked, record)| ==> Eligible(ranked, record)[j] !in Stale()
    }
  }

  /** `next` is `r` in every field but placement and revision: a shard on a device
      in service stays, a lost one is on a device new to the record, and the
      revision is one on exactly when a shard was lost. */
  ghost predicate PlacedAnew(r: Record, next: Record, serving: set<nat>) {
    && next.(revision := r.revision, shards := r.shards) == r
    && next.revision == r.revision + (if Devices(r) <= serving then 0 else 1)
    && |next.shards| == |r.shards|
    && forall n :: 0 <= n < |r.shards| ==> ShardPlacedAnew(r, r.shards[n], next.shards[n], serving)
  }

  ghost predicate ShardPlacedAnew(r: Record, s: Location, t: Location, serving: set<nat>) {
    t.index == s.index && if s.device in serving then t == s else t.device in serving && t.device !in Devices(r)
  }

  lemma NextPlacedAnew(p: Plan)
    requires PlacementOk(p.record.shards, p.record.Total())
    requires Distinct(p.ranked) && (forall d <- p.ranked :: d in p.serving) && p.Enough()
    ensures PlacedAnew(p.record, p.Next(), p.serving)
  {
    ChosenOk(p.record, p.serving, p.ranked);
    LostMeans(p.record, p.serving);
    forall n | 0 <= n < |p.record.shards| ensures ShardPlacedAnew(p.record, p.record.shards[n], p.Next().shards[n], p.serving) {
      assert p.record.shards[n] in p.record.shards && p.record.shards[n].device in Devices(p.record);
      NextShard(p.record, p.serving, p.Relocations(), n);
      DestinationOf(p.record, p.serving, p.Relocations(), p.record.shards[n]);
    }
  }

  lemma LostMeans(r: Record, serving: set<nat>)
    ensures LostShards(r.shards, serving) == [] <==> Devices(r) <= serving
  {
    SomeMember(LostShards(r.shards, serving));
    if Devices(r) <= serving {
      forall s | s in r.shards ensures s.device in serving {
        assert s.device in Devices(r);
      }
    } else {
      var d :| d in Devices(r) && d !in serving;
      var s :| s in r.shards && s.device == d;
      assert s.index in LostShards(r.shards, serving);
    }
  }

  /** The plan is one a repair can follow. */
  ghost predicate Sound(p: Plan, whole: Stored -> bool) {
    && Found(p.store, p.serving, p.located) && AgreeOn(p.located, p.key, p.record)
    && PlacementOk(p.record.shards, p.record.Total()) && p.record.body.k >= 1
    && Distinct(p.ranked) && (forall d <- p.ranked :: d in p.serving) && p.Enough()
    && (p.record.body.size > 0 ==>
          && |p.whole| == p.record.Total()
          && forall s <- p.record.shards :: p.whole[s.index] <==> s.device in p.serving && Intact(p.store, whole, s.device, s.index))
  }

  /** The files written are whole, one for each target. */
  ghost predicate Fulfils(p: Plan, whole: Stored -> bool, writes: seq<ShardWrite>) {
    && (forall w <- writes :: w.at in p.Targets() && whole(Stored(w.bytes, {})))
    && (forall t <- p.Targets() :: WrittenAt(writes, t))
  }

  /** The store after a repair that made every change. */
  function Mended(p: Plan, writes: seq<ShardWrite>): Store {
    Changed(p.store, writes, p.Copies(), p.Next(), p.Stale())
  }

  lemma PlanPlaced(p: Plan, whole: Stored -> bool)
    requires Sound(p, whole)
    ensures RelocationsOk(p.record, p.serving, p.Relocations())
    ensures PlacementOk(p.Next().shards, p.record.Total()) && Devices(p.Next()) <= p.serving
  {
    ChosenOk(p.record, p.serving, p.ranked);
    RelocatedPlaced(p.record, p.serving, p.Relocations());
  }

  lemma SparedMeans(p: Plan, whole: Stored -> bool)
    requires Sound(p, whole)
    ensures p.Spared() <==> forall t <- p.Relocations() :: t.device !in p.Stale()
  {
    if forall t <- p.Relocations() :: t.device !in p.Stale() {
      forall j | 0 <= j < |p.Lost()| ensures Eligible(p.ranked, p.record)[j] !in p.Stale() {
        assert p.Relocations()[j] in p.Relocations();
      }
    }
  }

  /** Copies go to devices of the final placement, and leave none out. */
  lemma CopiesListed(p: Plan, whole: Stored -> bool, d: nat)
    requires Sound(p, whole)
    ensures d in p.Copies() ==> d in Devices(p.Next())
    ensures d in Devices(p.Next()) ==> d in p.Copies() || Part(p.store, d).record == Some(p.Next())
  {
    PlanPlaced(p, whole);
    if p.Relocations() != [] && d in p.Copies() {
      if t :| t in p.Relocations() && t.device == d {
        TargetListed(p.record, p.serving, p.Relocations(), t);
      }
    }
  }

  lemma StaleServing(p: Plan, whole: Stored -> bool, d: nat)
    requires Sound(p, whole) && d in Devices(p.Next())
    ensures p.Spared() ==> d !in p.Stale()
  {
    PlanPlaced(p, whole);
    RelocatedPlaced(p.record, p.serving, p.Relocations());
    SparedMeans(p, whole);
    StaleMembers(p.record, p.located, d);
  }

  /** Every device of the final placement has the final record. */
  lemma ListedHold(p: Plan, whole: Stored -> bool, writes: seq<ShardWrite>, d: nat)
    requires Sound(p, whole) && p.Spared() && d in Devices(p.Next())
    ensures Part(Mended(p, writes), d).record == Some(p.Next()) && d !in p.Stale() && d in p.serving
  {
    PlanPlaced(p, whole);
    StaleServing(p, whole, d);
    CopiesListed(p, whole, d);
    ChangedRecord(p.store, writes, p.Copies(), p.Next(), p.Stale(), d);
  }

  /** And no other device in service has a copy. */
  lemma OthersBare(p: Plan, whole: Stored -> bool, writes: seq<ShardWrite>, d: nat)
    requires Sound(p, whole) && d in p.serving && d !in Devices(p.Next())
    ensures Part(Mended(p, writes), d).record.None?
  {
    ChangedRecord(p.store, writes, p.Copies(), p.Next(), p.Stale(), d);
    CopiesListed(p, whole, d);
    if d !in p.Stale() && Part(p.store, d).record.Some? {
      assert Located(d, Part(p.store, d).record.value) in p.located;
      PlanPlaced(p, whole);
      StaleMembers(p.record, p.located, d);
      StillListed(p.record, p.serving, p.Relocations(), d);
    }
  }

  /** A shard of the final placement is a target, or was whole where it is. */
  lemma TargetOrWhole(p: Plan, whole: Stored -> bool, s: Location)
    requires Sound(p, whole) && p.record.body.size > 0 && s in p.Next().shards
    ensures s in p.Targets() || Intact(p.store, whole, s.device, s.index)
  {
    PlanPlaced(p, whole);
    var n :| 0 <= n < |p.Next().shards| && p.Next().shards[n] == s;
    var from := p.record.shards[n];
    NextShard(p.record, p.serving, p.Relocations(), n);
    assert from in p.record.shards;
    LookupsInverse(p.record, from);
    DestinationOf(p.record, p.serving, p.Relocations(), from);
  }

  /** Every listed shard is whole in the end. */
  lemma ShardThere(p: Plan, whole: Stored -> bool, writes: seq<ShardWrite>, s: Location)
    requires Sound(p, whole) && Fulfils(p, whole, writes) && p.Spared() && p.record.body.size > 0 && s in p.Next().shards
    ensures Intact(Mended(p, writes), whole, s.device, s.index) && ShardOn(p.Next(), s.device) == Some(s.index)
  {
    assert s.device in Devices(p.Next());
    ListedHold(p, whole, writes, s.device);
    TargetOrWhole(p, whole, s);
    ChangedFile(p.store, writes, p.Copies(), p.Next(), p.Stale(), s.device, s.index);
    PlanPlaced(p, whole);
    LookupsInverse(p.Next(), s);
  }

  // -------------------------------------------------------------- the scrub

  /** The file flags a record stream reports with each copy. */
  ghost predicate Flags(store: Store, located: seq<Located>, present: map<nat, bool>) {
    forall c <- located :: c.device in present &&
      (present[c.device] <==> ShardOn(c.record, c.device).Some? && ShardOn(c.record, c.device).value in Part(store, c.device).files)
  }

  lemma FoundAre(p: Plan, whole: Stored -> bool, writes: seq<ShardWrite>, found: seq<Located>)
    requires Sound(p, whole) && p.Spared() && Found(Mended(p, writes), p.serving, found)
    ensures forall c <- found :: c.record == p.Next() && c.device in Devices(p.Next())
    ensures forall d <- Devices(p.Next()) :: Located(d, p.Next()) in found
    ensures found != []
  {
    forall c | c in found ensures c.record == p.Next() && c.device in Devices(p.Next()) {
      if c.device in Devices(p.Next()) {
        ListedHold(p, whole, writes, c.device);
      } else {
        OthersBare(p, whole, writes, c.device);
      }
    }
    forall d | d in Devices(p.Next()) ensures Located(d, p.Next()) in found {
      ListedHold(p, whole, writes, d);
    }
    PlanPlaced(p, whole);
    assert p.Next().shards[0] in p.Next().shards;
    assert p.Next().shards[0].device in Devices(p.Next());
  }

  lemma PresentAfterRepair(p: Plan, whole: Stored -> bool, writes: seq<ShardWrite>, found: seq<Located>, present: map<nat, bool>)
    requires Sound(p, whole) && Fulfils(p, whole, writes) && p.Spared() && p.record.body.size > 0
    requires Found(Mended(p, writes), p.serving, found) && Flags(Mended(p, writes), found, present)
    ensures forall s <- p.Next().shards :: s.device in present && present[s.device]
  {
    FoundAre(p, whole, writes, found);
    forall s | s in p.Next().shards ensures s.device in present && present[s.device] {
      ShardThere(p, whole, writes, s);
      assert s.device in Devices(p.Next());
      assert Located(s.device, p.Next()) in found;
    }
  }

  /** Copies that are all of one record, one on each device it lists, files
      and all, are clean. */
  lemma AllThereIsClean(found: seq<Located>, next: Record, present: map<nat, bool>, serving: set<nat>)
    requires (forall c <- found :: c.record == next && c.device in Devices(next)) && found != []
    requires (forall d <- Devices(next) :: Located(d, next) in found) && Devices(next) <= serving
    requires next.body.size > 0 ==> forall s <- next.shards :: s.device in present && present[s.device]
    ensures Clean(found, next, present, {}, serving)
  {
    assert found[0] in found;
    forall d | d in Devices(next) ensures HasCopy(found, d, next.revision) {
      assert Located(d, next) in found;
    }
    forall s | s in next.shards ensures s.device in serving {
      assert s.device in Devices(next);
    }
  }

  /** Repair makes the version clean for the scrub, exactly when none of the
      devices it chooses, the best ranked ones that hold no shard, holds a
      stale copy: those are listed before the choice and removed after it. */
  lemma CleanAfterRepair(p: Plan, whole: Stored -> bool, writes: seq<ShardWrite>, found: seq<Located>, present: map<nat, bool>)
    requires Sound(p, whole) && Fulfils(p, whole, writes)
    requires Found(Mended(p, writes), p.serving, found) && Flags(Mended(p, writes), found, present)
    ensures Clean(found, p.Next(), present, {}, p.serving) <==> p.Spared()
  {
    if p.Spared() {
      SparedIsClean(p, whole, writes, found, present);
    } else {
      SparedMeans(p, whole);
      var t :| t in p.Relocations() && t.device in p.Stale();
      RemovedIsNotClean(p, whole, writes, found, present, t);
    }
  }

  lemma RemovedIsNotClean(p: Plan, whole: Stored -> bool, writes: seq<ShardWrite>, found: seq<Located>, present: map<nat, bool>,
                          t: Location)
    requires Sound(p, whole) && t in p.Relocations() && t.device in p.Stale() && Found(Mended(p, writes), p.serving, found)
    ensures !Clean(found, p.Next(), present, {}, p.serving)
  {
    PlanPlaced(p, whole);
    TargetRemoved(p, whole, writes, t);
    assert !HasCopy(found, t.device, p.Next().revision);
  }

  lemma SparedIsClean(p: Plan, whole: Stored -> bool, writes: seq<ShardWrite>, found: seq<Located>, present: map<nat, bool>)
    requires Sound(p, whole) && Fulfils(p, whole, writes) && p.Spared()
    requires Found(Mended(p, writes), p.serving, found) && Flags(Mended(p, writes), found, present)
    ensures Clean(found, p.Next(), present, {}, p.serving)
  {
    PlanPlaced(p, whole);
    FoundAre(p, whole, writes, found);
    if p.record.body.size > 0 {
      PresentAfterRepair(p, whole, writes, found, present);
    }
    AllThereIsClean(found, p.Next(), present, p.serving);
  }

  /** A chosen device with a stale copy is listed, and bare. */
  lemma TargetRemoved(p: Plan, whole: Stored -> bool, writes: seq<ShardWrite>, t: Location)
    requires Sound(p, whole) && t in p.Relocations() && t.device in p.Stale()
    ensures t.device in Devices(p.Next()) && Part(Mended(p, writes), t.device) == Held(None, map[])
  {
    PlanPlaced(p, whole);
    TargetListed(p.record, p.serving, p.Relocations(), t);
    ChangedRecord(p.store, writes, p.Copies(), p.Next(), p.Stale(), t.device);
    ChangedFile(p.store, writes, p.Copies(), p.Next(), p.Stale(), t.device, 0);
  }

  /** Such a device is real. Moving shard 0 of an object with two shards from
      device 1 to device 3 was interrupted: device 2 has the record at revision
      1, device 1 still has it at revision 0. Device 3 is then lost, and device
      1 is the only one to relocate to. */
  ghost predicate MovedThenLost(p: Plan) {
    && p.record.body.k >= 1 && p.record.Total() == 2 && p.key == p.record.body.key
    && p.record.revision == 1 && p.record.shards == [Location(0, 3), Location(1, 2)]
    && |p.located| == 2 && p.located[0].device == 1 && p.located[1] == Located(2, p.record)
    && p.located[0].record == p.record.(revision := 0, shards := [Location(0, 1), Location(1, 2)])
    && p.store.Keys == {1, 2} && p.serving == {1, 2} && p.ranked == [1]
    && p.store[1].record == Some(p.located[0].record) && p.store[2].record == Some(p.record)
  }

  lemma MovedRelocates(p: Plan)
    requires MovedThenLost(p)
    ensures p.Lost() == [0] && Eligible(p.ranked, p.record) == [1] && p.Relocations() == [Location(0, 1)]
  {
    var shards := p.record.shards;
    assert shards[..1] == [Location(0, 3)] && shards[..1][..0] == [];
    assert LostShards([], p.serving) == [] && LostShards(shards[..1], p.serving) == [0];
    assert p.ranked[..0] == [] && ShardOn(p.record, 1).None?;
  }

  lemma MovedStale(p: Plan)
    requires MovedThenLost(p)
    ensures 1 in p.Stale()
  {
    StaleMembers(p.record, p.located, 1);
    assert p.located[0] in p.located;
  }

  lemma MovedFound(p: Plan)
    requires MovedThenLost(p)
    ensures Found(p.store, p.serving, p.located) && AgreeOn(p.located, p.key, p.record)
  {
    assert p.located[0] in p.located && p.located[1] in p.located && Location(1, 2) in p.record.shards;
  }

  lemma MovedRepairable(p: Plan)
    requires MovedThenLost(p)
    ensures Repairable(p.located, p.key, p.record)
  {
    MovedFound(p);
    assert forall c <- p.located :: SameBody(p.record, c.record);
    AllVouch(p.located, p.record);
  }

  lemma MovedSound(p: Plan, whole: Stored -> bool)
    requires MovedThenLost(p)
    requires p.record.body.size > 0 ==> p.whole == [false, true] && Intact(p.store, whole, 2, 1)
    ensures Sound(p, whole)
  {
    MovedFound(p);
    MovedRelocates(p);
  }

  /** The object has a body: a repair rebuilds the shard on device 1, and
      removes it again. */
  lemma InterruptedMoveThenLoss(p: Plan, whole: Stored -> bool, writes: seq<ShardWrite>)
    requires MovedThenLost(p) && p.record.body.size > 0 && p.whole == [false, true] && Intact(p.store, whole, 2, 1)
    ensures Sound(p, whole) && Repairable(p.located, p.key, p.record) && !p.Spared()
    ensures Location(0, 1) in p.Relocations() && Part(Mended(p, writes), 1) == Held(None, map[])
  {
    MovedSound(p, whole);
    MovedRepairable(p);
    MovedRelocates(p);
    MovedStale(p);
    TargetRemoved(p, whole, writes, Location(0, 1));
  }

  // ------------------------------------------------- repairs that stop short

  /** Some of the changes of a plan: any of the files, copies and removals. */
  ghost predicate PartOf(p: Plan, whole: Stored -> bool, writes: seq<ShardWrite>, copies: seq<nat>, removed: seq<nat>) {
    && (forall w <- writes :: w.at in p.Targets() && whole(Stored(w.bytes, {})))
    && (forall d <- copies :: d in p.Copies()) && (forall d <- removed :: d in p.Stale())
  }

  /** Wherever a repair stops, every shard that was whole is still whole where
      the record it started from lists it. */
  lemma NothingLost(p: Plan, whole: Stored -> bool, writes: seq<ShardWrite>, copies: seq<nat>, removed: seq<nat>, s: Location)
    requires Sound(p, whole) && PartOf(p, whole, writes, copies, removed)
    requires s in p.record.shards && Intact(p.store, whole, s.device, s.index)
    ensures Intact(Changed(p.store, writes, copies, p.Next(), removed), whole, s.device, s.index)
  {
    assert s.device in Devices(p.record);
    ChangedFile(p.store, writes, copies, p.Next(), removed, s.device, s.index);
  }

  lemma {:induction false} AllVouch(copies: seq<Located>, record: Record)
    requires forall c <- copies :: SameBody(record, c.record)
    ensures VouchingCount(copies, record) == |copies|
  {
    if copies != [] {
      var before := copies[..|copies| - 1];
      assert copies == before + [copies[|copies| - 1]];
      AllVouch(before, record);
    }
  }

  ghost function DeviceList(copies: seq<Located>): (devices: seq<nat>)
    ensures |devices| == |copies| && forall n :: 0 <= n < |copies| ==> devices[n] == copies[n].device
  {
    seq(|copies|, n requires 0 <= n < |copies| => copies[n].device)
  }

  /** As many copies as there are devices known to have one. */
  lemma AtLeastAsMany(copies: seq<Located>, devices: set<nat>)
    requires forall i, j :: 0 <= i < j < |copies| ==> copies[i].device != copies[j].device
    requires forall d <- devices :: exists c :: c in copies && c.device == d
    ensures |copies| >= |devices|
  {
    DistinctCount(DeviceList(copies));
    forall d | d in devices ensures d in Elements(DeviceList(copies)) {
      var c :| c in copies && c.device == d;
      var n :| 0 <= n < |copies| && copies[n] == c;
      assert DeviceList(copies)[n] in DeviceList(copies);
    }
    SubsetCount(devices, Elements(DeviceList(copies)));
  }

  /** Every copy a partial repair leaves is the final record's, or one that was
      there; and all are of one body. */
  lemma CopyLeft(p: Plan, whole: Stored -> bool, writes: seq<ShardWrite>, copies: seq<nat>, removed: seq<nat>,
                 found: seq<Located>, c: Located)
    requires Sound(p, whole) && PartOf(p, whole, writes, copies, removed) && Repairable(p.located, p.key, p.record)
    requires Found(Changed(p.store, writes, copies, p.Next(), removed), p.serving, found) && c in found
    ensures SameBody(p.record, c.record)
    ensures (c.record == p.Next() && c.device in Devices(p.Next())) || (c in p.located && c.record.revision <= p.record.revision)
  {
    ChangedRecord(p.store, writes, copies, p.Next(), removed, c.device);
    CopiesListed(p, whole, c.device);
    if c.device !in copies {
      assert Located(c.device, Part(p.store, c.device).record.value) in p.located;
    }
  }

  /** A copy the record lists, at its revision, is there still, or replaced by
      the final one. */
  lemma CurrentLeft(p: Plan, whole: Stored -> bool, writes: seq<ShardWrite>, copies: seq<nat>, removed: seq<nat>,
                    found: seq<Located>, c: Located)
    requires Sound(p, whole) && PartOf(p, whole, writes, copies, removed) && c in p.located && c.device !in removed
    requires Found(Changed(p.store, writes, copies, p.Next(), removed), p.serving, found)
    ensures c in found || Located(c.device, p.Next()) in found
  {
    ChangedRecord(p.store, writes, copies, p.Next(), removed, c.device);
  }

  /** What the copies left agree on: the final record once it has a copy. */
  lemma AgreeAgain(p: Plan, found: seq<Located>, current: Located)
    requires AgreeOn(p.located, p.key, p.record) && current in p.located && current.record == p.record
    requires current in found || Located(current.device, p.Next()) in found
    requires forall c <- found :: SameBody(p.record, c.record)
    requires forall c <- found :: (c.record == p.Next() && c.device in Devices(p.Next())) || (c in p.located && c.record.revision <= p.record.revision)
    ensures AgreeOn(found, p.key, p.record) || AgreeOn(found, p.key, p.Next())
  {
    if exists c :: c in found && c.record == p.Next() {
      assert AgreeOn(found, p.key, p.Next());
    } else {
      assert AgreeOn(found, p.key, p.record);
    }
  }

  lemma CurrentStays(p: Plan, whole: Stored -> bool, writes: seq<ShardWrite>, copies: seq<nat>, removed: seq<nat>,
                     found: seq<Located>) returns (current: Located)
    requires Sound(p, whole) && PartOf(p, whole, writes, copies, removed)
    requires Found(Changed(p.store, writes, copies, p.Next(), removed), p.serving, found)
    ensures current in p.located && current.record == p.record
    ensures current in found || Located(current.device, p.Next()) in found
  {
    current :| current in p.located && current.record.revision == p.record.revision;
    StaleMembers(p.record, p.located, current.device);
    CurrentLeft(p, whole, writes, copies, removed, found, current);
  }

  lemma CopiesLeft(p: Plan, whole: Stored -> bool, writes: seq<ShardWrite>, copies: seq<nat>, removed: seq<nat>,
                   found: seq<Located>)
    requires Sound(p, whole) && PartOf(p, whole, writes, copies, removed) && Repairable(p.located, p.key, p.record)
    requires Found(Changed(p.store, writes, copies, p.Next(), removed), p.serving, found)
    ensures AgreeOn(found, p.key, p.record) || AgreeOn(found, p.key, p.Next())
    ensures forall c <- found :: SameBody(p.record, c.record)
  {
    forall c | c in found
      ensures SameBody(p.record, c.record)
      ensures (c.record == p.Next() && c.device in Devices(p.Next())) || (c in p.located && c.record.revision <= p.record.revision)
    {
      CopyLeft(p, whole, writes, copies, removed, found, c);
    }
    var current := CurrentStays(p, whole, writes, copies, removed, found);
    AgreeAgain(p, found, current);
  }

  ghost function WholeCount(p: Plan): nat {
    |set i: nat | i < |p.whole| && p.whole[i]|
  }

  /** Before the removals a repair may stop anywhere: there is a record to
      complete towards. */
  lemma RepairableBefore(p: Plan, whole: Stored -> bool, writes: seq<ShardWrite>, copies: seq<nat>, found: seq<Located>)
    requires Sound(p, whole) && PartOf(p, whole, writes, copies, []) && Repairable(p.located, p.key, p.record)
    requires Found(Changed(p.store, writes, copies, p.Next(), []), p.serving, found)
    ensures Repairable(found, p.key, p.record) || Repairable(found, p.key, p.Next())
  {
    CopiesLeft(p, whole, writes, copies, [], found);
    AllVouch(found, p.record);
    AllVouch(found, p.Next());
    OldCopiesLeft(p, whole, writes, copies, found);
  }

  /** The devices with a copy once the final record is written and those in
      `removed` are bare. */
  ghost function CopiesKept(p: Plan, removed: seq<nat>): set<nat> {
    Devices(p.Next()) + Elements(p.Stale()) - Elements(removed)
  }

  lemma KeptHasCopy(p: Plan, whole: Stored -> bool, writes: seq<ShardWrite>, removed: seq<nat>, d: nat)
    requires Sound(p, whole) && PartOf(p, whole, writes, p.Copies(), removed)
    ensures d in CopiesKept(p, removed) <==>
              d in p.serving && Part(Changed(p.store, writes, p.Copies(), p.Next(), removed), d).record.Some?
  {
    ChangedRecord(p.store, writes, p.Copies(), p.Next(), removed, d);
    PlanPlaced(p, whole);
    CopiesListed(p, whole, d);
    StaleMembers(p.record, p.located, d);
    if d in p.serving {
      StillListed(p.record, p.serving, p.Relocations(), d);
      if Part(p.store, d).record.Some? {
        assert Located(d, Part(p.store, d).record.value) in p.located;
      }
    }
  }

  lemma FoundOnKept(p: Plan, whole: Stored -> bool, writes: seq<ShardWrite>, removed: seq<nat>, found: seq<Located>)
    requires Sound(p, whole) && PartOf(p, whole, writes, p.Copies(), removed)
    requires Found(Changed(p.store, writes, p.Copies(), p.Next(), removed), p.serving, found)
    ensures |found| == |CopiesKept(p, removed)|
  {
    var devices := DeviceList(found);
    DistinctCount(devices);
    forall d ensures d in Elements(devices) <==> d in CopiesKept(p, removed) {
      KeptHasCopy(p, whole, writes, removed, d);
      OnFound(Changed(p.store, writes, p.Copies(), p.Next(), removed), p.serving, found, d);
    }
    assert Elements(devices) == CopiesKept(p, removed);
  }

  lemma OnFound(store: Store, serving: set<nat>, found: seq<Located>, d: nat)
    requires Found(store, serving, found)
    ensures d in DeviceList(found) <==> d in serving && Part(store, d).record.Some?
  {
    if d in DeviceList(found) {
      var n :| 0 <= n < |found| && DeviceList(found)[n] == d;
      assert found[n] in found;
    }
    if d in serving && Part(store, d).record.Some? {
      var n :| 0 <= n < |found| && found[n] == Located(d, Part(store, d).record.value);
      assert DeviceList(found)[n] == d;
    }
  }

  /** Among the removals there is a record to complete towards exactly while at
      least k copies are left. */
  lemma RepairableAmong(p: Plan, whole: Stored -> bool, writes: seq<ShardWrite>, removed: seq<nat>, found: seq<Located>)
    requires Sound(p, whole) && PartOf(p, whole, writes, p.Copies(), removed) && Repairable(p.located, p.key, p.record)
    requires Found(Changed(p.store, writes, p.Copies(), p.Next(), removed), p.serving, found)
    ensures Repairable(found, p.key, p.record) || Repairable(found, p.key, p.Next()) <==>
              |CopiesKept(p, removed)| >= p.record.body.k
  {
    CopiesLeft(p, whole, writes, p.Copies(), removed, found);
    AllVouch(found, p.record);
    AllVouch(found, p.Next());
    FoundOnKept(p, whole, writes, removed, found);
  }

  /** The devices chosen for a lost shard that hold a stale copy. */
  ghost function StaleChosen(p: Plan): set<nat> {
    set t | t in p.Relocations() && t.device in p.Stale() :: t.device
  }

  lemma KeptAfterAll(p: Plan, whole: Stored -> bool)
    requires Sound(p, whole)
    ensures |CopiesKept(p, p.Stale())| == p.record.Total() - |StaleChosen(p)|
  {
    PlanPlaced(p, whole);
    RelocatedPlaced(p.record, p.serving, p.Relocations());
    DeviceCount(p.Next());
    forall d ensures d in StaleChosen(p) <==> d in Devices(p.Next()) && d in p.Stale() {
      StaleMembers(p.record, p.located, d);
      if t :| t in p.Relocations() && t.device == d {
        TargetListed(p.record, p.serving, p.Relocations(), t);
      }
    }
    assert CopiesKept(p, p.Stale()) == Devices(p.Next()) - StaleChosen(p);
    assert Devices(p.Next()) == CopiesKept(p, p.Stale()) + StaleChosen(p);
  }

  /** A finished repair leaves a record to complete towards exactly when at most
      m of the devices it chose held a stale copy, the copies of which it
      removed again. */
  lemma RepairableAfter(p: Plan, whole: Stored -> bool, writes: seq<ShardWrite>, found: seq<Located>)
    requires Sound(p, whole) && Fulfils(p, whole, writes) && Repairable(p.located, p.key, p.record)
    requires Found(Mended(p, writes), p.serving, found)
    ensures Repairable(found, p.key, p.record) || Repairable(found, p.key, p.Next()) <==> |StaleChosen(p)| <= p.record.body.m
  {
    RepairableAmong(p, whole, writes, p.Stale(), found);
    KeptAfterAll(p, whole);
  }

  /** At least k copies are left wherever the removals stop, if the chosen
      devices were spared. */
  lemma SparedKeeps(p: Plan, whole: Stored -> bool, removed: seq<nat>)
    requires Sound(p, whole) && p.Spared() && forall d <- removed :: d in p.Stale()
    ensures |CopiesKept(p, removed)| >= p.record.body.k
  {
    PlanPlaced(p, whole);
    forall d | d in Devices(p.Next()) ensures d in CopiesKept(p, removed) {
      StaleServing(p, whole, d);
    }
    DeviceCount(p.Next());
    SubsetCount(Devices(p.Next()), CopiesKept(p, removed));
  }

  /** The shards that are whole where the record lists them. */
  function KeptOf(shards: seq<Location>, whole: seq<bool>): (kept: seq<Location>)
    ensures forall s :: s in kept <==> s in shards && s.index < |whole| && whole[s.index]
  {
    if shards == [] then []
    else
      var before, last := KeptOf(shards[..|shards| - 1], whole), shards[|shards| - 1];
      assert shards == shards[..|shards| - 1] + [last];
      if last.index < |whole| && whole[last.index] then before + [last] else before
  }

  ghost predicate DistinctLocations(shards: seq<Location>) {
    forall i, j :: 0 <= i < j < |shards| ==> shards[i].index != shards[j].index && shards[i].device != shards[j].device
  }

  lemma OneMoreLocation(shards: seq<Location>, last: Location)
    ensures DistinctLocations(shards + [last]) <==>
              DistinctLocations(shards) && forall s <- shards :: s.index != last.index && s.device != last.device
  {
    var all := shards + [last];
    if DistinctLocations(all) {
      forall i, j | 0 <= i < j < |shards|
        ensures shards[i].index != shards[j].index && shards[i].device != shards[j].device
      {
        assert all[i] == shards[i] && all[j] == shards[j];
      }
      forall s | s in shards ensures s.index != last.index && s.device != last.device {
        var n :| 0 <= n < |shards| && shards[n] == s;
        assert all[n] == s && all[|shards|] == last;
      }
    }
  }

  lemma {:induction false} KeptDistinct(shards: seq<Location>, whole: seq<bool>)
    requires DistinctLocations(shards)
    ensures DistinctLocations(KeptOf(shards, whole))
  {
    if shards != [] {
      var before, last := shards[..|shards| - 1], shards[|shards| - 1];
      assert shards == before + [last];
      OneMoreLocation(before, last);
      KeptDistinct(before, whole);
      OneMoreLocation(KeptOf(before, whole), last);
    }
  }

  ghost function IndexList(shards: seq<Location>): (indices: seq<nat>)
    ensures |indices| == |shards| && forall n :: 0 <= n < |shards| ==> indices[n] == shards[n].index
  {
    seq(|shards|, n requires 0 <= n < |shards| => shards[n].index)
  }

  lemma WholeIsKept(shards: seq<Location>, total: nat, whole: seq<bool>, i: nat)
    requires PlacementOk(shards, total) && |whole| == total && i < total && whole[i]
    ensures i in IndexList(KeptOf(shards, whole))
  {
    AllIndicesNamed(shards, total, i);
    var n :| 0 <= n < |shards| && shards[n].index == i;
    assert shards[n] in KeptOf(shards, whole);
    var m :| 0 <= m < |KeptOf(shards, whole)| && KeptOf(shards, whole)[m] == shards[n];
    assert IndexList(KeptOf(shards, whole))[m] == i;
  }

  lemma KeptIsWhole(shards: seq<Location>, whole: seq<bool>, i: nat)
    requires i in IndexList(KeptOf(shards, whole))
    ensures i < |whole| && whole[i]
  {
    var m :| 0 <= m < |KeptOf(shards, whole)| && IndexList(KeptOf(shards, whole))[m] == i;
    assert KeptOf(shards, whole)[m] in KeptOf(shards, whole);
  }

  /** As many shards are kept as are whole. */
  lemma KeptCount(p: Plan)
    requires PlacementOk(p.record.shards, p.record.Total()) && |p.whole| == p.record.Total()
    ensures WholeCount(p) == |KeptOf(p.record.shards, p.whole)|
  {
    var indices := IndexList(KeptOf(p.record.shards, p.whole));
    KeptDistinct(p.record.shards, p.whole);
    DistinctCount(indices);
    var there := set i: nat | i < |p.whole| && p.whole[i];
    forall i | i in there ensures i in Elements(indices) {
      WholeIsKept(p.record.shards, p.record.Total(), p.whole, i);
    }
    forall i | i in Elements(indices) ensures i in there {
      KeptIsWhole(p.record.shards, p.whole, i);
    }
    assert there == Elements(indices);
  }

  /** A device with a whole shard keeps its copy. */
  lemma WholeKeepsCopy(p: Plan, whole: Stored -> bool, removed: seq<nat>, s: Location)
    requires Sound(p, whole) && (forall d <- removed :: d in p.Stale()) && s in p.record.shards && s.device in p.serving
    ensures s.device in CopiesKept(p, removed)
  {
    assert s.device in Devices(p.record);
    PlanPlaced(p, whole);
    StillListed(p.record, p.serving, p.Relocations(), s.device);
  }

  /** An object with a body has k whole shards when it is repaired, and keeps
      the copies beside them. */
  lemma BodyKeeps(p: Plan, whole: Stored -> bool, removed: seq<nat>)
    requires Sound(p, whole) && forall d <- removed :: d in p.Stale()
    requires p.record.body.size > 0 && WholeCount(p) >= p.record.body.k
    ensures |CopiesKept(p, removed)| >= p.record.body.k
  {
    KeptCount(p);
    var kept := KeptOf(p.record.shards, p.whole);
    KeptDistinct(p.record.shards, p.whole);
    var devices := seq(|kept|, n requires 0 <= n < |kept| => kept[n].device);
    DistinctCount(devices);
    forall d | d in Elements(devices) ensures d in CopiesKept(p, removed) {
      var n :| 0 <= n < |kept| && devices[n] == d;
      assert kept[n] in kept;
      WholeKeepsCopy(p, whole, removed, kept[n]);
    }
    SubsetCount(Elements(devices), CopiesKept(p, removed));
  }

  lemma OldCopiesLeft(p: Plan, whole: Stored -> bool, writes: seq<ShardWrite>, copies: seq<nat>, found: seq<Located>)
    requires Sound(p, whole) && PartOf(p, whole, writes, copies, []) && Repairable(p.located, p.key, p.record)
    requires Found(Changed(p.store, writes, copies, p.Next(), []), p.serving, found)
    ensures |found| >= p.record.body.k
  {
    AllVouch(p.located, p.record);
    DistinctCount(DeviceList(p.located));
    forall d | d in Elements(DeviceList(p.located)) ensures exists c :: c in found && c.device == d {
      var n :| 0 <= n < |p.located| && p.located[n].device == d;
      assert p.located[n] in p.located;
      CurrentLeft(p, whole, writes, copies, [], found, p.located[n]);
    }
    AtLeastAsMany(found, Elements(DeviceList(p.located)));
  }

  /** The object is empty and coded 2+0: a repair loses it. It writes the final
      record to devices 1 and 2 and removes the one on device 1, and one copy is
      too few. */
  lemma EmptyMoveThenLoss(p: Plan, whole: Stored -> bool, writes: seq<ShardWrite>, found: seq<Located>)
    requires MovedThenLost(p) && p.record.body.size == 0 && p.record.body.m == 0
    requires Fulfils(p, whole, writes) && Found(Mended(p, writes), p.serving, found)
    ensures Sound(p, whole) && Repairable(p.located, p.key, p.record)
    ensures forall r :: !Repairable(found, p.key, r)
  {
    MovedSound(p, whole);
    MovedRepairable(p);
    MovedRelocates(p);
    MovedStale(p);
    assert 1 in StaleChosen(p) by {
      assert Location(0, 1) in p.Relocations();
    }
    SubsetCount({1}, StaleChosen(p));
    RepairableAfter(p, whole, writes, found);
    CopiesLeft(p, whole, writes, p.Copies(), p.Stale(), found);
    forall r | AgreeOn(found, p.key, r) ensures r == p.record || r == p.Next() {
      OneAgreed(p, found, r);
    }
  }

  lemma OneAgreed(p: Plan, found: seq<Located>, r: Record)
    requires AgreeOn(found, p.key, p.record) || AgreeOn(found, p.key, p.Next())
    requires AgreeOn(found, p.key, r)
    ensures r == p.record || r == p.Next()
  {
    if AgreeOn(found, p.key, p.record) {
      AgreementUnique(found, p.key, r, p.record);
    } else {
      AgreementUnique(found, p.key, r, p.Next());
    }
  }
}
