/** `repair_object` (crates/djbod-node/src/coordinator.rs:2147-2660) on the
    bytes of the shard files: what it needs, what it writes, where it can stop,
    and what the scrub then finds. */
module RepairScrub {
  import opened Prelude
  import opened Geometry
  import opened Erasure
  import opened ObjectWrite
  import opened ObjectRead
  import opened ObjectRepair
  import opened Records
  import opened Replacement
  import opened Scrub
  import opened RepairPlacement

  // ------------------------------------------------- the record and its body

  /** What a repair brings besides the record: the code of its scheme, the
      checksum, and the version's names in a file header. */
  datatype Coding = Coding(code: Code, sum: Checksum, keyHash: seq<Byte>, versionId: seq<Byte>)

  predicate Bounded(r: Record) {
    r.body.size < TWO_TO_64 && r.body.checksum < TWO_TO_64 && r.body.blockSize < TWO_TO_64
  }

  function ObjectOf(r: Record, c: Coding): Object
    requires Bounded(r)
  {
    Object(c.code, c.sum, r.body.blockSize, c.keyHash, c.versionId, r.body.size, r.body.checksum)
  }

  /** The record is that of `body`, put under this code. */
  ghost predicate WasPut(r: Record, c: Coding, body: seq<Byte>) {
    Bounded(r) && c.code.scheme == Scheme(r.body.k, r.body.m) && Describes(ObjectOf(r, c), body)
  }

  // ------------------------------------------------------ the shards as served

  function ShardAt(store: Store, serving: set<nat>, r: Record, i: nat, count: nat, sum: Checksum): Shard {
    match DeviceFor(r, i)
    case None => Shard.Unreadable
    case Some(d) =>
      if d in serving && i in Part(store, d).files then Shown(Part(store, d).files[i], count, sum) else Shard.Unreadable
  }

  /** What `open_repair_sources` finds: a device out of service, a missing file
      and one its node refuses to serve are all shards to rebuild. */
  function View(store: Store, serving: set<nat>, r: Record, count: nat, sum: Checksum): (shards: seq<Shard>)
    ensures |shards| == r.Total()
  {
    seq(r.Total(), i requires 0 <= i < r.Total() => ShardAt(store, serving, r, i, count, sum))
  }

  ghost function StripesIn(r: Record, c: Coding, body: seq<Byte>): seq<Block>
    requires WasPut(r, c, body)
  {
    StripesOf(ObjectOf(r, c), body)
  }

  /** The shards of the record as a repair sees them. */
  ghost function Seen(store: Store, serving: set<nat>, r: Record, c: Coding, body: seq<Byte>): (shards: seq<Shard>)
    requires WasPut(r, c, body)
    ensures |shards| == r.Total()
  {
    View(store, serving, r, |StripesIn(r, c, body)|, c.sum)
  }

  ghost function WholeTest(r: Record, c: Coding, body: seq<Byte>): Stored -> bool
    requires WasPut(r, c, body)
  {
    (f: Stored) => WholeFile(c.code, c.sum, StripesIn(r, c, body), f)
  }

  lemma SameShard(code: Code, sum: Checksum, stripes: seq<Block>, shards: seq<Shard>, i: nat, others: seq<Shard>, j: nat)
    requires code.scheme.k > 0 && i < |shards| && j < |others| && shards[i] == others[j]
    ensures WholeUpTo(code, sum, stripes, shards, i, |stripes|) <==> WholeUpTo(code, sum, stripes, others, j, |stripes|)
  {
    forall s: nat | s < |stripes|
      ensures GoodBlock(shards, i, s, CeilDiv(|stripes[s]|, code.scheme.k), sum)
         <==> GoodBlock(others, j, s, CeilDiv(|stripes[s]|, code.scheme.k), sum)
    {
    }
  }

  /** A shard is whole as seen exactly when its file is, on a device in
      service. */
  lemma SeenWhole(store: Store, serving: set<nat>, r: Record, c: Coding, body: seq<Byte>, s: Location)
    requires WasPut(r, c, body) && PlacementOk(r.shards, r.Total()) && s in r.shards
    ensures s.index in WholeShards(c.code, c.sum, StripesIn(r, c, body), Seen(store, serving, r, c, body)) <==>
              s.device in serving && Intact(store, WholeTest(r, c, body), s.device, s.index)
  {
    var stripes, shards := StripesIn(r, c, body), Seen(store, serving, r, c, body);
    LookupsInverse(r, s);
    if s.device in serving && s.index in Part(store, s.device).files {
      var f := Part(store, s.device).files[s.index];
      SameShard(c.code, c.sum, stripes, shards, s.index, [Shown(f, |stripes|, c.sum)], 0);
    }
  }

  /** Which shards are whole. */
  ghost function WholeFlags(store: Store, serving: set<nat>, r: Record, c: Coding, body: seq<Byte>): (whole: seq<bool>)
    requires WasPut(r, c, body)
    ensures |whole| == r.Total()
  {
    var there := WholeShards(c.code, c.sum, StripesIn(r, c, body), Seen(store, serving, r, c, body));
    seq(r.Total(), i requires 0 <= i < r.Total() => i in there)
  }

  lemma FlagsAre(store: Store, serving: set<nat>, r: Record, c: Coding, body: seq<Byte>, whole: seq<bool>)
    requires WasPut(r, c, body)
    requires FlagsWhole(c.code, c.sum, StripesIn(r, c, body), Seen(store, serving, r, c, body), whole, |StripesIn(r, c, body)|)
    ensures whole == WholeFlags(store, serving, r, c, body)
  {
  }

  /** What a repair of this record goes by. */
  ghost function PlanFor(store: Store, serving: set<nat>, located: seq<Located>, key: seq<Byte>, r: Record, ranked: seq<nat>,
                         c: Coding, body: seq<Byte>): Plan
    requires WasPut(r, c, body)
  {
    Plan(store, serving, located, key, r, ranked, if r.body.size == 0 then [] else WholeFlags(store, serving, r, c, body))
  }

  lemma FlagsMean(store: Store, serving: set<nat>, r: Record, c: Coding, body: seq<Byte>)
    requires WasPut(r, c, body) && PlacementOk(r.shards, r.Total())
    ensures forall s <- r.shards :: WholeFlags(store, serving, r, c, body)[s.index] <==>
              s.device in serving && Intact(store, WholeTest(r, c, body), s.device, s.index)
  {
    forall s | s in r.shards
      ensures WholeFlags(store, serving, r, c, body)[s.index] <==>
                s.device in serving && Intact(store, WholeTest(r, c, body), s.device, s.index)
    {
      SeenWhole(store, serving, r, c, body, s);
    }
  }

  lemma PlanSound(store: Store, serving: set<nat>, located: seq<Located>, key: seq<Byte>, r: Record, ranked: seq<nat>,
                  c: Coding, body: seq<Byte>)
    requires WasPut(r, c, body) && Found(store, serving, located) && AgreeOn(located, key, r)
    requires PlacementOk(r.shards, r.Total()) && r.body.k >= 1 && Distinct(ranked) && forall d <- ranked :: d in serving
    requires |Eligible(ranked, r)| >= |LostShards(r.shards, serving)|
    ensures Sound(PlanFor(store, serving, located, key, r, ranked, c, body), WholeTest(r, c, body))
  {
    FlagsMean(store, serving, r, c, body);
  }

  // ------------------------------------------------------------- the network

  /** What becomes of a request: done and answered, done but the answer lost,
      or not done. */
  datatype Answer = Done | Unanswered | NotDone

  /** The nodes during a repair: whether all those asked for shards, and for
      the status of their devices, answer; and each device's answer to a shard
      file, a record copy and a removal. */
  datatype Network = Network(streams: bool, statuses: bool, shard: nat -> Answer, copy: nat -> Answer, removal: nat -> Answer)

  /** The files that arrive. */
  function Taken(writes: seq<ShardWrite>, answer: nat -> Answer): seq<ShardWrite> {
    if writes == [] then []
    else
      var before, last := Taken(writes[..|writes| - 1], answer), writes[|writes| - 1];
      if answer(last.at.device) == NotDone then before else before + [last]
  }

  predicate AllTaken(writes: seq<ShardWrite>, answer: nat -> Answer) {
    writes == [] || (AllTaken(writes[..|writes| - 1], answer) && answer(writes[|writes| - 1].at.device) == Done)
  }

  lemma {:induction false} TakenAre(writes: seq<ShardWrite>, answer: nat -> Answer)
    ensures forall w <- Taken(writes, answer) :: w in writes
    ensures AllTaken(writes, answer) <==> forall w <- writes :: answer(w.at.device) == Done
    ensures AllTaken(writes, answer) ==> Taken(writes, answer) == writes
  {
    if writes != [] {
      var before, last := writes[..|writes| - 1], writes[|writes| - 1];
      assert writes == before + [last];
      TakenAre(before, answer);
    }
  }

  lemma TakenNext(writes: seq<ShardWrite>, answer: nat -> Answer, n: nat)
    requires n < |writes|
    ensures var before := Taken(writes[..n], answer);
            Taken(writes[..n + 1], answer) == if answer(writes[n].at.device) == NotDone then before else before + [writes[n]]
    ensures AllTaken(writes[..n + 1], answer) <==> AllTaken(writes[..n], answer) && answer(writes[n].at.device) == Done
  {
    assert writes[..n + 1][..n] == writes[..n];
  }

  /** The first device from the `n`th on that does not answer. */
  function FirstFailure(devices: seq<nat>, answer: nat -> Answer, n: nat): (f: nat)
    requires n <= |devices|
    ensures n <= f <= |devices|
    decreases |devices| - n
  {
    if n < |devices| && answer(devices[n]) == Done then FirstFailure(devices, answer, n + 1) else n
  }

  /** Asked one after the other, up to the first that does not answer. */
  function Reached(devices: seq<nat>, answer: nat -> Answer): seq<nat> {
    var f := FirstFailure(devices, answer, 0);
    if f < |devices| && answer(devices[f]) == Unanswered then devices[..f + 1] else devices[..f]
  }

  predicate AllDone(devices: seq<nat>, answer: nat -> Answer) {
    FirstFailure(devices, answer, 0) == |devices|
  }

  lemma {:induction false} DoneFrom(devices: seq<nat>, answer: nat -> Answer, n: nat)
    requires n <= |devices|
    ensures FirstFailure(devices, answer, n) == |devices| <==> forall j :: n <= j < |devices| ==> answer(devices[j]) == Done
    decreases |devices| - n
  {
    if n < |devices| && answer(devices[n]) == Done {
      DoneFrom(devices, answer, n + 1);
    }
  }

  /** What was reached is among the devices; all of them when all answer. */
  lemma ReachedAre(devices: seq<nat>, answer: nat -> Answer)
    ensures AllDone(devices, answer) <==> forall d <- devices :: answer(d) == Done
    ensures AllDone(devices, answer) ==> Reached(devices, answer) == devices
    ensures forall d <- Reached(devices, answer) :: d in devices
  {
    DoneFrom(devices, answer, 0);
    if !AllDone(devices, answer) {
      var j :| 0 <= j < |devices| && answer(devices[j]) != Done;
      assert devices[j] in devices;
    }
  }

  // ------------------------------------------------------------ the methods

  datatype RepairError =
    | NotRepairable(why: Refusal) | Undecodable | Unreachable | InsufficientDevices
    | ShardsFailed | CopiesFailed | RemovalFailed

  /** No device in service refuses the record a repair writes. */
  lemma WriteTaken(p: Plan, whole: Stored -> bool, d: nat)
    requires Sound(p, whole) && Repairable(p.located, p.key, p.record) && d in p.Copies()
    ensures MayWrite(Part(p.store, d).record, p.Next())
  {
    CopiesListed(p, whole, d);
    PlanPlaced(p, whole);
    if Part(p.store, d).record.Some? {
      assert Located(d, Part(p.store, d).record.value) in p.located;
    }
  }

  class DeviceSet {
    var store: Store

    constructor (store: Store)
      ensures this.store == store
    {
      this.store := store;
    }

    /** The ends of the streams that `rebuild_shards` sends: each file replaces
        the old one once its own stream ends. */
    method PutShards(writes: seq<ShardWrite>, answer: nat -> Answer) returns (ok: bool)
      modifies this
      ensures store == WithShards(old(store), Taken(writes, answer))
      ensures ok <==> AllTaken(writes, answer)
    {
      ghost var was := store;
      ok := true;
      for n := 0 to |writes|
        invariant store == WithShards(was, Taken(writes[..n], answer))
        invariant ok <==> AllTaken(writes[..n], answer)
      {
        var w := writes[n];
        TakenNext(writes, answer, n);
        if answer(w.at.device) != NotDone {
          OneMoreShard(was, Taken(writes[..n], answer), w);
          store := WithShard(store, w);
        }
        ok := ok && answer(w.at.device) == Done;
      }
      assert writes[..|writes|] == writes;
    }

    /** `rewrite_record_copies`, stopping at a device that does not take it. */
    method RewriteCopies(r: Record, devices: seq<nat>, answer: nat -> Answer) returns (ok: bool)
      requires forall d <- devices :: MayWrite(Part(store, d).record, r)
      modifies this
      ensures store == WithRecord(old(store), Reached(devices, answer), r)
      ensures ok <==> AllDone(devices, answer)
    {
      ghost var was := store;
      for n := 0 to |devices|
        invariant store == WithRecord(was, devices[..n], r)
        invariant FirstFailure(devices, answer, 0) == FirstFailure(devices, answer, n)
      {
        var d := devices[n];
        assert devices[..n + 1][..n] == devices[..n];
        RecordWritten(was, devices[..n], r, d);
        assert d in devices;
        if answer(d) == NotDone || !MayWrite(Part(store, d).record, r) {
          return false;
        }
        store := store[d := Held(Some(r), Part(store, d).files)];
        if answer(d) == Unanswered {
          return false;
        }
      }
      assert devices[..|devices|] == devices;
      return true;
    }

    /** `remove_stale_copies`. */
    method RemoveStale(devices: seq<nat>, answer: nat -> Answer) returns (ok: bool)
      modifies this
      ensures store == WithoutVersion(old(store), Reached(devices, answer))
      ensures ok <==> AllDone(devices, answer)
    {
      ghost var was := store;
      for n := 0 to |devices|
        invariant store == WithoutVersion(was, devices[..n])
        invariant FirstFailure(devices, answer, 0) == FirstFailure(devices, answer, n)
      {
        assert devices[..n + 1][..n] == devices[..n];
        if answer(devices[n]) == NotDone {
          return false;
        }
        store := store[devices[n] := Held(None, map[])];
        if answer(devices[n]) == Unanswered {
          return false;
        }
      }
      assert devices[..|devices|] == devices;
      return true;
    }
  }

  /** `repair_object`. It succeeds exactly when there is a record to complete
      towards, at least k of its shards are whole on devices in service, there
      is a device for every lost shard, and every write is answered; and then
      every file written is the one put wrote, and the record written is the one
      agreed on but for its placement and revision. Before its first write nothing
      changes, and after it exactly the writes that arrived are made. */
  method RepairObject(devices: DeviceSet, serving: set<nat>, located: seq<Located>, key: seq<Byte>, ranked: seq<nat>,
                      net: Network, c: Coding, ghost body: seq<Byte>)
    returns (r: Result<Record, RepairError>, ghost p: Plan, ghost writes: seq<ShardWrite>)
    requires Found(devices.store, serving, located) && Distinct(ranked) && forall d <- ranked :: d in serving
    requires forall l <- located :: PlacementOk(l.record.shards, l.record.Total()) && l.record.body.k >= 1
    requires forall record :: Repairable(located, key, record) ==> Honest(devices.store, serving, record, c, body)
    modifies devices
    ensures r.Ok? <==> exists record ::
              && Repairable(located, key, record) && WasPut(record, c, body)
              && var plan := PlanFor(old(devices.store), serving, located, key, record, ranked, c, body);
                 Ready(plan, net) && Answered(plan, net)
    ensures r.Ok? ==> r.value == p.Next() && devices.store == Mended(p, writes)
    ensures r.Ok? ==> PlacedAnew(p.record, r.value, serving)
    ensures r.Err? ==> Stopped(p, writes, net, r.error, devices.store)
    ensures r.Err? && Early(r.error) ==> Refuses(old(devices.store), serving, located, key, ranked, net, c, body, r.error)
    ensures p.store == old(devices.store)
    ensures r.Ok? || !Early(r.error) ==>
              && Prepared(p, net, c, body, writes)
              && p == PlanFor(old(devices.store), serving, located, key, p.record, ranked, c, body)
  {
    var ready := Prepare(devices.store, serving, located, key, ranked, net, c, body);
    if ready.Err? {
      p, writes := Plan(devices.store, serving, located, key, NoRecord(), ranked, []), [];
      return Err(ready.error), p, writes;
    }
    var plan, files := ready.value.0, ready.value.1;
    p, writes := plan, files;
    NextPlacedAnew(plan);
    OnlyThisRecord(located, key, plan.record);
    TakenAnswered(plan, files, net);
    CopiesTaken(plan, c, body, files);
    var arrived := devices.PutShards(files, net.shard);
    if !arrived {
      return Err(ShardsFailed), p, writes;
    }
    var copied := devices.RewriteCopies(plan.Next(), plan.Copies(), net.copy);
    if !copied {
      return Err(CopiesFailed), p, writes;
    }
    ReachedAre(plan.Copies(), net.copy);
    var removed := devices.RemoveStale(plan.Stale(), net.removal);
    if !removed {
      return Err(RemovalFailed), p, writes;
    }
    ReachedAre(plan.Stale(), net.removal);
    return Ok(plan.Next()), p, writes;
  }

  ghost function NoRecord(): Record {
    Record(Records.Body(0, [], 0, 0, 0, 0, 0, 0), "", 0, None, 0, [], 0)
  }

  /** What the first pass succeeds from. */
  lemma SeenSurveyable(store: Store, serving: set<nat>, r: Record, c: Coding, body: seq<Byte>)
    requires WasPut(r, c, body) && Holding(c.code, c.sum, StripesIn(r, c, body), Seen(store, serving, r, c, body))
    ensures var stripes, shards := StripesIn(r, c, body), Seen(store, serving, r, c, body);
            && EndClean(shards, 0, |shards|) && c.sum(body) == r.body.checksum
            && (|WholeShards(c.code, c.sum, stripes, shards)| >= r.body.k ==> Rebuildable(c.code, c.sum, stripes, shards))
  {
  }

  /** The first pass over a record's shards. */
  method SurveyRecord(store: Store, serving: set<nat>, r: Record, c: Coding, ghost body: seq<Byte>)
    returns (survey: Result<(seq<Shard>, seq<bool>), RepairError>)
    requires WasPut(r, c, body) && r.body.size > 0
    requires Holding(c.code, c.sum, StripesIn(r, c, body), Seen(store, serving, r, c, body))
    ensures survey.Ok? ==>
              survey.value == (Seen(store, serving, r, c, body), WholeFlags(store, serving, r, c, body))
    ensures survey.Err? ==> survey.error == Undecodable
    ensures |WholeShards(c.code, c.sum, StripesIn(r, c, body), Seen(store, serving, r, c, body))| >= r.body.k ==> survey.Ok?
  {
    var count := NumberOfStripes(r.body.k * r.body.blockSize, r.body.size, body);
    var shards := View(store, serving, r, count, c.sum);
    SeenSurveyable(store, serving, r, c, body);
    var whole := SurveyShards(c.code, c.sum, r.body.k * r.body.blockSize, r.body.size, r.body.checksum, shards, body);
    if whole.Err? {
      return Err(Undecodable);
    }
    FlagsAre(store, serving, r, c, body, whole.value);
    return Ok((shards, whole.value));
  }

  function Indices(targets: seq<Location>): (indices: seq<nat>)
    ensures |indices| == |targets| && forall n :: 0 <= n < |targets| ==> indices[n] == targets[n].index
  {
    seq(|targets|, n requires 0 <= n < |targets| => targets[n].index)
  }

  function WritesOf(targets: seq<Location>, files: seq<seq<Byte>>): (writes: seq<ShardWrite>)
    requires |files| == |targets|
    ensures |writes| == |targets|
  {
    seq(|targets|, n requires 0 <= n < |targets| => ShardWrite(targets[n], files[n]))
  }

  /** Each file written is the one put wrote for that shard. */
  ghost predicate Originals(r: Record, c: Coding, body: seq<Byte>, writes: seq<ShardWrite>)
    requires Bounded(r)
  {
    forall w <- writes :: FileTest(ObjectOf(r, c), body)(w.at.index, w.bytes)
  }

  lemma WritesAreOriginals(r: Record, c: Coding, body: seq<Byte>, targets: seq<Location>, files: seq<seq<Byte>>)
    requires Bounded(r) && AreFilesOf(ObjectOf(r, c), body, Indices(targets), files)
    ensures |files| == |targets| && Originals(r, c, body, WritesOf(targets, files))
  {
    forall w | w in WritesOf(targets, files) ensures FileTest(ObjectOf(r, c), body)(w.at.index, w.bytes) {
      var n :| 0 <= n < |targets| && WritesOf(targets, files)[n] == w;
      assert FileTest(ObjectOf(r, c), body)(Indices(targets)[n], files[n]);
    }
  }

  /** What the second pass starts from: the flags are right, and what is seen of
      a store ends cleanly. */
  lemma SurveyHolds(store: Store, serving: set<nat>, r: Record, c: Coding, body: seq<Byte>)
    requires WasPut(r, c, body)
    ensures var stripes, shards := StripesIn(r, c, body), Seen(store, serving, r, c, body);
            && FlagsWhole(c.code, c.sum, stripes, shards, WholeFlags(store, serving, r, c, body), |stripes|)
            && WholeEndWell(c.code, c.sum, stripes, shards)
  {
  }

  /** The second pass: the files for the targets. */
  method RebuildTargets(store: Store, serving: set<nat>, r: Record, c: Coding, shards: seq<Shard>, whole: seq<bool>,
                        targets: seq<Location>, ghost body: seq<Byte>)
    returns (writes: Result<seq<ShardWrite>, RepairError>)
    requires WasPut(r, c, body) && r.body.size > 0
    requires Holding(c.code, c.sum, StripesIn(r, c, body), Seen(store, serving, r, c, body))
    requires shards == Seen(store, serving, r, c, body) && whole == WholeFlags(store, serving, r, c, body)
    requires forall t <- targets :: t.index < r.Total()
    ensures writes.Ok? <==>
              |WholeShards(c.code, c.sum, StripesIn(r, c, body), Seen(store, serving, r, c, body))| >= r.body.k
    ensures writes.Err? ==> writes.error == Undecodable
    ensures writes.Ok? ==> Originals(r, c, body, writes.value) && Ats(writes.value) == targets
  {
    SurveyHolds(store, serving, r, c, body);
    var files := RebuildFiles(ObjectOf(r, c), shards, whole, Indices(targets), body);
    if files.Err? {
      return Err(Undecodable);
    }
    WritesAreOriginals(r, c, body, targets, files.value);
    return Ok(WritesOf(targets, files.value));
  }

  ghost function Ats(writes: seq<ShardWrite>): (ats: seq<Location>)
    ensures |ats| == |writes|
  {
    seq(|writes|, n requires 0 <= n < |writes| => writes[n].at)
  }

  lemma OriginalIsWhole(r: Record, c: Coding, body: seq<Byte>, w: ShardWrite)
    requires WasPut(r, c, body) && r.body.size > 0 && FileTest(ObjectOf(r, c), body)(w.at.index, w.bytes)
    ensures WholeTest(r, c, body)(Stored(w.bytes, {})) && !DamagedFile(Stored(w.bytes, {}), c.sum)
  {
    FreshIsWhole(ObjectOf(r, c), body, w.at.index, w.bytes);
  }

  lemma OriginalsWhole(r: Record, c: Coding, body: seq<Byte>, writes: seq<ShardWrite>)
    requires WasPut(r, c, body) && Originals(r, c, body, writes) && (writes != [] ==> r.body.size > 0)
    ensures forall w <- writes :: WholeTest(r, c, body)(Stored(w.bytes, {}))
  {
    forall w | w in writes ensures WholeTest(r, c, body)(Stored(w.bytes, {})) {
      OriginalIsWhole(r, c, body, w);
    }
  }

  lemma AtsAre(writes: seq<ShardWrite>)
    ensures forall w <- writes :: w.at in Ats(writes)
    ensures forall t <- Ats(writes) :: WrittenAt(writes, t)
  {
    forall w | w in writes ensures w.at in Ats(writes) {
      var n :| 0 <= n < |writes| && writes[n] == w;
      assert Ats(writes)[n] == w.at;
    }
    forall t | t in Ats(writes) ensures WrittenAt(writes, t) {
      var n :| 0 <= n < |Ats(writes)| && Ats(writes)[n] == t;
      assert writes[n] in writes;
    }
  }

  /** The files put wrote fulfil a plan. */
  lemma OriginalsFulfil(p: Plan, c: Coding, body: seq<Byte>, writes: seq<ShardWrite>)
    requires WasPut(p.record, c, body) && Originals(p.record, c, body, writes) && Ats(writes) == p.Targets()
    ensures Fulfils(p, WholeTest(p.record, c, body), writes)
  {
    assert writes != [] ==> |Ats(writes)| > 0;
    OriginalsWhole(p.record, c, body, writes);
    AtsAre(writes);
  }

  // ------------------------------------------------------- the whole repair

  /** The hypotheses on the record the copies agree on: it is that of a body
      that was put, and no damage to its shards goes undetected. */
  ghost predicate Honest(store: Store, serving: set<nat>, r: Record, c: Coding, body: seq<Byte>) {
    && WasPut(r, c, body)
    && (r.body.size > 0 ==> Holding(c.code, c.sum, StripesIn(r, c, body), Seen(store, serving, r, c, body)))
  }

  /** What a repair needs before its first write: for an object with a body
      the nodes' answers and at least k whole shards, and a device for every
      lost shard. */
  ghost predicate Ready(p: Plan, net: Network) {
    && (p.record.body.size > 0 ==> net.streams && WholeCount(p) >= p.record.body.k)
    && p.Enough() && (p.Lost() != [] ==> net.statuses)
  }

  /** Every write of the plan is answered. */
  ghost predicate Answered(p: Plan, net: Network) {
    && (forall t <- p.Targets() :: net.shard(t.device) == Done)
    && AllDone(p.Copies(), net.copy) && AllDone(p.Stale(), net.removal)
  }

  lemma CountIsWhole(store: Store, serving: set<nat>, located: seq<Located>, key: seq<Byte>, r: Record, ranked: seq<nat>,
                     c: Coding, body: seq<Byte>)
    requires WasPut(r, c, body) && r.body.size > 0
    ensures WholeCount(PlanFor(store, serving, located, key, r, ranked, c, body)) ==
              |WholeShards(c.code, c.sum, StripesIn(r, c, body), Seen(store, serving, r, c, body))|
  {
    var there := WholeShards(c.code, c.sum, StripesIn(r, c, body), Seen(store, serving, r, c, body));
    var flags := WholeFlags(store, serving, r, c, body);
    assert (set i: nat | i < |flags| && flags[i]) == there;
  }

  /** The relocations, and with them the targets. */
  method Relocate(p: Plan, net: Network) returns (r: Result<seq<Location>, RepairError>)
    requires PlacementOk(p.record.shards, p.record.Total()) && Distinct(p.ranked) && forall d <- p.ranked :: d in p.serving
    ensures r.Ok? <==> p.Enough() && (p.Lost() != [] ==> net.statuses)
    ensures r.Ok? ==> r.value == p.Relocations()
    ensures r.Err? ==> r.error == if !net.statuses then Unreachable else InsufficientDevices
  {
    if p.Lost() == [] {
      return Ok([]);
    }
    if !net.statuses {
      return Err(Unreachable);
    }
    var chosen := RelocateLost(p.record, p.Lost(), p.ranked, p.serving);
    if chosen.None? {
      return Err(InsufficientDevices);
    }
    return Ok(chosen.value);
  }

  /** What is known of a plan and its files once a repair may write. */
  ghost predicate Prepared(p: Plan, net: Network, c: Coding, body: seq<Byte>, writes: seq<ShardWrite>) {
    && Repairable(p.located, p.key, p.record) && WasPut(p.record, c, body) && Sound(p, WholeTest(p.record, c, body))
    && Ready(p, net) && Originals(p.record, c, body, writes) && Ats(writes) == p.Targets()
  }

  /** With every shard whole nothing is lost and there is nothing to rebuild. */
  lemma NothingToRebuild(p: Plan, whole: Stored -> bool)
    requires PlacementOk(p.record.shards, p.record.Total()) && |p.whole| == p.record.Total() && p.record.body.size > 0
    requires forall s <- p.record.shards :: p.whole[s.index] <==> s.device in p.serving && Intact(p.store, whole, s.device, s.index)
    requires forall i :: 0 <= i < |p.whole| ==> p.whole[i]
    ensures p.Lost() == [] && p.Targets() == [] && WholeCount(p) == p.record.Total()
  {
    SomeMember(p.Lost());
    SomeMember(p.Targets());
    BelowMembers(p.record.Total());
    assert (set i: nat | i < |p.whole| && p.whole[i]) == Below(p.record.Total());
  }

  /** What each error before the first write says of a plan that is not ready. */
  ghost predicate NotReadyFor(p: Plan, net: Network, e: RepairError) {
    match e
    case Unreachable => (p.record.body.size > 0 && !net.streams) || (p.Lost() != [] && !net.statuses)
    case Undecodable => p.record.body.size > 0 && WholeCount(p) < p.record.body.k
    case InsufficientDevices => !p.Enough()
    case _ => false
  }

  /** The errors of `Prepare`: the copies give no record, or the plan from the one
      they give is not ready. */
  ghost predicate Refuses(store: Store, serving: set<nat>, located: seq<Located>, key: seq<Byte>, ranked: seq<nat>,
                          net: Network, c: Coding, body: seq<Byte>, e: RepairError) {
    if e.NotRepairable? then RefusedFor(located, key, e.why) && forall record :: !Repairable(located, key, record)
    else exists record :: && Repairable(located, key, record) && WasPut(record, c, body)
                          && NotReadyFor(PlanFor(store, serving, located, key, record, ranked, c, body), net, e)
  }

  /** The two passes, for a record with a body. */
  method PrepareFiles(store: Store, serving: set<nat>, located: seq<Located>, key: seq<Byte>, record: Record,
                      ranked: seq<nat>, net: Network, c: Coding, ghost body: seq<Byte>)
    returns (r: Result<(Plan, seq<ShardWrite>), RepairError>)
    requires Found(store, serving, located) && Repairable(located, key, record)
    requires PlacementOk(record.shards, record.Total()) && record.body.k >= 1
    requires Distinct(ranked) && forall d <- ranked :: d in serving
    requires Honest(store, serving, record, c, body) && record.body.size > 0
    ensures r.Ok? <==> Ready(PlanFor(store, serving, located, key, record, ranked, c, body), net)
    ensures r.Ok? ==>
              && r.value.0 == PlanFor(store, serving, located, key, record, ranked, c, body)
              && Prepared(r.value.0, net, c, body, r.value.1)
    ensures r.Err? ==> NotReadyFor(PlanFor(store, serving, located, key, record, ranked, c, body), net, r.error)
  {
    CountIsWhole(store, serving, located, key, record, ranked, c, body);
    if !net.streams {
      return Err(Unreachable);
    }
    var survey := SurveyRecord(store, serving, record, c, body);
    if survey.Err? {
      return Err(survey.error);
    }
    var p := Plan(store, serving, located, key, record, ranked, survey.value.1);
    if forall i | 0 <= i < |p.whole| :: p.whole[i] {
      FlagsMean(store, serving, record, c, body);
      NothingToRebuild(p, WholeTest(record, c, body));
      PlanSound(store, serving, located, key, record, ranked, c, body);
      return Ok((p, []));
    }
    var relocations := Relocate(p, net);
    if relocations.Err? {
      return Err(relocations.error);
    }
    PlanSound(store, serving, located, key, record, ranked, c, body);
    var writes := RebuildTargets(store, serving, record, c, survey.value.0, survey.value.1, p.Targets(), body);
    if writes.Err? {
      return Err(writes.error);
    }
    return Ok((p, writes.value));
  }

  /** The errors that come before any write. */
  predicate Early(e: RepairError) {
    !e.ShardsFailed? && !e.CopiesFailed? && !e.RemovalFailed?
  }

  /** For an empty object there are no files. */
  method PrepareEmpty(store: Store, serving: set<nat>, located: seq<Located>, key: seq<Byte>, record: Record,
                      ranked: seq<nat>, net: Network, ghost c: Coding, ghost body: seq<Byte>)
    returns (r: Result<(Plan, seq<ShardWrite>), RepairError>)
    requires Found(store, serving, located) && Repairable(located, key, record)
    requires PlacementOk(record.shards, record.Total()) && record.body.k >= 1
    requires Distinct(ranked) && forall d <- ranked :: d in serving
    requires Honest(store, serving, record, c, body) && record.body.size == 0
    ensures r.Ok? <==> Ready(PlanFor(store, serving, located, key, record, ranked, c, body), net)
    ensures r.Ok? ==>
              && r.value.0 == PlanFor(store, serving, located, key, record, ranked, c, body)
              && Prepared(r.value.0, net, c, body, r.value.1)
    ensures r.Err? ==> NotReadyFor(PlanFor(store, serving, located, key, record, ranked, c, body), net, r.error)
  {
    var p := Plan(store, serving, located, key, record, ranked, []);
    var relocations := Relocate(p, net);
    if relocations.Err? {
      return Err(relocations.error);
    }
    PlanSound(store, serving, located, key, record, ranked, c, body);
    return Ok((p, []));
  }

  /** Everything up to the first write. */
  method Prepare(store: Store, serving: set<nat>, located: seq<Located>, key: seq<Byte>, ranked: seq<nat>, net: Network,
                 c: Coding, ghost body: seq<Byte>)
    returns (r: Result<(Plan, seq<ShardWrite>), RepairError>)
    requires Found(store, serving, located) && Distinct(ranked) && forall d <- ranked :: d in serving
    requires forall l <- located :: PlacementOk(l.record.shards, l.record.Total()) && l.record.body.k >= 1
    requires forall record :: Repairable(located, key, record) ==> Honest(store, serving, record, c, body)
    ensures r.Ok? <==> exists record ::
              && Repairable(located, key, record) && WasPut(record, c, body)
              && Ready(PlanFor(store, serving, located, key, record, ranked, c, body), net)
    ensures r.Ok? ==>
              && Prepared(r.value.0, net, c, body, r.value.1)
              && r.value.0 == PlanFor(store, serving, located, key, r.value.0.record, ranked, c, body)
    ensures r.Err? ==> Early(r.error) && Refuses(store, serving, located, key, ranked, net, c, body, r.error)
  {
    var found := RepairableRecord(located, key);
    if found.Err? {
      return Err(NotRepairable(found.error));
    }
    var record := found.value.record;
    ghost var current :| current in located && current.record.revision == record.revision;
    OnlyThisRecord(located, key, record);
    if record.body.size == 0 {
      r := PrepareEmpty(store, serving, located, key, record, ranked, net, c, body);
    } else {
      r := PrepareFiles(store, serving, located, key, record, ranked, net, c, body);
    }
  }

  /** Where a repair that does not succeed has left the devices. */
  ghost predicate Stopped(p: Plan, writes: seq<ShardWrite>, net: Network, e: RepairError, store: Store) {
    match e
    case ShardsFailed => store == Changed(p.store, Taken(writes, net.shard), [], p.Next(), [])
    case CopiesFailed => store == Changed(p.store, writes, Reached(p.Copies(), net.copy), p.Next(), [])
    case RemovalFailed => store == Changed(p.store, writes, p.Copies(), p.Next(), Reached(p.Stale(), net.removal))
    case _ => store == p.store
  }

  /** The files arrive if every target's device answers. */
  lemma TakenAnswered(p: Plan, writes: seq<ShardWrite>, net: Network)
    requires Ats(writes) == p.Targets()
    ensures AllTaken(writes, net.shard) <==> forall t <- p.Targets() :: net.shard(t.device) == Done
    ensures AllTaken(writes, net.shard) ==> Taken(writes, net.shard) == writes
  {
    TakenAre(writes, net.shard);
    if AllTaken(writes, net.shard) {
      forall t | t in p.Targets() ensures net.shard(t.device) == Done {
        var n :| 0 <= n < |Ats(writes)| && Ats(writes)[n] == t;
        assert writes[n] in writes;
      }
    } else {
      var w :| w in writes && net.shard(w.at.device) != Done;
      var n :| 0 <= n < |writes| && writes[n] == w;
      assert Ats(writes)[n] == w.at && Ats(writes)[n] in Ats(writes);
    }
  }

  lemma CopiesTaken(p: Plan, c: Coding, body: seq<Byte>, writes: seq<ShardWrite>)
    requires Repairable(p.located, p.key, p.record) && WasPut(p.record, c, body) && Sound(p, WholeTest(p.record, c, body))
    ensures forall d <- p.Copies() :: MayWrite(Part(WithShards(p.store, writes), d).record, p.Next())
  {
    forall d | d in p.Copies() ensures MayWrite(Part(WithShards(p.store, writes), d).record, p.Next()) {
      WriteTaken(p, WholeTest(p.record, c, body), d);
      ShardsWritten(p.store, writes, d, 0);
    }
  }

  /** What the writes of a plan come to, all or some of them. */
  lemma StoppedPart(p: Plan, c: Coding, body: seq<Byte>, writes: seq<ShardWrite>, net: Network)
    requires Prepared(p, net, c, body, writes)
    ensures var whole := WholeTest(p.record, c, body);
            && PartOf(p, whole, Taken(writes, net.shard), [], [])
            && PartOf(p, whole, writes, Reached(p.Copies(), net.copy), [])
            && PartOf(p, whole, writes, p.Copies(), Reached(p.Stale(), net.removal))
  {
    OriginalsFulfil(p, c, body, writes);
    TakenAre(writes, net.shard);
    ReachedAre(p.Copies(), net.copy);
    ReachedAre(p.Stale(), net.removal);
  }

  /** A repair that stops at a write loses no shard that was whole. Before the
      removals it leaves a record for the next repair to complete towards, and
      among them exactly while at least k copies are left, as they always are
      of an object with a body and where the chosen devices were spared. */
  lemma StoppedShort(p: Plan, c: Coding, body: seq<Byte>, writes: seq<ShardWrite>, net: Network, e: RepairError,
                     store: Store, found: seq<Located>)
    requires Prepared(p, net, c, body, writes) && Stopped(p, writes, net, e, store) && !Early(e)
    requires Found(store, p.serving, found)
    ensures forall s <- p.record.shards :: Intact(p.store, WholeTest(p.record, c, body), s.device, s.index) ==>
              Intact(store, WholeTest(p.record, c, body), s.device, s.index)
    ensures Repairable(found, p.key, p.record) || Repairable(found, p.key, p.Next()) <==>
              (e.RemovalFailed? ==> |CopiesKept(p, Reached(p.Stale(), net.removal))| >= p.record.body.k)
    ensures p.record.body.size > 0 || p.Spared() ==>
              Repairable(found, p.key, p.record) || Repairable(found, p.key, p.Next())
  {
    var whole := WholeTest(p.record, c, body);
    StoppedPart(p, c, body, writes, net);
    match e
    case ShardsFailed =>
      WholeStay(p, whole, Taken(writes, net.shard), [], []);
      RepairableBefore(p, whole, Taken(writes, net.shard), [], found);
    case CopiesFailed =>
      WholeStay(p, whole, writes, Reached(p.Copies(), net.copy), []);
      RepairableBefore(p, whole, writes, Reached(p.Copies(), net.copy), found);
    case RemovalFailed =>
      WholeStay(p, whole, writes, p.Copies(), Reached(p.Stale(), net.removal));
      RepairableAmong(p, whole, writes, Reached(p.Stale(), net.removal), found);
      EnoughKept(p, whole, net, Reached(p.Stale(), net.removal));
  }

  lemma EnoughKept(p: Plan, whole: Stored -> bool, net: Network, removed: seq<nat>)
    requires Sound(p, whole) && Ready(p, net) && forall d <- removed :: d in p.Stale()
    ensures p.record.body.size > 0 || p.Spared() ==> |CopiesKept(p, removed)| >= p.record.body.k
  {
    if p.Spared() {
      SparedKeeps(p, whole, removed);
    } else if p.record.body.size > 0 {
      BodyKeeps(p, whole, removed);
    }
  }

  /** A repair that succeeds leaves a record for the next one exactly when at
      most m of the devices it chose held a stale copy, as is always so of an
      object with a body. */
  lemma RepairedLeavesRecord(p: Plan, c: Coding, body: seq<Byte>, writes: seq<ShardWrite>, net: Network, found: seq<Located>)
    requires Prepared(p, net, c, body, writes) && Found(Mended(p, writes), p.serving, found)
    ensures Repairable(found, p.key, p.record) || Repairable(found, p.key, p.Next()) <==> |StaleChosen(p)| <= p.record.body.m
    ensures p.record.body.size > 0 || p.Spared() ==> |StaleChosen(p)| <= p.record.body.m
  {
    var whole := WholeTest(p.record, c, body);
    OriginalsFulfil(p, c, body, writes);
    RepairableAfter(p, whole, writes, found);
    KeptAfterAll(p, whole);
    EnoughKept(p, whole, net, p.Stale());
  }

  lemma WholeStay(p: Plan, whole: Stored -> bool, writes: seq<ShardWrite>, copies: seq<nat>, removed: seq<nat>)
    requires Sound(p, whole) && PartOf(p, whole, writes, copies, removed)
    ensures forall s <- p.record.shards :: Intact(p.store, whole, s.device, s.index) ==>
              Intact(Changed(p.store, writes, copies, p.Next(), removed), whole, s.device, s.index)
  {
    forall s | s in p.record.shards && Intact(p.store, whole, s.device, s.index)
      ensures Intact(Changed(p.store, writes, copies, p.Next(), removed), whole, s.device, s.index)
    {
      NothingLost(p, whole, writes, copies, removed, s);
    }
  }

  // -------------------------------------------------------- the scrub after

  /** The shards of the version that the nodes' own scrubs find damaged, on
      whatever device in service a file of theirs lies. */
  function DamagedIn(store: Store, serving: set<nat>, version: nat, sum: Checksum): set<(nat, nat)> {
    set d, i | d in serving && i in Part(store, d).files && DamagedFile(Part(store, d).files[i], sum) :: (version, i)
  }

  ghost predicate DamagedOn(store: Store, d: nat, i: nat, sum: Checksum) {
    i in Part(store, d).files && DamagedFile(Part(store, d).files[i], sum)
  }

  lemma DamagedMeans(store: Store, serving: set<nat>, version: nat, sum: Checksum, i: nat)
    ensures (version, i) in DamagedIn(store, serving, version, sum) <==> exists d :: d in serving && DamagedOn(store, d, i, sum)
  {
    if d :| d in serving && DamagedOn(store, d, i, sum) {
      assert i in Part(store, d).files && DamagedFile(Part(store, d).files[i], sum);
    }
  }

  /** A device in service, none that the repair cleans, has a damaged file of
      shard `i` which the repair does not write. */
  ghost predicate DamageSpared(p: Plan, sum: Checksum, i: nat) {
    exists d :: DamageStays(p, sum, i, d)
  }

  ghost predicate DamageStays(p: Plan, sum: Checksum, i: nat, d: nat) {
    d in p.serving && d !in p.Stale() && Location(i, d) !in p.Targets() && DamagedOn(p.store, d, i, sum)
  }

  /** The damage on one device after a repair is the damage it left there. */
  lemma DamageOn(p: Plan, net: Network, c: Coding, body: seq<Byte>, writes: seq<ShardWrite>, i: nat, d: nat)
    requires Prepared(p, net, c, body, writes) && d in p.serving
    ensures DamagedOn(Mended(p, writes), d, i, c.sum) <==> DamageStays(p, c.sum, i, d)
  {
    assert writes != [] ==> |Ats(writes)| > 0;
    WrittenUndamaged(p.record, c, body, writes);
    AtsAre(writes);
    ChangedFile(p.store, writes, p.Copies(), p.Next(), p.Stale(), d, i);
  }

  /** What the nodes find damaged after a repair is what they found before it,
      in a file that the repair did not write, on a device it did not clean:
      beside the listed files, any left over elsewhere. */
  lemma DamageLeft(p: Plan, net: Network, c: Coding, body: seq<Byte>, writes: seq<ShardWrite>, i: nat)
    requires Prepared(p, net, c, body, writes)
    ensures (p.record.body.version, i) in DamagedIn(Mended(p, writes), p.serving, p.record.body.version, c.sum) <==>
              DamageSpared(p, c.sum, i)
  {
    DamagedMeans(Mended(p, writes), p.serving, p.record.body.version, c.sum, i);
    forall d | d in p.serving ensures DamagedOn(Mended(p, writes), d, i, c.sum) <==> DamageStays(p, c.sum, i, d) {
      DamageOn(p, net, c, body, writes, i, d);
    }
  }

  lemma WrittenUndamaged(r: Record, c: Coding, body: seq<Byte>, writes: seq<ShardWrite>)
    requires WasPut(r, c, body) && Originals(r, c, body, writes) && (writes != [] ==> r.body.size > 0)
    ensures forall w <- writes :: !DamagedFile(Stored(w.bytes, {}), c.sum)
  {
    forall w | w in writes ensures !DamagedFile(Stored(w.bytes, {}), c.sum) {
      OriginalIsWhole(r, c, body, w);
    }
  }

  /** No shard is unavailable exactly when each is there and undamaged. */
  lemma {:induction false} NoneUnavailable(shards: seq<Location>, version: nat, present: map<nat, bool>, damaged: set<(nat, nat)>)
    ensures Unavailable(shards, version, {}, present, damaged) == 0 <==>
              forall s <- shards :: !IsOut(s, {}, present) && (version, s.index) !in damaged
  {
    if shards != [] {
      var before := shards[..|shards| - 1];
      assert shards == before + [shards[|shards| - 1]];
      NoneUnavailable(before, version, present, damaged);
    }
  }

  lemma {:induction false} AllUnavailable(shards: seq<Location>, version: nat, present: map<nat, bool>, damaged: set<(nat, nat)>)
    requires forall s <- shards :: IsOut(s, {}, present)
    ensures Unavailable(shards, version, {}, present, damaged) == |shards|
  {
    if shards != [] {
      var before := shards[..|shards| - 1];
      assert shards == before + [shards[|shards| - 1]];
      AllUnavailable(before, version, present, damaged);
    }
  }

  lemma GroupAfterRepair(found: seq<Located>, next: Record, serving: set<nat>)
    requires (forall c <- found :: c.record == next && c.device in Devices(next)) && found != []
    requires forall i, j :: 0 <= i < j < |found| ==> found[i].device != found[j].device
    requires Devices(next) <= serving && PlacementOk(next.shards, next.Total())
    ensures Group(found, serving) && NotExpected(next, {}, serving) == {}
  {
    assert found[0] in found;
  }

  /** For an object with a body no listed shard is out; without one all are, as
      there are no files. */
  lemma OutAfterRepair(p: Plan, whole: Stored -> bool, writes: seq<ShardWrite>, found: seq<Located>, present: map<nat, bool>)
    requires Sound(p, whole) && Fulfils(p, whole, writes) && p.Spared()
    requires Found(Mended(p, writes), p.serving, found) && Flags(Mended(p, writes), found, present)
    ensures p.record.body.size > 0 ==> forall s <- p.Next().shards :: !IsOut(s, {}, present)
    ensures p.record.body.size == 0 && NoFiles(p.store) ==> forall s <- p.Next().shards :: IsOut(s, {}, present)
  {
    FoundAre(p, whole, writes, found);
    if p.record.body.size > 0 {
      PresentAfterRepair(p, whole, writes, found, present);
    } else if NoFiles(p.store) {
      forall s | s in p.Next().shards ensures IsOut(s, {}, present) {
        assert s.device in Devices(p.Next());
        assert Located(s.device, p.Next()) in found;
        NoFileAfter(p, whole, writes, s.device);
      }
    }
  }

  /** An empty object has no shard files. */
  ghost predicate NoFiles(store: Store) {
    forall d <- store :: store[d].files == map[]
  }

  lemma NoFileAfter(p: Plan, whole: Stored -> bool, writes: seq<ShardWrite>, d: nat)
    requires Fulfils(p, whole, writes) && p.record.body.size == 0 && NoFiles(p.store)
    ensures Part(Mended(p, writes), d).files == map[]
  {
    SomeMember(writes);
    RecordWritten(WithShards(p.store, writes), p.Copies(), p.Next(), d);
    VersionRemoved(WithRecord(WithShards(p.store, writes), p.Copies(), p.Next()), p.Stale(), d);
  }

  /** What the scrub will see of the copies. */
  lemma CopiesForScrub(p: Plan, whole: Stored -> bool, writes: seq<ShardWrite>, found: seq<Located>)
    requires Sound(p, whole) && p.Spared() && Found(Mended(p, writes), p.serving, found)
    ensures Group(found, p.serving) && NotExpected(p.Next(), {}, p.serving) == {}
  {
    FoundAre(p, whole, writes, found);
    PlanPlaced(p, whole);
    GroupAfterRepair(found, p.Next(), p.serving);
  }

  /** And of the shards. */
  lemma ShardsForScrub(p: Plan, whole: Stored -> bool, writes: seq<ShardWrite>, found: seq<Located>, present: map<nat, bool>,
                       damaged: set<(nat, nat)>)
    requires Sound(p, whole) && Fulfils(p, whole, writes) && p.Spared()
    requires Found(Mended(p, writes), p.serving, found) && Flags(Mended(p, writes), found, present)
    ensures p.record.body.size > 0 ==>
              (Unavailable(p.Next().shards, p.record.body.version, {}, present, damaged) == 0 <==>
                 forall s <- p.Next().shards :: (p.record.body.version, s.index) !in damaged)
    ensures p.record.body.size == 0 && NoFiles(p.store) ==>
              Unavailable(p.Next().shards, p.record.body.version, {}, present, damaged) == p.record.Total()
  {
    OutAfterRepair(p, whole, writes, found, present);
    PlanPlaced(p, whole);
    if p.record.body.size > 0 {
      NoneUnavailable(p.Next().shards, p.record.body.version, present, damaged);
    } else if NoFiles(p.store) {
      AllUnavailable(p.Next().shards, p.record.body.version, present, damaged);
    }
  }

  /** The scrub of a clean version all of whose devices are in service. */
  method CheckClean(found: seq<Located>, ghost next: Record, present: map<nat, bool>, serving: set<nat>, damaged: set<(nat, nat)>)
    returns (findings: seq<Finding>, shards: Option<ShardCount>)
    requires Group(found, serving) && Clean(found, next, present, {}, serving) && NotExpected(next, {}, serving) == {}
    ensures findings == [] && shards.Some? && shards.value.total == next.Total()
    ensures shards.value.available ==
              next.Total() - Unavailable(next.shards, next.body.version, {}, present, damaged)
  {
    ghost var judged;
    findings, shards, judged := CheckGroup(found, present, {}, serving, damaged);
    GroupAgreesOnce(found, judged, next, {}, serving);
  }

  /** The scrub after a repair that spared the devices it chose: no finding, and
      for an object with a body all k + m shards available exactly when the
      repair left no damaged file of theirs on any device. An empty object has
      no files, and all its shards count as unavailable. */
  method ScrubAfterRepair(ghost p: Plan, ghost net: Network, ghost c: Coding, ghost body: seq<Byte>, ghost writes: seq<ShardWrite>,
                          serving: set<nat>, found: seq<Located>, present: map<nat, bool>, damaged: set<(nat, nat)>)
    returns (findings: seq<Finding>, shards: Option<ShardCount>)
    requires Prepared(p, net, c, body, writes) && p.Spared() && serving == p.serving
    requires Found(Mended(p, writes), serving, found) && Flags(Mended(p, writes), found, present)
    requires damaged == DamagedIn(Mended(p, writes), serving, p.record.body.version, c.sum)
    ensures findings == [] && shards.Some? && shards.value.available <= shards.value.total == p.record.Total()
    ensures p.record.body.size > 0 ==>
              (shards.value.available == p.record.Total() <==>
                 forall s <- p.Next().shards :: !DamageSpared(p, c.sum, s.index))
    ensures p.record.body.size == 0 && NoFiles(p.store) ==> shards.value.available == 0
  {
    ghost var whole := WholeTest(p.record, c, body);
    OriginalsFulfil(p, c, body, writes);
    SparedIsClean(p, whole, writes, found, present);
    CopiesForScrub(p, whole, writes, found);
    ShardsForScrub(p, whole, writes, found, present, damaged);
    forall s | s in p.Next().shards
      ensures (p.record.body.version, s.index) in damaged <==> DamageSpared(p, c.sum, s.index)
    {
      DamageLeft(p, net, c, body, writes, s.index);
    }
    findings, shards := CheckClean(found, p.Next(), present, serving, damaged);
  }
}
