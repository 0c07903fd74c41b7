/** Moving shards between devices, and repair finishing what a move left undone
    (crates/djbod-node/src/coordinator.rs:2169-2345, 2919-3068,
    crates/djbod-core/src/device.rs:465-580), as a machine over what the
    devices hold of one version. A coordinator may stop after any write. */
module Replacement {
  import opened Prelude
  import opened Records

  // --------------------------------------------------------------- devices

  /** What one device holds of the version: a record copy, shard files. */
  datatype Copy = Copy(record: Option<Record>, shards: set<nat>)

  type Disks = map<nat, Copy>

  function At(disks: Disks, d: nat): Copy {
    if d in disks then disks[d] else Copy(None, {})
  }

  function PutShard(disks: Disks, d: nat, i: nat): Disks {
    disks[d := Copy(At(disks, d).record, At(disks, d).shards + {i})]
  }

  /** `write_record` replaces a copy only by the same record or by one of the
      same body at a higher revision. */
  predicate MayWrite(existing: Option<Record>, r: Record) {
    existing.None? || existing.value == r || (SameBody(existing.value, r) && r.revision > existing.value.revision)
  }

  function PutMeta(disks: Disks, d: nat, r: Record): Disks {
    disks[d := Copy(Some(r), At(disks, d).shards)]
  }

  function DropRecord(disks: Disks, d: nat): Disks {
    disks[d := Copy(None, At(disks, d).shards)]
  }

  function DropShard(disks: Disks, d: nat, i: nat): Disks {
    disks[d := Copy(At(disks, d).record, At(disks, d).shards - {i})]
  }

  // ------------------------------------------------------------- the steps

  /** The record with one shard placed elsewhere, one revision on. */
  function Moved(r: Record, index: nat, destination: nat): Record {
    r.(revision := r.revision + 1,
       shards := seq(|r.shards|, n requires 0 <= n < |r.shards| =>
         if r.shards[n].index == index then Location(index, destination) else r.shards[n]))
  }

  /** The devices of a record, `first` in front. */
  function Order(r: Record, first: nat): (order: seq<nat>)
    ensures order != [] && order[0] == first
  {
    [first] + Others(r.shards, first)
  }

  function Others(shards: seq<Location>, first: nat): (order: seq<nat>)
    ensures forall d :: d in order <==> d != first && exists s :: s in shards && s.device == d
  {
    if shards == [] then []
    else
      var rest := Others(shards[1..], first);
      assert shards == [shards[0]] + shards[1..];
      if shards[0].device == first then rest
      else
        assert shards[0] in shards;
        [shards[0].device] + rest
  }

  /** The others come as the record lists them. */
  lemma {:induction false} OthersInOrder(shards: seq<Location>, first: nat)
    ensures Subsequence(Others(shards, first), ListedDevices(shards))
  {
    if shards != [] {
      OthersInOrder(shards[1..], first);
      assert ListedDevices(shards)[1..] == ListedDevices(shards[1..]);
      SubsequenceFront(Others(shards[1..], first), ListedDevices(shards));
    }
  }

  /** The listed devices without a copy at the record's revision. */
  ghost function MissingDevices(shards: seq<Location>, located: seq<Located>, revision: nat): (order: seq<nat>)
    ensures forall d :: d in order <==> !HasCopy(located, d, revision) && exists s :: s in shards && s.device == d
  {
    if shards == [] then []
    else
      var rest := MissingDevices(shards[1..], located, revision);
      assert shards == [shards[0]] + shards[1..];
      if HasCopy(located, shards[0].device, revision) then rest
      else
        assert shards[0] in shards;
        [shards[0].device] + rest
  }

  /** The devices copies were found on, in order. */
  function FoundOn(located: seq<Located>): seq<nat> {
    seq(|located|, n requires 0 <= n < |located| => located[n].device)
  }

  /** `stale_copies`: lower revisions on devices the record does not list. */
  function StaleDevices(r: Record, located: seq<Located>): (order: seq<nat>)
    ensures forall d <- order :: d !in Devices(r)
  {
    if located == [] then []
    else
      var rest := StaleDevices(r, located[1..]);
      var c := located[0];
      if c.record.revision < r.revision && ShardOn(r, c.device).None? then [c.device] + rest else rest
  }

  lemma {:induction false} StaleMembers(r: Record, located: seq<Located>, d: nat)
    ensures d in StaleDevices(r, located) <==>
              exists c :: c in located && c.device == d && c.record.revision < r.revision && d !in Devices(r)
  {
    if located != [] {
      assert located == [located[0]] + located[1..];
      StaleMembers(r, located[1..], d);
    }
  }

  /** They come as the copies were found. */
  lemma {:induction false} StaleInOrder(r: Record, located: seq<Located>)
    ensures Subsequence(StaleDevices(r, located), FoundOn(located))
  {
    if located != [] {
      StaleInOrder(r, located[1..]);
      assert FoundOn(located)[1..] == FoundOn(located[1..]);
      SubsequenceFront(StaleDevices(r, located[1..]), FoundOn(located));
    }
  }

  /** What the coordinator at work still has to do. */
  datatype Task =
    | Idle
    | Copying(next: Record, index: nat, destination: nat, source: nat)
    | Writing(next: Record, order: seq<nat>, clean: seq<nat>)
    | Dropping(devices: seq<nat>)
    | DroppingShards(device: nat, index: nat, rest: seq<nat>)

  /** `settled` and `moving` follow the run: the record every device of its
      placement has had, and the one being written over it. */
  datatype State = State(disks: Disks, task: Task, settled: Record, moving: Option<Record>)

  datatype Event =
    | BeginMove(located: seq<Located>, record: Record, index: nat, destination: nat)
    | BeginRepair(located: seq<Located>, record: Record)
    | Advance
    | Crash

  /** The copies a lookup sees when the devices in `lost` are out, in any order. */
  ghost predicate Enumerates(disks: Disks, lost: set<nat>, located: seq<Located>) {
    && (forall c <- located :: c.device !in lost && At(disks, c.device).record == Some(c.record))
    && (forall i, j :: 0 <= i < j < |located| ==> located[i].device != located[j].device)
    && (forall d :: d in disks && d !in lost && disks[d].record.Some? ==> Located(d, disks[d].record.value) in located)
  }

  /** A move starts from a record all of whose copies are there; a repair from
      one at least k copies vouch for, all older ones of the same body. Both
      look at every device. */
  ghost predicate Enabled(s: State, e: Event) {
    match e
    case BeginMove(located, record, index, destination) =>
      && s.task.Idle? && Enumerates(s.disks, {}, located) && AgreeOn(located, s.settled.body.key, record)
      && (forall d <- Devices(record) :: HasCopy(located, d, record.revision))
      && index < record.Total() && DeviceFor(record, index).Some? && destination !in Devices(record)
    case BeginRepair(located, record) =>
      && s.task.Idle? && Enumerates(s.disks, {}, located) && AgreeOn(located, s.settled.body.key, record)
      && (forall c <- located :: c.record.revision < record.revision ==> SameBody(c.record, record))
      && VouchingCount(located, record) >= record.body.k
    case Advance => !s.task.Idle?
    case Crash => true
  }

  ghost predicate AllHold(disks: Disks, r: Record) {
    forall d <- Devices(r) :: At(disks, d).record == Some(r)
  }

  /** One copy written: the move is under way, or complete. */
  ghost function AfterWrite(s: State, r: Record, order: seq<nat>, clean: seq<nat>): State
    requires order != []
  {
    var disks := PutMeta(s.disks, order[0], r);
    var task := Writing(r, order[1..], clean);
    if AllHold(disks, r) then State(disks, task, r, None) else State(disks, task, s.settled, Some(r))
  }

  ghost function Effect(s: State, e: Event): State
    requires Enabled(s, e)
  {
    match e
    case BeginMove(_, record, index, destination) =>
      var next := Moved(record, index, destination);
      var source := DeviceFor(record, index).value;
      if record.body.size > 0 then s.(task := Copying(next, index, destination, source))
      else s.(task := Writing(next, Order(next, destination), [source]))
    case BeginRepair(located, record) =>
      s.(task := Writing(record, MissingDevices(record.shards, located, record.revision), StaleDevices(record, located)))
    case Advance =>
      (match s.task
       case Idle => s
       case Copying(next, index, destination, source) =>
         s.(disks := PutShard(s.disks, destination, index), task := Writing(next, Order(next, destination), [source]))
       case Writing(next, order, clean) =>
         if order == [] then s.(task := Dropping(clean))
         else if !MayWrite(At(s.disks, order[0]).record, next) then s.(task := Idle)
         else AfterWrite(s, next, order, clean)
       case Dropping(devices) =>
         if devices == [] then s.(task := Idle)
         else s.(disks := DropRecord(s.disks, devices[0]), task := DroppingShards(devices[0], 0, devices[1..]))
       case DroppingShards(device, index, rest) =>
         if index >= s.settled.Total() then s.(task := Dropping(rest))
         else s.(disks := DropShard(s.disks, device, index), task := DroppingShards(device, index + 1, rest)))
    case Crash => s.(task := Idle)
  }

  ghost predicate Runs(s: State, events: seq<Event>)
    decreases |events|
  {
    events != [] ==> Enabled(s, events[0]) && Runs(Effect(s, events[0]), events[1..])
  }

  ghost function After(s: State, events: seq<Event>): State
    requires Runs(s, events)
    decreases |events|
  {
    if events == [] then s else After(Effect(s, events[0]), events[1..])
  }

  // ---------------------------------------------------------- the invariant

  ghost predicate PlacedRecord(r: Record) {
    PlacementOk(r.shards, r.Total()) && r.body.k >= 1
  }

  ghost predicate ShardsThere(disks: Disks, r: Record) {
    r.body.size > 0 ==> forall s <- r.shards :: s.index in At(disks, s.device).shards
  }

  /** `next` is the same body, placed anew, one revision on. */
  ghost predicate Succeeds(r: Record, next: Record) {
    PlacedRecord(next) && SameBody(r, next) && next.revision == r.revision + 1
  }

  /** Every device of the settled placement has that record or the next one. */
  ghost predicate HoldersOk(s: State) {
    forall d <- Devices(s.settled) ::
      At(s.disks, d).record == Some(s.settled) || (s.moving.Some? && At(s.disks, d).record == s.moving)
  }

  /** Any other copy is the next record, on a device it lists, or an older one
      of the same body. */
  ghost predicate CopyOk(s: State, d: nat, x: Record) {
    || (x == s.settled && d in Devices(s.settled))
    || (s.moving == Some(x) && d in Devices(x))
    || (x.revision < s.settled.revision && SameBody(x, s.settled))
  }

  ghost predicate CopiesOk(s: State) {
    forall d :: d in s.disks && s.disks[d].record.Some? ==> CopyOk(s, d, s.disks[d].record.value)
  }

  /** While moving, some device has the next record and some listed one not yet. */
  ghost predicate Midway(s: State) {
    s.moving.Some? ==>
      && Succeeds(s.settled, s.moving.value) && ShardsThere(s.disks, s.moving.value)
      && (exists d :: d in s.disks && s.disks[d].record == s.moving)
      && (exists d <- Devices(s.moving.value) :: At(s.disks, d).record != s.moving)
  }

  ghost predicate Core(s: State) {
    PlacedRecord(s.settled) && ShardsThere(s.disks, s.settled) && HoldersOk(s) && CopiesOk(s) && Midway(s)
  }

  ghost predicate Unlisted(devices: seq<nat>, r: Record) {
    forall d <- devices :: d !in Devices(r)
  }

  ghost predicate TaskOk(s: State) {
    match s.task
    case Idle => true
    case Copying(next, index, destination, source) =>
      && s.moving.None? && next == Moved(s.settled, index, destination) && destination !in Devices(s.settled)
      && index < s.settled.Total() && DeviceFor(s.settled, index) == Some(source)
    case Writing(next, order, clean) =>
      && Unlisted(clean, next) && (forall d <- order :: d in Devices(next)) && ShardsThere(s.disks, next)
      && (|| (s.moving.None? && next == s.settled)
          || (s.moving.None? && Succeeds(s.settled, next) && order != [] && Elements(order) == Devices(next))
          || (s.moving == Some(next) && forall d <- Devices(next) :: d in order || At(s.disks, d).record == Some(next)))
    case Dropping(devices) => s.moving.None? && Unlisted(devices, s.settled)
    case DroppingShards(device, _, rest) =>
      s.moving.None? && device !in Devices(s.settled) && Unlisted(rest, s.settled)
  }

  ghost predicate Invariant(s: State) {
    Core(s) && TaskOk(s)
  }

  // --------------------------------------------------- what a lookup trusts

  /** The record a reader should see: the next one where a copy is in view. */
  ghost predicate SeesNext(s: State, lost: set<nat>) {
    s.moving.Some? && exists d :: d in s.disks && d !in lost && s.disks[d].record == s.moving
  }

  ghost function Expected(s: State, lost: set<nat>): Record {
    if SeesNext(s, lost) then s.moving.value else s.settled
  }

  ghost function InView(s: State, lost: set<nat>): set<nat> {
    Devices(s.settled) - lost
  }

  lemma CopyInView(s: State, lost: set<nat>, located: seq<Located>, d: nat)
    requires Core(s) && Enumerates(s.disks, lost, located) && d in InView(s, lost)
    ensures d in s.disks && s.disks[d].record.Some? && Located(d, s.disks[d].record.value) in located
    ensures SameBody(s.disks[d].record.value, s.settled)
    ensures s.disks[d].record.value == s.settled || s.moving == s.disks[d].record
  {
  }

  /** With no more than m devices out, the copies in view agree. */
  lemma ViewAgrees(s: State, lost: set<nat>, located: seq<Located>)
    requires Core(s) && Enumerates(s.disks, lost, located) && InView(s, lost) != {}
    ensures AgreeOn(located, s.settled.body.key, Expected(s, lost))
  {
    var record := Expected(s, lost);
    forall c | c in located
      ensures CopyOk(s, c.device, c.record) && c.record.body.key == s.settled.body.key
      ensures c.record.revision <= record.revision
      ensures c.record.revision == record.revision ==> c.record == record && c.device in Devices(record)
    {
      assert c.device in s.disks;
    }
    if SeesNext(s, lost) {
      var d :| d in s.disks && d !in lost && s.disks[d].record == s.moving;
      assert Located(d, record) in located;
    } else {
      var d :| d in InView(s, lost);
      CopyInView(s, lost, located, d);
    }
  }

  /** Distinct devices that vouch are counted each. */
  lemma {:induction false} VouchersCounted(located: seq<Located>, record: Record, devices: set<nat>)
    requires forall d <- devices :: exists c :: c in located && c.device == d && Vouches(c, record)
    requires forall i, j :: 0 <= i < j < |located| ==> located[i].device != located[j].device
    ensures VouchingCount(located, record) >= |devices|
  {
    if located == [] {
      forall d | d in devices ensures false {
      }
      assert devices == {};
    } else {
      var last, before := located[|located| - 1], located[..|located| - 1];
      assert located == before + [last];
      var rest := devices - {last.device};
      forall d | d in rest ensures exists c :: c in before && c.device == d && Vouches(c, record) {
        var c :| c in located && c.device == d && Vouches(c, record);
        assert c in before;
      }
      VouchersCounted(before, record, rest);
      if last.device in devices {
        var c :| c in located && c.device == last.device && Vouches(c, record);
        SameDevice(located, c);
      }
    }
  }

  lemma SameDevice(located: seq<Located>, c: Located)
    requires located != [] && c in located && c.device == located[|located| - 1].device
    requires forall i, j :: 0 <= i < j < |located| ==> located[i].device != located[j].device
    ensures c == located[|located| - 1]
  {
  }

  lemma ViewVouches(s: State, lost: set<nat>, located: seq<Located>)
    requires Core(s) && Enumerates(s.disks, lost, located)
    ensures VouchingCount(located, Expected(s, lost)) >= |InView(s, lost)|
  {
    var record := Expected(s, lost);
    forall d | d in InView(s, lost) ensures exists c :: c in located && c.device == d && Vouches(c, record) {
      CopyInView(s, lost, located, d);
      var c := Located(d, s.disks[d].record.value);
      assert c in located && c.device == d && Vouches(c, record);
    }
    VouchersCounted(located, record, InView(s, lost));
  }

  /** The shards of a record still to be had with the devices in `lost` out. */
  ghost function ShardsInView(disks: Disks, r: Record, lost: set<nat>): set<nat> {
    set s | s in r.shards && s.device !in lost && s.index in At(disks, s.device).shards :: s.index
  }

  lemma ShardsSurvive(disks: Disks, r: Record, lost: set<nat>)
    requires PlacedRecord(r) && ShardsThere(disks, r) && r.body.size > 0 && |lost| <= r.body.m
    ensures |ShardsInView(disks, r, lost)| >= r.body.k
  {
    var inView := ShardsInView(disks, r, lost);
    var devices := Devices(r);
    DeviceCount(r);
    DifferenceCount(devices, lost);
    IndicesOfDevices(r, devices - lost, inView);
  }

  /** Distinct devices of a placement hold distinct shards. */
  lemma {:induction false} IndicesOfDevices(r: Record, devices: set<nat>, indices: set<nat>)
    requires PlacementOk(r.shards, r.Total()) && devices <= Devices(r)
    requires forall s <- r.shards :: s.device in devices ==> s.index in indices
    ensures |indices| >= |devices|
    decreases |devices|
  {
    if devices != {} {
      var d :| d in devices;
      var n :| 0 <= n < |r.shards| && r.shards[n].device == d;
      forall s | s in r.shards && s.device in devices - {d} ensures s.index in indices - {r.shards[n].index} {
        var j :| 0 <= j < |r.shards| && r.shards[j] == s;
      }
      IndicesOfDevices(r, devices - {d}, indices - {r.shards[n].index});
      assert r.shards[n] in r.shards;
    }
  }

  /** A read finds a record: the copies in view agree on one, at least k of them
      vouch for its body, and at least k of the shards it lists are there. */
  ghost predicate Readable(s: State, lost: set<nat>, located: seq<Located>) {
    var record := Expected(s, lost);
    && AgreeOn(located, s.settled.body.key, record)
    && VouchingCount(located, record) >= record.body.k
    && (record.body.size > 0 ==> |ShardsInView(s.disks, record, lost)| >= record.body.k)
  }

  lemma CoreReadable(s: State, lost: set<nat>, located: seq<Located>)
    requires Core(s) && |lost| <= s.settled.body.m && Enumerates(s.disks, lost, located)
    ensures Readable(s, lost, located)
  {
    DeviceCount(s.settled);
    DifferenceCount(Devices(s.settled), lost);
    ViewAgrees(s, lost, located);
    ViewVouches(s, lost, located);
    if s.settled.body.size > 0 {
      ShardsSurvive(s.disks, Expected(s, lost), lost);
    }
  }

  // ------------------------------------------------------ every step keeps it

  lemma MovedAt(r: Record, index: nat, destination: nat, n: nat)
    requires PlacedRecord(r) && destination !in Devices(r) && n < |r.shards|
    ensures r.shards[n].device in Devices(r)
    ensures var s := Moved(r, index, destination).shards[n];
            s == (if r.shards[n].index == index then Location(index, destination) else r.shards[n])
  {
    assert r.shards[n] in r.shards;
  }

  lemma MovedPlacement(r: Record, index: nat, destination: nat)
    requires PlacedRecord(r) && destination !in Devices(r) && index < r.Total()
    ensures Succeeds(r, Moved(r, index, destination))
  {
    var next := Moved(r, index, destination);
    forall i, j | 0 <= i < j < |next.shards|
      ensures next.shards[i].index != next.shards[j].index && next.shards[i].device != next.shards[j].device
    {
      MovedAt(r, index, destination, i);
      MovedAt(r, index, destination, j);
    }
  }

  lemma MovedPlaced(r: Record, index: nat, destination: nat)
    requires PlacedRecord(r) && destination !in Devices(r) && index < r.Total()
    ensures Succeeds(r, Moved(r, index, destination))
    ensures destination in Devices(Moved(r, index, destination))
    ensures forall s <- Moved(r, index, destination).shards :: s in r.shards || s == Location(index, destination)
    ensures DeviceFor(r, index).Some? && DeviceFor(r, index).value !in Devices(Moved(r, index, destination))
  {
    MovedPlacement(r, index, destination);
    AllIndicesNamed(r.shards, r.Total(), index);
    var n :| 0 <= n < |r.shards| && r.shards[n].index == index;
    MovedFrom(r, index, destination, n);
  }

  lemma MovedFrom(r: Record, index: nat, destination: nat, n: nat)
    requires PlacedRecord(r) && destination !in Devices(r) && n < |r.shards| && r.shards[n].index == index
    ensures destination in Devices(Moved(r, index, destination))
    ensures forall s <- Moved(r, index, destination).shards :: s in r.shards || s == Location(index, destination)
    ensures DeviceFor(r, index) == Some(r.shards[n].device)
    ensures r.shards[n].device !in Devices(Moved(r, index, destination))
  {
    var next := Moved(r, index, destination);
    assert next.shards[n] in next.shards && r.shards[n] in r.shards;
    LookupsInverse(r, r.shards[n]);
    forall s | s in next.shards
      ensures (s in r.shards || s == Location(index, destination)) && s.device != r.shards[n].device
    {
      var j :| 0 <= j < |next.shards| && next.shards[j] == s;
      MovedAt(r, index, destination, j);
    }
  }

  lemma OrderMembers(r: Record, first: nat)
    requires first in Devices(r)
    ensures Elements(Order(r, first)) == Devices(r) && Order(r, first) != []
  {
  }

  /** A lookup that sees every device sees what is expected. */
  lemma FullView(s: State, located: seq<Located>, record: Record)
    requires Core(s) && Enumerates(s.disks, {}, located) && AgreeOn(located, s.settled.body.key, record)
    ensures record == if s.moving.Some? then s.moving.value else s.settled
  {
    DeviceCount(s.settled);
    assert InView(s, {}) == Devices(s.settled);
    ViewAgrees(s, {}, located);
    AgreementUnique(located, s.settled.body.key, record, Expected(s, {}));
  }

  lemma SeenCopy(disks: Disks, located: seq<Located>, d: nat, record: Record)
    requires Enumerates(disks, {}, located) && AgreeOn(located, record.body.key, record)
    ensures HasCopy(located, d, record.revision) <==> At(disks, d).record == Some(record)
  {
    if HasCopy(located, d, record.revision) {
      var c :| c in located && c.device == d && c.record.revision == record.revision;
    }
    if At(disks, d).record == Some(record) {
      assert Located(d, record) in located;
    }
  }

  lemma BeginMoveKeeps(s: State, e: Event)
    requires Invariant(s) && e.BeginMove? && Enabled(s, e)
    ensures Invariant(Effect(s, e))
  {
    FullView(s, e.located, e.record);
    forall d | d in Devices(e.record) ensures At(s.disks, d).record == Some(e.record) {
      SeenCopy(s.disks, e.located, d, e.record);
    }
    if s.moving.None? {
      var next := Moved(s.settled, e.index, e.destination);
      MovedPlaced(s.settled, e.index, e.destination);
      OrderMembers(next, e.destination);
    }
  }

  lemma BeginRepairKeeps(s: State, e: Event)
    requires Invariant(s) && e.BeginRepair? && Enabled(s, e)
    ensures Invariant(Effect(s, e))
  {
    var record, located := e.record, e.located;
    FullView(s, located, record);
    var order := MissingDevices(record.shards, located, record.revision);
    forall d | d in Devices(record) ensures d in order <==> At(s.disks, d).record != Some(record) {
      SeenCopy(s.disks, located, d, record);
    }
  }

  /** Adding a shard file disturbs nothing. */
  lemma PutShardKeeps(s: State, d: nat, i: nat, task: Task)
    requires Core(s)
    ensures Core(s.(disks := PutShard(s.disks, d, i), task := task))
  {
    var t := s.(disks := PutShard(s.disks, d, i), task := task);
    forall x ensures At(t.disks, x).record == At(s.disks, x).record && At(s.disks, x).shards <= At(t.disks, x).shards {
    }
    forall x | x in t.disks && t.disks[x].record.Some? ensures CopyOk(t, x, t.disks[x].record.value) {
      assert CopyOk(s, x, At(s.disks, x).record.value);
    }
    if s.moving.Some? {
      var x :| x in s.disks && s.disks[x].record == s.moving;
      assert t.disks[x].record == s.moving;
      var y :| y in Devices(s.moving.value) && At(s.disks, y).record != s.moving;
      assert At(t.disks, y).record != s.moving;
    }
  }

  lemma CopyKeeps(s: State)
    requires Invariant(s) && s.task.Copying?
    ensures Invariant(Effect(s, Advance))
  {
    var t := Effect(s, Advance);
    var next := s.task.next;
    MovedPlaced(s.settled, s.task.index, s.task.destination);
    OrderMembers(next, s.task.destination);
    PutShardKeeps(s, s.task.destination, s.task.index, t.task);
    forall x | x in next.shards && next.body.size > 0 ensures x.index in At(t.disks, x.device).shards {
    }
  }

  /** A write is never refused. */
  lemma WriteAllowed(s: State)
    requires Invariant(s) && s.task.Writing? && s.task.order != []
    ensures MayWrite(At(s.disks, s.task.order[0]).record, s.task.next)
    ensures s.moving.None? ==>
              || s.task.next == s.settled
              || (Succeeds(s.settled, s.task.next) && Elements(s.task.order) == Devices(s.task.next))
    ensures s.moving.Some? ==> s.moving == Some(s.task.next) && Succeeds(s.settled, s.task.next)
    ensures s.task.order[0] in Devices(s.task.next)
  {
    assert s.task.order[0] in s.task.order;
    var d := s.task.order[0];
    if At(s.disks, d).record.Some? {
      assert CopyOk(s, d, s.disks[d].record.value);
    }
  }

  /** The state after a write that leaves some listed copy unwritten. */
  lemma PartWritten(s: State, t: State)
    requires Invariant(s) && s.task.Writing? && s.task.order != []
    requires !AllHold(PutMeta(s.disks, s.task.order[0], s.task.next), s.task.next)
    requires t == Effect(s, Advance)
    ensures Core(t) && t.moving == Some(s.task.next) && t.settled == s.settled
  {
    WriteAllowed(s);
    var next, d := s.task.next, s.task.order[0];
    forall x ensures At(t.disks, x).shards == At(s.disks, x).shards {
    }
    forall x | x in t.disks && t.disks[x].record.Some? ensures CopyOk(t, x, t.disks[x].record.value) {
      if x != d {
        assert CopyOk(s, x, s.disks[x].record.value);
      }
    }
    assert t.disks[d].record == t.moving;
  }

  /** The state after the write that completes the placement. */
  lemma AllWritten(s: State, t: State)
    requires Invariant(s) && s.task.Writing? && s.task.order != []
    requires AllHold(PutMeta(s.disks, s.task.order[0], s.task.next), s.task.next)
    requires t == Effect(s, Advance)
    ensures Core(t) && t.moving.None? && t.settled == s.task.next
  {
    WriteAllowed(s);
    var next, d := s.task.next, s.task.order[0];
    forall x ensures At(t.disks, x).shards == At(s.disks, x).shards {
    }
    forall x | x in t.disks && t.disks[x].record.Some? ensures CopyOk(t, x, t.disks[x].record.value) {
      if x != d {
        assert CopyOk(s, x, s.disks[x].record.value);
      }
    }
  }

  lemma WriteKeeps(s: State)
    requires Invariant(s) && s.task.Writing? && s.task.order != []
    ensures Invariant(Effect(s, Advance))
  {
    var t := Effect(s, Advance);
    var next, order := s.task.next, s.task.order;
    WriteAllowed(s);
    forall x ensures At(t.disks, x).shards == At(s.disks, x).shards {
    }
    forall x | x in Devices(next) ensures x in order[1..] || At(t.disks, x).record == Some(next) {
      if x in Elements(order) {
        assert x == order[0] || x in order[1..];
      }
    }
    if AllHold(t.disks, next) {
      AllWritten(s, t);
    } else {
      PartWritten(s, t);
    }
  }

  /** Taking away what a device outside the placement holds disturbs nothing. */
  lemma DropKeeps(s: State, t: State, d: nat)
    requires Core(s) && s.moving.None? && d !in Devices(s.settled)
    requires t.settled == s.settled && t.moving.None?
    requires forall x :: x != d ==> At(t.disks, x) == At(s.disks, x)
    requires At(t.disks, d).record.None? || At(t.disks, d).record == At(s.disks, d).record
    ensures Core(t)
  {
    forall x | x in s.settled.shards ensures x.device in Devices(s.settled) {
    }
    forall x | x in t.disks && t.disks[x].record.Some? ensures CopyOk(t, x, t.disks[x].record.value) {
      assert At(t.disks, x).record == At(s.disks, x).record;
      assert CopyOk(s, x, s.disks[x].record.value);
    }
  }

  lemma AdvanceKeeps(s: State)
    requires Invariant(s) && Enabled(s, Advance)
    ensures Invariant(Effect(s, Advance))
  {
    var t := Effect(s, Advance);
    match s.task
    case Copying(_, _, _, _) => CopyKeeps(s);
    case Writing(_, order, _) =>
      if order != [] {
        WriteKeeps(s);
      } else {
        WrittenOut(s);
      }
    case Dropping(devices) =>
      if devices != [] {
        assert devices[0] in devices;
        DropKeeps(s, t, devices[0]);
      }
    case DroppingShards(device, index, rest) =>
      if index < s.settled.Total() {
        DropKeeps(s, t, device);
      }
  }

  /** With nothing left to write the placement is settled. */
  lemma WrittenOut(s: State)
    requires Invariant(s) && s.task.Writing? && s.task.order == []
    ensures s.moving.None? && s.settled == s.task.next
  {
    forall d | d in Devices(s.task.next) ensures s.moving.Some? ==> At(s.disks, d).record == s.moving {
    }
  }

  /** Every step, of a move or a repair or a crash, keeps the invariant. */
  lemma StepKeeps(s: State, e: Event)
    requires Invariant(s) && Enabled(s, e)
    ensures Invariant(Effect(s, e)) && SameBody(Effect(s, e).settled, s.settled)
  {
    match e
    case BeginMove(_, _, _, _) => BeginMoveKeeps(s, e);
    case BeginRepair(_, _) => BeginRepairKeeps(s, e);
    case Crash =>
    case Advance =>
      AdvanceKeeps(s);
      if s.task.Writing? && s.task.order != [] {
        WriteAllowed(s);
      }
  }

  lemma {:induction false} RunKeeps(s: State, events: seq<Event>)
    requires Invariant(s) && Runs(s, events)
    ensures Invariant(After(s, events)) && SameBody(After(s, events).settled, s.settled)
    decreases |events|
  {
    if events != [] {
      StepKeeps(s, events[0]);
      RunKeeps(Effect(s, events[0]), events[1..]);
    }
  }

  /** A version as a write leaves it: on every device of its placement the
      record and the shard, nothing elsewhere. */
  ghost predicate Written(s: State) {
    && s.task.Idle? && s.moving.None? && PlacedRecord(s.settled) && ShardsThere(s.disks, s.settled)
    && AllHold(s.disks, s.settled)
    && forall d :: d in s.disks && s.disks[d].record.Some? ==> d in Devices(s.settled)
  }

  /** Re-placement safety: after every step of every run of moves and repairs,
      complete or cut short anywhere, and with any m devices then out, the
      copies in view, in whatever order they are found, agree on a record, at
      least k of them vouch for its body, and at least k of the shards it lists
      are there. */
  lemma ReplacementSafety(s: State, events: seq<Event>, lost: set<nat>, located: seq<Located>)
    requires Written(s) && Runs(s, events)
    requires |lost| <= s.settled.body.m && Enumerates(After(s, events).disks, lost, located)
    ensures Readable(After(s, events), lost, located)
  {
    assert Invariant(s);
    RunKeeps(s, events);
    CoreReadable(After(s, events), lost, located);
  }

  // ------------------------------------------------- devices out during a move

  /** A move begun while some devices are out, `out` among them every holder of
      an unfinished next record, sees only the settled record. */
  lemma PartialView(s: State, out: set<nat>, located: seq<Located>, record: Record)
    requires Core(s) && Enumerates(s.disks, out, located) && AgreeOn(located, s.settled.body.key, record)
    requires forall d <- Devices(record) :: HasCopy(located, d, record.revision)
    requires InView(s, out) != {}
    ensures record == s.settled && !SeesNext(s, out)
  {
    ViewAgrees(s, out, located);
    AgreementUnique(located, s.settled.body.key, record, Expected(s, out));
    forall d | d in Devices(record) ensures At(s.disks, d).record == Some(record) {
      var c :| c in located && c.device == d && c.record.revision == record.revision;
    }
  }

  /** Why a move must see every device. Begun with some devices out, its first
      record copy leaves the copies agreeing if and only if no unfinished move
      was hidden by the outage, or that very move is being repeated. */
  lemma MoveWithDevicesOut(s: State, out: set<nat>, located: seq<Located>, record: Record, index: nat, destination: nat,
                           all: seq<Located>)
    requires Core(s) && Enumerates(s.disks, out, located) && AgreeOn(located, s.settled.body.key, record)
    requires forall d <- Devices(record) :: HasCopy(located, d, record.revision)
    requires InView(s, out) != {} && index < record.Total() && destination !in Devices(record) && destination !in out
    requires Enumerates(PutMeta(s.disks, destination, Moved(record, index, destination)), {}, all)
    ensures record == s.settled
    ensures (exists r :: AgreeOn(all, s.settled.body.key, r)) <==>
              s.moving.None? || s.moving == Some(Moved(s.settled, index, destination))
  {
    PartialView(s, out, located, record);
    MovedPlaced(s.settled, index, destination);
    var next := Moved(s.settled, index, destination);
    if s.moving.None? || s.moving == Some(next) {
      OneNextRecord(s, next, destination, all);
    } else {
      var d :| d in s.disks && s.disks[d].record == s.moving;
      TwoNextRecords(s, next, destination, d, all);
    }
  }

  lemma OneNextRecord(s: State, next: Record, destination: nat, all: seq<Located>)
    requires Core(s) && Succeeds(s.settled, next) && destination in Devices(next)
    requires s.moving.None? || s.moving == Some(next)
    requires Enumerates(PutMeta(s.disks, destination, next), {}, all)
    ensures AgreeOn(all, s.settled.body.key, next)
  {
    forall c | c in all
      ensures c.record.body.key == s.settled.body.key && c.record.revision <= next.revision
      ensures c.record.revision == next.revision ==> c.record == next && c.device in Devices(next)
    {
      if c.device != destination {
        assert CopyOk(s, c.device, c.record);
      }
    }
    assert PutMeta(s.disks, destination, next)[destination].record == Some(next);
    assert Located(destination, next) in all;
  }

  lemma TwoNextRecords(s: State, next: Record, destination: nat, d: nat, all: seq<Located>)
    requires Core(s) && Succeeds(s.settled, next) && s.moving.Some? && s.moving.value != next
    requires d in s.disks && s.disks[d].record == s.moving && d != destination
    requires Enumerates(PutMeta(s.disks, destination, next), {}, all)
    ensures !exists r :: AgreeOn(all, s.settled.body.key, r)
  {
    var disks := PutMeta(s.disks, destination, next);
    assert disks[destination].record == Some(next) && disks[d].record == s.moving;
    assert Located(destination, next) in all && Located(d, s.moving.value) in all;
    forall c | c in all ensures c.record.revision <= next.revision {
      if c.device != destination {
        assert CopyOk(s, c.device, c.record);
      }
    }
  }
}
