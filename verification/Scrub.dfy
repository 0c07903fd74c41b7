/** Judging one version from the copies of it that the record streams bring
    together: the inventory's state (crates/djbod-node/src/coordinator.rs:4047-4059,
    4172-4208) and the scrub's findings (4640-4741). */
module Scrub {
  import opened Prelude
  import opened Records
  import opened Replacement

  datatype ObjectState = Whole | DegradedParity | DegradedData | Unreadable | Inconsistent

  datatype ShardCount = ShardCount(total: nat, available: nat, k: nat)

  datatype Finding =
    | InconsistentRecords
    | StaleCopy(device: nat, revision: nat)
    | ShardLost(device: nat, index: nat)
    | ShardMissingOnDevice(device: nat, index: nat)

  /** `object_state`. */
  function StateOf(record: Record, out: seq<nat>): ObjectState {
    if out == [] then Whole
    else if |out| > record.body.m then Unreadable
    else if exists index :: index in out && index < record.body.k then DegradedData
    else DegradedParity
  }

  /** A group as the merge hands it on: copies of one version, one from each of
      some devices with a stream, every record valid. */
  ghost predicate Group(group: seq<Located>, known: set<nat>) {
    && group != []
    && (forall c <- group ::
          c.device in known && PlacementOk(c.record.shards, c.record.Total())
          && c.record.body.version == group[0].record.body.version)
    && (forall i, j :: 0 <= i < j < |group| ==> group[i].device != group[j].device)
  }

  /** The copies agree on `record` and every device it lists that was read has
      its copy. */
  ghost predicate GroupAgrees(group: seq<Located>, record: Record, unread: set<nat>, known: set<nat>) {
    && AgreeOn(group, record.body.key, record)
    && forall d <- Devices(record) :: d in unread || d !in known || HasCopy(group, d, record.revision)
  }

  lemma GroupAgreesOnce(group: seq<Located>, a: Record, b: Record, unread: set<nat>, known: set<nat>)
    requires group != [] && GroupAgrees(group, a, unread, known) && GroupAgrees(group, b, unread, known)
    ensures a == b
  {
    assert group[0] in group;
    AgreementUnique(group, a.body.key, a, b);
  }

  /** A shard is out when its device was not read or is lost, or holds no file. */
  predicate IsOut(shard: Location, notExpected: set<nat>, present: map<nat, bool>) {
    shard.device in notExpected || (shard.device in present && !present[shard.device])
  }

  function Out(shards: seq<Location>, notExpected: set<nat>, present: map<nat, bool>): (out: seq<nat>)
    ensures |out| <= |shards|
    ensures forall i :: i in out <==> exists s :: s in shards && s.index == i && IsOut(s, notExpected, present)
  {
    if shards == [] then []
    else
      var before := Out(shards[..|shards| - 1], notExpected, present);
      var last := shards[|shards| - 1];
      assert shards == shards[..|shards| - 1] + [last];
      if IsOut(last, notExpected, present) then before + [last.index] else before
  }

  lemma {:induction false} OutSame(shards: seq<Location>, a: set<nat>, b: set<nat>, present: map<nat, bool>)
    requires forall s <- shards :: s.device in a <==> s.device in b
    ensures Out(shards, a, present) == Out(shards, b, present)
  {
    if shards != [] {
      var before := shards[..|shards| - 1];
      assert shards == before + [shards[|shards| - 1]];
      OutSame(before, a, b, present);
    }
  }

  /** Which listed devices a read of the record should not expect. */
  ghost function NotExpected(record: Record, unread: set<nat>, known: set<nat>): set<nat> {
    set d | d in Devices(record) && (d in unread || d !in known)
  }

  lemma OneVersion(group: seq<Located>, known: set<nat>)
    requires Group(group, known)
    ensures OfVersion(group, group[0].record.body.version) == group
    ensures Versions(group) == {group[0].record.body.version}
  {
    assert group[0] in group;
    AllOfVersion(group, group[0].record.body.version);
  }

  lemma {:induction false} AllOfVersion(group: seq<Located>, version: nat)
    requires forall c <- group :: c.record.body.version == version
    ensures OfVersion(group, version) == group
  {
    if group != [] {
      var before := group[..|group| - 1];
      assert group == before + [group[|group| - 1]];
      AllOfVersion(before, version);
    }
  }

  /** The copies agree on `record`, and none is missing but from `excluded`. */
  ghost predicate AgreesExcept(group: seq<Located>, key: seq<Byte>, record: Record, excluded: set<nat>) {
    && AgreeOn(group, key, record)
    && forall d <- Devices(record) :: d in excluded || HasCopy(group, d, record.revision)
  }

  /** What `versions_of_excluding` says of a group: its one record, when there
      is one. */
  method GroupRecord(group: seq<Located>, key: seq<Byte>, excluded: set<nat>, ghost known: set<nat>)
    returns (r: Option<Record>)
    requires Group(group, known)
    ensures r.Some? ==> AgreesExcept(group, key, r.value, excluded)
    ensures r.None? ==> forall record :: !AgreesExcept(group, key, record, excluded)
  {
    OneVersion(group, known);
    var versions := VersionsExcluding(group, key, excluded);
    if versions.Err? {
      forall record | AgreeOn(group, key, record) ensures record.body.version == group[0].record.body.version {
        var c :| c in group && c.record.revision == record.revision;
      }
      return None;
    }
    assert group[0].record.body.version in Versions(group);
    assert versions.value != [];
    assert versions.value[0].body.version in Versions(group);
    return Some(versions.value[0]);
  }

  /** `max_by_key(revision)`: a copy at the highest revision. */
  method Current(group: seq<Located>) returns (c: Located)
    requires group != []
    ensures c in group && HighestRevision(group, c.record.revision)
  {
    c := group[0];
    for n := 1 to |group|
      invariant c in group && forall j :: 0 <= j < n ==> group[j].record.revision <= c.record.revision
    {
      if group[n].record.revision >= c.record.revision {
        c := group[n];
      }
    }
  }

  lemma RecordIsCurrent(group: seq<Located>, c: Located, key: seq<Byte>, record: Record)
    requires c in group && HighestRevision(group, c.record.revision) && AgreeOn(group, key, record)
    ensures record == c.record
  {
    var d :| d in group && d.record.revision == record.revision;
  }

  /** Not expecting the lost devices amounts to not expecting any that has no
      stream. */
  lemma ExcludedMeans(group: seq<Located>, c: Located, key: seq<Byte>, unread: set<nat>, known: set<nat>, lost: set<nat>,
                      r: Record)
    requires c in group && HighestRevision(group, c.record.revision) && exists e <- group :: e.record.body.key == key
    requires forall d <- Devices(c.record) :: d in lost <==> d !in known && d !in unread
    ensures AgreesExcept(group, key, r, unread + lost) <==> GroupAgrees(group, r, unread, known)
  {
    var e :| e in group && e.record.body.key == key;
    if AgreeOn(group, key, r) {
      RecordIsCurrent(group, c, key, r);
    }
    if AgreeOn(group, r.body.key, r) {
      RecordIsCurrent(group, c, r.body.key, r);
      assert r.body.key == key;
    }
  }

  /** The record of the group, and the devices not to expect, in one answer. */
  method JudgeGroup(group: seq<Located>, key: seq<Byte>, ghost c: Located, unread: set<nat>, ghost known: set<nat>, lost: set<nat>)
    returns (r: Option<Record>)
    requires Group(group, known) && c in group && HighestRevision(group, c.record.revision)
    requires exists e <- group :: e.record.body.key == key
    requires forall d <- Devices(c.record) :: d in lost <==> d !in known && d !in unread
    ensures r.None? <==> !exists x :: GroupAgrees(group, x, unread, known)
    ensures r.Some? ==> GroupAgrees(group, r.value, unread, known) && r.value == c.record
    ensures r.Some? ==> forall present ::
              Out(r.value.shards, unread + lost, present) == Out(r.value.shards, NotExpected(r.value, unread, known), present)
  {
    forall x ensures AgreesExcept(group, key, x, unread + lost) <==> GroupAgrees(group, x, unread, known) {
      ExcludedMeans(group, c, key, unread, known, lost, x);
    }
    r := GroupRecord(group, key, unread + lost, known);
    if r.Some? {
      RecordIsCurrent(group, c, key, r.value);
      forall present ensures
        Out(r.value.shards, unread + lost, present) == Out(r.value.shards, NotExpected(r.value, unread, known), present)
      {
        OutSame(r.value.shards, unread + lost, NotExpected(r.value, unread, known), present);
      }
    }
  }

  /** The state of the record agreed on, given its shards that are out. */
  method StateOfAgreed(ghost group: seq<Located>, record: Record, list: seq<nat>, ghost present: map<nat, bool>,
                       ghost unread: set<nat>, ghost known: set<nat>)
    returns (state: ObjectState)
    requires Group(group, known) && GroupAgrees(group, record, unread, known)
    requires list == Out(record.shards, NotExpected(record, unread, known), present)
    ensures state == StateOf(record, list) && state != Inconsistent
    ensures (forall c <- group :: c.device in present) ==> StateMeans(record, ShardsRead(record, present, unread, known), state)
  {
    StateFromRead(group, record, present, unread, known);
    state := StateOf(record, list);
  }

  /** `classify_group`: inconsistent exactly when the copies do not agree on a
      record whose expected copies are all there; otherwise judged from how
      many of that record's shards are out, and which; and that is to say, from
      which of them are on devices read. */
  method ClassifyGroup(group: seq<Located>, present: map<nat, bool>, unread: set<nat>, known: set<nat>)
    returns (state: ObjectState, record: Record, out: nat)
    requires Group(group, known)
    ensures state == Inconsistent <==> !exists r :: GroupAgrees(group, r, unread, known)
    ensures state != Inconsistent ==>
              && GroupAgrees(group, record, unread, known)
              && var list := Out(record.shards, NotExpected(record, unread, known), present);
                 out == |list| && state == StateOf(record, list)
    ensures state == Inconsistent ==> out == 0
    ensures state != Inconsistent && (forall c <- group :: c.device in present) ==>
              StateMeans(record, ShardsRead(record, present, unread, known), state)
  {
    var current := Current(group);
    var lost := set s | s in current.record.shards && s.device !in known && s.device !in unread :: s.device;
    var found := JudgeGroup(group, current.record.body.key, current, unread, known, lost);
    if found.None? {
      return Inconsistent, current.record, 0;
    }
    record := found.value;
    var list := Out(record.shards, unread + lost, present);
    state := StateOfAgreed(group, record, list, present, unread, known);
    return state, record, |list|;
  }

  // ---------------------------------------------------------- the scrub

  /** Shards that count as unavailable: out, or found damaged by the node's own
      scrub. */
  function Unavailable(shards: seq<Location>, version: nat, notExpected: set<nat>, present: map<nat, bool>,
                       damaged: set<(nat, nat)>): (n: nat)
    ensures n <= |shards|
  {
    if shards == [] then 0
    else
      var last := shards[|shards| - 1];
      Unavailable(shards[..|shards| - 1], version, notExpected, present, damaged)
      + (if IsOut(last, notExpected, present) || (version, last.index) in damaged then 1 else 0)
  }

  /** The shards that are neither out nor found damaged. */
  ghost function Available(record: Record, notExpected: set<nat>, present: map<nat, bool>, damaged: set<(nat, nat)>): set<nat> {
    AvailableOf(record.shards, record.body.version, notExpected, present, damaged)
  }

  ghost function AvailableOf(shards: seq<Location>, version: nat, notExpected: set<nat>, present: map<nat, bool>,
                             damaged: set<(nat, nat)>): set<nat> {
    set s | s in shards && !IsOut(s, notExpected, present) && (version, s.index) !in damaged :: s.index
  }

  lemma AvailableCount(record: Record, notExpected: set<nat>, present: map<nat, bool>, damaged: set<(nat, nat)>)
    requires PlacementOk(record.shards, record.Total())
    ensures |Available(record, notExpected, present, damaged)|
            + Unavailable(record.shards, record.body.version, notExpected, present, damaged) == record.Total()
  {
    AvailableAre(record.shards, record.body.version, notExpected, present, damaged);
  }

  lemma {:induction false} AvailableAre(shards: seq<Location>, version: nat, notExpected: set<nat>, present: map<nat, bool>,
                                        damaged: set<(nat, nat)>)
    requires forall i, j :: 0 <= i < j < |shards| ==> shards[i].index != shards[j].index
    ensures |AvailableOf(shards, version, notExpected, present, damaged)|
            + Unavailable(shards, version, notExpected, present, damaged) == |shards|
  {
    var all := AvailableOf(shards, version, notExpected, present, damaged);
    if shards == [] {
      assert all == {};
    } else {
      var before, last := shards[..|shards| - 1], shards[|shards| - 1];
      assert shards == before + [last];
      AvailableAre(before, version, notExpected, present, damaged);
      var some := AvailableOf(before, version, notExpected, present, damaged);
      if IsOut(last, notExpected, present) || (version, last.index) in damaged {
        assert all == some;
      } else {
        assert all == some + {last.index};
        assert last.index !in some;
      }
    }
  }

  function StaleFindings(record: Record, group: seq<Located>): (findings: seq<Finding>)
    ensures findings == [] <==> forall c <- group :: !(c.record.revision < record.revision && c.device !in Devices(record))
  {
    if group == [] then []
    else
      var before := StaleFindings(record, group[..|group| - 1]);
      var last := group[|group| - 1];
      assert group == group[..|group| - 1] + [last];
      if last.record.revision < record.revision && ShardOn(record, last.device).None?
      then before + [StaleCopy(last.device, last.record.revision)] else before
  }

  function ShardFindings(record: Record, shards: seq<Location>, lost: set<nat>, present: map<nat, bool>): (findings: seq<Finding>)
    ensures findings == [] <==> forall s <- shards ::
              s.device !in lost && !(record.body.size > 0 && s.device in present && !present[s.device])
  {
    if shards == [] then []
    else
      var before := ShardFindings(record, shards[..|shards| - 1], lost, present);
      var last := shards[|shards| - 1];
      assert shards == shards[..|shards| - 1] + [last];
      if last.device in lost then before + [ShardLost(last.device, last.index)]
      else if record.body.size > 0 && last.device in present && !present[last.device]
      then before + [ShardMissingOnDevice(last.device, last.index)] else before
  }

  /** What a clean version looks like to the scrub. */
  ghost predicate Clean(group: seq<Located>, record: Record, present: map<nat, bool>, unread: set<nat>, known: set<nat>) {
    && GroupAgrees(group, record, unread, known)
    && (forall c <- group :: c.device in Devices(record))
    && (forall s <- record.shards :: s.device in known || s.device in unread)
    && (record.body.size > 0 ==> forall s <- record.shards :: s.device in present ==> present[s.device])
  }

  /** What each finding means. */
  ghost predicate Reported(group: seq<Located>, record: Record, present: map<nat, bool>, unread: set<nat>, known: set<nat>,
                           f: Finding) {
    match f
    case InconsistentRecords => false
    case StaleCopy(device, revision) =>
      exists c :: c in group && c.device == device && c.record.revision == revision < record.revision && device !in Devices(record)
    case ShardLost(device, index) => Location(index, device) in record.shards && device !in known && device !in unread
    case ShardMissingOnDevice(device, index) =>
      && Location(index, device) in record.shards && (device in known || device in unread)
      && record.body.size > 0 && device in present && !present[device]
  }

  lemma {:induction false} StaleReported(record: Record, group: seq<Located>, f: Finding)
    ensures f in StaleFindings(record, group) <==>
              && f.StaleCopy?
              && exists c :: c in group && c.device == f.device && c.record.revision == f.revision < record.revision
                             && f.device !in Devices(record)
  {
    if group != [] {
      var before, last := group[..|group| - 1], group[|group| - 1];
      assert group == before + [last];
      StaleReported(record, before, f);
    }
  }

  lemma {:induction false} ShardsReported(record: Record, shards: seq<Location>, lost: set<nat>, present: map<nat, bool>, f: Finding)
    ensures f in ShardFindings(record, shards, lost, present) <==>
              || (f.ShardLost? && Location(f.index, f.device) in shards && f.device in lost)
              || (f.ShardMissingOnDevice? && Location(f.index, f.device) in shards && f.device !in lost
                  && record.body.size > 0 && f.device in present && !present[f.device])
  {
    if shards != [] {
      var before, last := shards[..|shards| - 1], shards[|shards| - 1];
      assert shards == before + [last];
      ShardsReported(record, before, lost, present, f);
    }
  }

  /** `check_group`: a count exactly when the copies agree, and no finding
      exactly when besides no copy is left on a device the record does not
      list, no listed device is gone and no listed file is missing. */
  method CheckGroup(group: seq<Located>, present: map<nat, bool>, unread: set<nat>, known: set<nat>, damaged: set<(nat, nat)>)
    returns (findings: seq<Finding>, shards: Option<ShardCount>, ghost record: Record)
    requires Group(group, known)
    ensures shards.None? <==> !exists r :: GroupAgrees(group, r, unread, known)
    ensures shards.Some? ==>
              && GroupAgrees(group, record, unread, known)
              && shards.value == ShardCount(record.Total(),
                   record.Total() - Unavailable(record.shards, record.body.version, NotExpected(record, unread, known), present, damaged),
                   record.body.k)
    ensures shards.Some? ==>
              shards.value.available == |Available(record, NotExpected(record, unread, known), present, damaged)|
    ensures findings == [] <==> shards.Some? && Clean(group, record, present, unread, known)
    ensures shards.None? ==> findings == [InconsistentRecords]
    ensures shards.Some? ==> forall f :: f in findings <==> Reported(group, record, present, unread, known, f)
  {
    var lost := LostDevices(group, unread, known);
    record := GhostCurrent(group).record;
    assert group[0] in group;
    var found := JudgeGroup(group, group[0].record.body.key, GhostCurrent(group), unread, known, lost);
    if found.None? {
      return [InconsistentRecords], None, record;
    }
    AgreedCount(group, found.value);
    var count := CountShards(found.value, lost, present, unread, known, damaged);
    shards := Some(count);
    findings := Report(group, found.value, lost, present, unread, known);
  }

  /** Listed devices with neither a stream nor a copy here, and not unread. */
  method LostDevices(group: seq<Located>, unread: set<nat>, known: set<nat>) returns (lost: set<nat>)
    requires Group(group, known)
    ensures forall c <- group, d <- Devices(c.record) :: d in lost <==> d !in known && d !in unread
  {
    lost := set c, s | c in group && s in c.record.shards && s.device !in known && s.device !in unread
                       && !(exists e :: e in group && e.device == s.device) :: s.device;
  }

  method CountShards(record: Record, lost: set<nat>, present: map<nat, bool>, unread: set<nat>, ghost known: set<nat>,
                     damaged: set<(nat, nat)>)
    returns (count: ShardCount)
    requires PlacementOk(record.shards, record.Total())
    requires forall d <- Devices(record) :: d in lost <==> d !in known && d !in unread
    ensures count == ShardCount(record.Total(),
              record.Total() - Unavailable(record.shards, record.body.version, NotExpected(record, unread, known), present, damaged),
              record.body.k)
    ensures count.available == |Available(record, NotExpected(record, unread, known), present, damaged)|
  {
    AvailableCount(record, NotExpected(record, unread, known), present, damaged);
    forall s | s in record.shards ensures s.device in Devices(record) {
    }
    UnavailableSame(record.shards, record.body.version, unread + lost, NotExpected(record, unread, known), present, damaged);
    var out := Unavailable(record.shards, record.body.version, unread + lost, present, damaged);
    count := ShardCount(record.Total(), record.Total() - out, record.body.k);
  }

  method Report(group: seq<Located>, record: Record, lost: set<nat>, present: map<nat, bool>, ghost unread: set<nat>,
                ghost known: set<nat>)
    returns (findings: seq<Finding>)
    requires GroupAgrees(group, record, unread, known)
    requires forall d <- Devices(record) :: d in lost <==> d !in known && d !in unread
    ensures findings == [] <==> Clean(group, record, present, unread, known)
    ensures forall f :: f in findings <==> Reported(group, record, present, unread, known, f)
  {
    NoneStale(group, record);
    NoneMissing(record, lost, present, unread, known);
    findings := StaleFindings(record, group) + ShardFindings(record, record.shards, lost, present);
    forall f ensures f in findings <==> Reported(group, record, present, unread, known, f) {
      ReportedIs(group, record, lost, present, unread, known, f);
    }
  }

  lemma ReportedIs(group: seq<Located>, record: Record, lost: set<nat>, present: map<nat, bool>, unread: set<nat>,
                   known: set<nat>, f: Finding)
    requires forall d <- Devices(record) :: d in lost <==> d !in known && d !in unread
    ensures f in StaleFindings(record, group) + ShardFindings(record, record.shards, lost, present) <==>
              Reported(group, record, present, unread, known, f)
  {
    StaleReported(record, group, f);
    ShardsReported(record, record.shards, lost, present, f);
    if (f.ShardLost? || f.ShardMissingOnDevice?) && Location(f.index, f.device) in record.shards {
      assert f.device in Devices(record);
    }
  }

  lemma NoneStale(group: seq<Located>, record: Record)
    requires AgreeOn(group, record.body.key, record)
    ensures StaleFindings(record, group) == [] <==> forall c <- group :: c.device in Devices(record)
  {
  }

  lemma NoneMissing(record: Record, lost: set<nat>, present: map<nat, bool>, unread: set<nat>, known: set<nat>)
    requires forall d <- Devices(record) :: d in lost <==> d !in known && d !in unread
    ensures ShardFindings(record, record.shards, lost, present) == [] <==>
              && (forall s <- record.shards :: s.device in known || s.device in unread)
              && (record.body.size > 0 ==> forall s <- record.shards :: s.device in present ==> present[s.device])
  {
    forall s | s in record.shards ensures s.device in lost <==> s.device !in known && s.device !in unread {
      assert s.device in Devices(record);
    }
  }

  ghost function GhostCurrent(group: seq<Located>): (c: Located)
    requires group != []
    ensures c in group && HighestRevision(group, c.record.revision)
  {
    if |group| == 1 then group[0]
    else
      var before := GhostCurrent(group[..|group| - 1]);
      var last := group[|group| - 1];
      assert group == group[..|group| - 1] + [last];
      if last.record.revision >= before.record.revision then last else before
  }

  lemma AgreedCount(group: seq<Located>, record: Record)
    requires (forall c <- group :: PlacementOk(c.record.shards, c.record.Total())) && AgreeOn(group, record.body.key, record)
    ensures PlacementOk(record.shards, record.Total())
  {
    var c :| c in group && c.record.revision == record.revision;
  }

  lemma {:induction false} UnavailableSame(shards: seq<Location>, version: nat, a: set<nat>, b: set<nat>,
                                           present: map<nat, bool>, damaged: set<(nat, nat)>)
    requires forall s <- shards :: s.device in a <==> s.device in b
    ensures Unavailable(shards, version, a, present, damaged) == Unavailable(shards, version, b, present, damaged)
  {
    if shards != [] {
      var before := shards[..|shards| - 1];
      assert shards == before + [shards[|shards| - 1]];
      UnavailableSame(before, version, a, b, present, damaged);
    }
  }

  // ------------------------------------- inventory, scrub and read together

  lemma {:induction false} UndamagedCount(shards: seq<Location>, version: nat, notExpected: set<nat>, present: map<nat, bool>)
    ensures Unavailable(shards, version, notExpected, present, {}) == |Out(shards, notExpected, present)|
  {
    if shards != [] {
      UndamagedCount(shards[..|shards| - 1], version, notExpected, present);
    }
  }

  /** The listed devices whose shard is not out. */
  ghost function Serving(shards: seq<Location>, notExpected: set<nat>, present: map<nat, bool>): set<nat> {
    set s | s in shards && !IsOut(s, notExpected, present) :: s.device
  }

  lemma {:induction false} ServingCount(shards: seq<Location>, notExpected: set<nat>, present: map<nat, bool>)
    requires forall i, j :: 0 <= i < j < |shards| ==> shards[i].device != shards[j].device
    ensures |Serving(shards, notExpected, present)| + |Out(shards, notExpected, present)| == |shards|
  {
    if shards == [] {
      assert Serving(shards, notExpected, present) == {};
    } else {
      var before, last := shards[..|shards| - 1], shards[|shards| - 1];
      assert shards == before + [last];
      ServingCount(before, notExpected, present);
      if IsOut(last, notExpected, present) {
        assert Serving(shards, notExpected, present) == Serving(before, notExpected, present);
      } else {
        assert Serving(shards, notExpected, present) == Serving(before, notExpected, present) + {last.device};
        assert last.device !in Serving(before, notExpected, present);
      }
    }
  }

  /** The shards of `record` on devices that were read and hold the file. */
  ghost function ShardsRead(record: Record, present: map<nat, bool>, unread: set<nat>, known: set<nat>): set<nat> {
    set s | s in record.shards && s.device in known && s.device !in unread
            && s.device in present && present[s.device] :: s.index
  }

  /** A version judged no worse than degraded can be read: at least k copies
      vouch for its record and at least k of its shards are on devices read. */
  lemma DegradedIsReadable(group: seq<Located>, record: Record, present: map<nat, bool>, unread: set<nat>, known: set<nat>)
    requires Group(group, known) && GroupAgrees(group, record, unread, known)
    requires forall c <- group :: c.device in present
    requires |Out(record.shards, NotExpected(record, unread, known), present)| <= record.body.m
    ensures VouchingCount(group, record) >= record.body.k
    ensures |ShardsRead(record, present, unread, known)| >= record.body.k
  {
    var notExpected := NotExpected(record, unread, known);
    var serving := Serving(record.shards, notExpected, present);
    AgreedCount(group, record);
    ServingCount(record.shards, notExpected, present);
    forall d | d in serving ensures exists c :: c in group && c.device == d && Vouches(c, record) {
      assert d in Devices(record) && HasCopy(group, d, record.revision);
      var c :| c in group && c.device == d && c.record.revision == record.revision;
      assert Vouches(c, record);
    }
    VouchersCounted(group, record, serving);
    forall s | s in record.shards && s.device in serving ensures s.index in ShardsRead(record, present, unread, known) {
      ServingRead(group, record, s, present, unread, known);
    }
    IndicesOfDevices(record, serving, ShardsRead(record, present, unread, known));
  }

  lemma ServingRead(group: seq<Located>, record: Record, s: Location, present: map<nat, bool>, unread: set<nat>, known: set<nat>)
    requires GroupAgrees(group, record, unread, known) && PlacementOk(record.shards, record.Total())
    requires (forall c <- group :: c.device in present) && s in record.shards
    requires s.device in Serving(record.shards, NotExpected(record, unread, known), present)
    ensures s.index in ShardsRead(record, present, unread, known)
  {
    var t :| t in record.shards && t.device == s.device && !IsOut(t, NotExpected(record, unread, known), present);
    assert s.device in Devices(record) && HasCopy(group, s.device, record.revision);
  }

  lemma {:induction false} OutDistinct(shards: seq<Location>, notExpected: set<nat>, present: map<nat, bool>)
    requires forall i, j :: 0 <= i < j < |shards| ==> shards[i].index != shards[j].index
    ensures Distinct(Out(shards, notExpected, present))
  {
    if shards != [] {
      var before, last := shards[..|shards| - 1], shards[|shards| - 1];
      assert shards == before + [last];
      OutDistinct(before, notExpected, present);
      forall s | s in before ensures s.index != last.index {
        var n :| 0 <= n < |before| && before[n] == s;
        assert shards[n] == s && shards[|before|] == last;
      }
      DistinctSnoc(Out(before, notExpected, present), last.index);
    }
  }

  /** The shards on devices read are those not out. */
  lemma ReadIsRest(group: seq<Located>, record: Record, present: map<nat, bool>, unread: set<nat>, known: set<nat>)
    requires GroupAgrees(group, record, unread, known) && PlacementOk(record.shards, record.Total())
    requires forall c <- group :: c.device in present
    ensures var out := Out(record.shards, NotExpected(record, unread, known), present);
            ShardsRead(record, present, unread, known) == Below(record.Total()) - Elements(out)
  {
    var out := Out(record.shards, NotExpected(record, unread, known), present);
    BelowMembers(record.Total());
    forall i | i in ShardsRead(record, present, unread, known) ensures i in Below(record.Total()) && i !in out {
      ReadIsNotOut(record, present, unread, known, i);
    }
    forall i | i in Below(record.Total()) && i !in out ensures i in ShardsRead(record, present, unread, known) {
      AllIndicesNamed(record.shards, record.Total(), i);
      var n :| 0 <= n < |record.shards| && record.shards[n].index == i;
      var s := record.shards[n];
      assert s in record.shards;
      ServingRead(group, record, s, present, unread, known);
    }
  }

  lemma ReadAndOut(group: seq<Located>, record: Record, present: map<nat, bool>, unread: set<nat>, known: set<nat>)
    requires GroupAgrees(group, record, unread, known) && PlacementOk(record.shards, record.Total())
    requires forall c <- group :: c.device in present
    ensures |ShardsRead(record, present, unread, known)|
            + |Out(record.shards, NotExpected(record, unread, known), present)| == record.Total()
  {
    var out := Out(record.shards, NotExpected(record, unread, known), present);
    ReadIsRest(group, record, present, unread, known);
    OutDistinct(record.shards, NotExpected(record, unread, known), present);
    DistinctCount(out);
    BelowMembers(record.Total());
    forall i | i in Elements(out) ensures i in Below(record.Total()) {
      var s :| s in record.shards && s.index == i;
    }
    RestCount(Below(record.Total()), Elements(out));
  }

  lemma RestCount(all: set<nat>, some: set<nat>)
    requires some <= all
    ensures |all - some| + |some| == |all|
  {
    assert all == (all - some) + some;
  }

  /** What each state says of the shards on devices read: whole is all of them,
      unreadable fewer than k, and degraded is data or parity only by whether a
      data shard is out. */
  ghost predicate StateMeans(record: Record, read: set<nat>, state: ObjectState) {
    && (state == Whole <==> forall i: nat :: i < record.Total() ==> i in read)
    && (state == Unreadable <==> |read| < record.body.k)
    && (state == DegradedData <==> |read| >= record.body.k && exists i: nat :: i < record.body.k && i !in read)
    && (state == DegradedParity <==>
          && (forall i: nat :: i < record.body.k ==> i in read)
          && exists i: nat :: record.body.k <= i < record.Total() && i !in read)
  }

  lemma StateFromRead(group: seq<Located>, record: Record, present: map<nat, bool>, unread: set<nat>, known: set<nat>)
    requires Group(group, known) && GroupAgrees(group, record, unread, known)
    ensures (forall c <- group :: c.device in present) ==>
              StateMeans(record, ShardsRead(record, present, unread, known),
                         StateOf(record, Out(record.shards, NotExpected(record, unread, known), present)))
  {
    if forall c <- group :: c.device in present {
      AgreedCount(group, record);
      ReadOrOut(group, record, present, unread, known);
      ReadAndOut(group, record, present, unread, known);
      StateOfRest(record, Out(record.shards, NotExpected(record, unread, known), present),
                  ShardsRead(record, present, unread, known));
    }
  }

  lemma ReadOrOut(group: seq<Located>, record: Record, present: map<nat, bool>, unread: set<nat>, known: set<nat>)
    requires GroupAgrees(group, record, unread, known) && PlacementOk(record.shards, record.Total())
    requires forall c <- group :: c.device in present
    ensures var out := Out(record.shards, NotExpected(record, unread, known), present);
            && (forall i <- out :: i < record.Total())
            && forall i: nat :: i < record.Total() ==> (i in ShardsRead(record, present, unread, known) <==> i !in out)
  {
    ReadIsRest(group, record, present, unread, known);
    BelowMembers(record.Total());
  }

  lemma StateOfRest(record: Record, out: seq<nat>, read: set<nat>)
    requires |read| + |out| == record.Total() && forall i <- out :: i < record.Total()
    requires forall i: nat :: i < record.Total() ==> (i in read <==> i !in out)
    ensures StateMeans(record, read, StateOf(record, out))
  {
    if out != [] {
      assert out[0] in out;
    }
    if forall i: nat :: i < record.body.k ==> i in read {
      DataRead(record.body.k, read);
    }
  }

  /** With every data shard read there are k. */
  lemma DataRead(k: nat, read: set<nat>)
    requires forall i: nat :: i < k ==> i in read
    ensures |read| >= k
  {
    BelowMembers(k);
    SubsetCount(Below(k), read);
  }

  lemma ReadIsNotOut(record: Record, present: map<nat, bool>, unread: set<nat>, known: set<nat>, i: nat)
    requires PlacementOk(record.shards, record.Total()) && i in ShardsRead(record, present, unread, known)
    ensures i !in Out(record.shards, NotExpected(record, unread, known), present)
  {
    var s :| && s in record.shards && s.device in known && s.device !in unread && s.device in present && present[s.device]
             && s.index == i;
    forall t | t in record.shards && t.index == i ensures t == s {
      LookupsInverse(record, s);
      LookupsInverse(record, t);
    }
  }

  /** The state and the count follow from the same shards being out, those not on
      devices read; and anything better than unreadable has k copies that vouch
      besides. */
  ghost predicate JudgedAlike(group: seq<Located>, record: Record, present: map<nat, bool>, unread: set<nat>,
                              known: set<nat>, state: ObjectState, count: ShardCount) {
    var out := Out(record.shards, NotExpected(record, unread, known), present);
    && state == StateOf(record, out)
    && count.total == record.Total() && count.available + |out| == record.Total() && count.k == record.body.k
    && StateMeans(record, ShardsRead(record, present, unread, known), state)
    && count.available == |ShardsRead(record, present, unread, known)|
    && (state != Unreadable ==> VouchingCount(group, record) >= record.body.k)
  }

  lemma AlikeFor(group: seq<Located>, record: Record, present: map<nat, bool>, unread: set<nat>, known: set<nat>)
    requires Group(group, known) && (forall c <- group :: c.device in present)
    requires GroupAgrees(group, record, unread, known)
    ensures var out := Out(record.shards, NotExpected(record, unread, known), present);
            var unavailable := Unavailable(record.shards, record.body.version, NotExpected(record, unread, known), present, {});
            && unavailable <= record.Total()
            && JudgedAlike(group, record, present, unread, known, StateOf(record, out),
                           ShardCount(record.Total(), record.Total() - unavailable, record.body.k))
  {
    AgreedCount(group, record);
    UndamagedCount(record.shards, record.body.version, NotExpected(record, unread, known), present);
    if |Out(record.shards, NotExpected(record, unread, known), present)| <= record.body.m {
      DegradedIsReadable(group, record, present, unread, known);
    }
    ReadAndOut(group, record, present, unread, known);
    StateFromRead(group, record, present, unread, known);
  }

  /** Where no device with a copy of the record has a shard file, as when an empty
      object is put, the inventory calls the version unreadable. */
  lemma NoFilesUnreadable(group: seq<Located>, record: Record, present: map<nat, bool>, unread: set<nat>, known: set<nat>)
    requires Group(group, known) && (forall c <- group :: c.device in present && !present[c.device])
    requires GroupAgrees(group, record, unread, known) && record.body.k >= 1
    ensures StateOf(record, Out(record.shards, NotExpected(record, unread, known), present)) == Unreadable
  {
    AlikeFor(group, record, present, unread, known);
    forall i ensures i !in ShardsRead(record, present, unread, known) {
      forall s | s in record.shards && s.device in known && s.device !in unread ensures !present[s.device] {
        assert s.device in Devices(record) && HasCopy(group, s.device, record.revision);
      }
    }
    assert ShardsRead(record, present, unread, known) == {};
  }

  /** Inventory, scrub and read agree on every group: inconsistent in the one is
      no count in the other; otherwise both judge the same record alike. */
  method JudgeBoth(group: seq<Located>, present: map<nat, bool>, unread: set<nat>, known: set<nat>)
    returns (state: ObjectState, shards: Option<ShardCount>, ghost record: Record)
    requires Group(group, known) && forall c <- group :: c.device in present
    ensures state == Inconsistent <==> shards.None?
    ensures shards.Some? ==>
              && GroupAgrees(group, record, unread, known)
              && JudgedAlike(group, record, present, unread, known, state, shards.value)
  {
    var classified, out;
    state, classified, out := ClassifyGroup(group, present, unread, known);
    var findings;
    findings, shards, record := CheckGroup(group, present, unread, known, {});
    if shards.Some? {
      GroupAgreesOnce(group, classified, record, unread, known);
      AlikeFor(group, record, present, unread, known);
    }
  }
}
