/** Metadata records (crates/djbod-core/src/record.rs) and which of the copies
    found a reader trusts (crates/djbod-node/src/coordinator.rs:425-568, 628-723). */
module Records {
  import opened Prelude
  import opened Erasure

  datatype Location = Location(index: nat, device: nat)

  /** The fields `same_body` compares. */
  datatype Body = Body(version: nat, key: seq<Byte>, keyHash: nat, size: nat, checksum: nat, k: nat, m: nat, blockSize: nat)

  /** `rest` stands for the fields no check looks into: bucket, creation time
      and user metadata. */
  datatype Record = Record(
    body: Body, system: string, formatVersion: nat, contentType: Option<seq<Byte>>, rest: nat,
    shards: seq<Location>, revision: nat)
  {
    function Total(): nat { body.k + body.m }
  }

  predicate SameBody(a: Record, b: Record) {
    a.body == b.body
  }

  // ------------------------------------------------------------- validation

  const SYSTEM_NAME := "distributed-jbod"
  const RECORD_FORMAT_VERSION := 1
  const MAX_CONTENT_TYPE_BYTES := 1024

  /** Exactly one entry for every shard index, each on its own device. */
  ghost predicate PlacementOk(shards: seq<Location>, total: nat) {
    && |shards| == total
    && (forall n :: 0 <= n < |shards| ==> shards[n].index < total)
    && (forall i, j :: 0 <= i < j < |shards| ==> shards[i].index != shards[j].index)
    && (forall i, j :: 0 <= i < j < |shards| ==> shards[i].device != shards[j].device)
  }

  ghost predicate ValidRecord(r: Record, hash: seq<Byte> -> nat) {
    && r.system == SYSTEM_NAME && r.formatVersion == RECORD_FORMAT_VERSION
    && (r.contentType.Some? ==> |r.contentType.value| <= MAX_CONTENT_TYPE_BYTES)
    && hash(r.body.key) == r.body.keyHash && Scheme(r.body.k, r.body.m).Valid()
    && r.body.blockSize > 0 && r.body.blockSize % 4096 == 0
    && PlacementOk(r.shards, r.Total())
  }

  datatype RecordError =
    | WrongSystem | ContentTypeTooLong | UnsupportedFormatVersion | KeyHashMismatch | InvalidScheme(error: SchemeError)
    | BadBlockSize | WrongShardCount | MissingShardIndex(index: nat) | DuplicateShardIndex(index: nat)
    | DuplicateDevice(device: nat)

  /** Every index below `total` that some entry of the right length names. */
  lemma AllIndicesNamed(shards: seq<Location>, total: nat, index: nat)
    requires PlacementOk(shards, total) && index < total
    ensures exists n :: 0 <= n < |shards| && shards[n].index == index
  {
    var indices := seq(|shards|, n requires 0 <= n < |shards| => shards[n].index);
    DistinctCount(indices);
    BelowMembers(total);
    assert Elements(indices) <= Below(total);
    FullSubset(Elements(indices), Below(total));
    assert index in Elements(indices);
    var n :| 0 <= n < |indices| && indices[n] == index;
    assert shards[n].index == index;
  }

  lemma FullSubset<T>(a: set<T>, b: set<T>)
    requires a <= b && |a| == |b|
    ensures a == b
  {
    assert b == a + (b - a);
    assert |b - a| == 0;
  }

  /** The shard loop of `validate`; its closing look for an index never seen
      cannot find one. */
  method ValidatePlacement(shards: seq<Location>, total: nat) returns (r: Result<(), RecordError>)
    requires |shards| == total
    ensures r.Ok? <==> PlacementOk(shards, total)
  {
    var seenIndex: seq<bool> := seq(total, _ => false);
    var seenDevices: seq<nat> := [];
    for n := 0 to |shards|
      invariant |seenIndex| == total && |seenDevices| == n
      invariant forall i :: 0 <= i < n ==> shards[i].index < total && seenDevices[i] == shards[i].device
      invariant forall x :: 0 <= x < total ==> (seenIndex[x] <==> exists i :: 0 <= i < n && shards[i].index == x)
      invariant forall i, j :: 0 <= i < j < n ==> shards[i].index != shards[j].index
      invariant forall i, j :: 0 <= i < j < n ==> shards[i].device != shards[j].device
    {
      var shard := shards[n];
      if shard.index >= total {
        return Err(MissingShardIndex(shard.index));
      }
      if seenIndex[shard.index] {
        return Err(DuplicateShardIndex(shard.index));
      }
      seenIndex := seenIndex[shard.index := true];
      if shard.device in seenDevices {
        return Err(DuplicateDevice(shard.device));
      }
      seenDevices := seenDevices + [shard.device];
    }
    for index := 0 to total
    {
      AllIndicesNamed(shards, total, index);
      assert seenIndex[index];
    }
    return Ok(());
  }

  /** `validate`: accepts exactly the valid records. */
  method Validate(record: Record, hash: seq<Byte> -> nat) returns (r: Result<(), RecordError>)
    ensures r.Ok? <==> ValidRecord(record, hash)
  {
    if record.system != SYSTEM_NAME {
      return Err(WrongSystem);
    }
    if record.contentType.Some? && |record.contentType.value| > MAX_CONTENT_TYPE_BYTES {
      return Err(ContentTypeTooLong);
    }
    if record.formatVersion != RECORD_FORMAT_VERSION {
      return Err(UnsupportedFormatVersion);
    }
    if hash(record.body.key) != record.body.keyHash {
      return Err(KeyHashMismatch);
    }
    var scheme := NewScheme(record.body.k, record.body.m);
    if scheme.Err? {
      return Err(InvalidScheme(scheme.error));
    }
    if record.body.blockSize == 0 || record.body.blockSize % 4096 != 0 {
      return Err(BadBlockSize);
    }
    if |record.shards| != record.Total() {
      return Err(WrongShardCount);
    }
    r := ValidatePlacement(record.shards, record.Total());
  }

  // ---------------------------------------------------------------- lookups

  function Devices(r: Record): set<nat> {
    set s | s in r.shards :: s.device
  }

  /** `device_for`. */
  function DeviceFor(r: Record, index: nat): (d: Option<nat>)
    ensures d.Some? ==> Location(index, d.value) in r.shards
    ensures d.None? ==> forall s <- r.shards :: s.index != index
  {
    FirstAt(r.shards, index)
  }

  function FirstAt(shards: seq<Location>, index: nat): (d: Option<nat>)
    ensures d.Some? ==> Location(index, d.value) in shards
    ensures d.None? ==> forall s <- shards :: s.index != index
  {
    if shards == [] then None
    else if shards[0].index == index then Some(shards[0].device)
    else FirstAt(shards[1..], index)
  }

  /** `shard_on`. */
  function ShardOn(r: Record, device: nat): (i: Option<nat>)
    ensures i.Some? <==> device in Devices(r)
    ensures i.Some? ==> Location(i.value, device) in r.shards
  {
    FirstOn(r.shards, device)
  }

  function FirstOn(shards: seq<Location>, device: nat): (i: Option<nat>)
    ensures i.Some? <==> exists s :: s in shards && s.device == device
    ensures i.Some? ==> Location(i.value, device) in shards
  {
    if shards == [] then None
    else if shards[0].device == device then
      assert shards[0] in shards;
      Some(shards[0].index)
    else
      var i := FirstOn(shards[1..], device);
      assert shards == [shards[0]] + shards[1..];
      i
  }

  /** On a valid placement the two lookups are inverse. */
  lemma ListedOnce(r: Record, s: Location, t: Location)
    requires PlacementOk(r.shards, r.Total()) && s in r.shards && t in r.shards
    requires s.index == t.index || s.device == t.device
    ensures s == t
  {
    var n :| 0 <= n < |r.shards| && r.shards[n] == s;
    var a :| 0 <= a < |r.shards| && r.shards[a] == t;
  }

  lemma LookupsInverse(r: Record, s: Location)
    requires PlacementOk(r.shards, r.Total()) && s in r.shards
    ensures DeviceFor(r, s.index) == Some(s.device) && ShardOn(r, s.device) == Some(s.index)
  {
    ListedOnce(r, s, Location(s.index, DeviceFor(r, s.index).value));
    ListedOnce(r, s, Location(ShardOn(r, s.device).value, s.device));
  }

  lemma DeviceCount(r: Record)
    requires PlacementOk(r.shards, r.Total())
    ensures |Devices(r)| == r.Total()
  {
    var devices := seq(|r.shards|, n requires 0 <= n < |r.shards| => r.shards[n].device);
    DistinctCount(devices);
    forall d ensures d in Devices(r) <==> d in Elements(devices) {
      if d in Devices(r) {
        var s :| s in r.shards && s.device == d;
        var n :| 0 <= n < |r.shards| && r.shards[n] == s;
        assert devices[n] == d;
      }
    }
    assert Devices(r) == Elements(devices);
  }

  // ------------------------------------------------------------------ trust

  /** A record copy and the device it was found on. */
  datatype Located = Located(device: nat, record: Record)

  datatype CopyFault = Missing | Stale(revision: nat)

  datatype MissingCopy = MissingCopy(device: nat, fault: CopyFault)

  datatype Trusted = Trusted(record: Record, missing: seq<MissingCopy>, vouching: nat)

  datatype TrustError = KeyMismatch | RecordsInconsistent | NotFound | Outage | TooFewCopies

  ghost predicate HighestRevision(copies: seq<Located>, revision: nat) {
    && (exists c :: c in copies && c.record.revision == revision)
    && (forall c <- copies :: c.record.revision <= revision)
  }

  /** The copies of one version agree on `record`: all name the key, and those
      at the highest revision are this record, each on a device it lists. */
  ghost predicate AgreeOn(copies: seq<Located>, key: seq<Byte>, record: Record) {
    && (forall c <- copies :: c.record.body.key == key)
    && HighestRevision(copies, record.revision)
    && (forall c <- copies :: c.record.revision == record.revision ==> c.record == record && c.device in Devices(record))
  }

  predicate Vouches(c: Located, record: Record) {
    c.record.revision == record.revision || SameBody(record, c.record)
  }

  function VouchingCount(copies: seq<Located>, record: Record): nat {
    if copies == [] then 0
    else VouchingCount(copies[..|copies| - 1], record) + (if Vouches(copies[|copies| - 1], record) then 1 else 0)
  }

  /** The count is of exactly the copies of the record's own body, whatever their
      revision: one of another body below the current revision never vouches. */
  lemma VouchersExactly(copies: seq<Located>, key: seq<Byte>, record: Record)
    requires AgreeOn(copies, key, record)
    ensures VouchingCount(copies, record) == |SameBodyAt(copies, record)|
  {
    VouchersAt(copies, record);
    assert SameBodyAt(copies, record) == VouchingAt(copies, record) by {
      forall i: nat | i < |copies| ensures Vouches(copies[i], record) <==> SameBody(copies[i].record, record) {
        assert copies[i] in copies;
      }
    }
  }

  ghost function SameBodyAt(copies: seq<Located>, record: Record): set<nat> {
    set i: nat | i < |copies| && SameBody(copies[i].record, record)
  }

  ghost function VouchingAt(copies: seq<Located>, record: Record): set<nat> {
    set i: nat | i < |copies| && Vouches(copies[i], record)
  }

  lemma {:induction false} VouchersAt(copies: seq<Located>, record: Record)
    ensures VouchingCount(copies, record) == |VouchingAt(copies, record)|
  {
    if copies == [] {
      assert VouchingAt(copies, record) == {};
    } else {
      var before, last := copies[..|copies| - 1], |copies| - 1;
      VouchersAt(before, record);
      assert VouchingAt(copies, record) == VouchingAt(before, record) + if Vouches(copies[last], record) then {last} else {};
    }
  }

  /** The listed devices whose copy of the record did not arrive, and whether
      an older one did. */
  ghost predicate MissingAre(copies: seq<Located>, record: Record, missing: seq<MissingCopy>) {
    && (forall d :: Named(missing, d) <==> d in Devices(record) && !HasCopy(copies, d, record.revision))
    && (forall m <- missing :: match m.fault
          case Missing => !Holds(copies, m.device)
          case Stale(revision) => HighestRevision(On(copies, m.device), revision))
  }

  /** The devices named, in order. */
  function MissingNames(missing: seq<MissingCopy>): seq<nat> {
    seq(|missing|, n requires 0 <= n < |missing| => missing[n].device)
  }

  function ListedDevices(shards: seq<Location>): seq<nat> {
    seq(|shards|, n requires 0 <= n < |shards| => shards[n].device)
  }

  ghost predicate Named(missing: seq<MissingCopy>, device: nat) {
    exists m :: m in missing && m.device == device
  }

  ghost predicate HasCopy(copies: seq<Located>, device: nat, revision: nat) {
    exists c :: c in copies && c.device == device && c.record.revision == revision
  }

  ghost predicate Holds(copies: seq<Located>, device: nat) {
    exists c :: c in copies && c.device == device
  }

  /** The copies found on one device. */
  function On(copies: seq<Located>, device: nat): (r: seq<Located>)
    ensures forall c :: c in r <==> c in copies && c.device == device
  {
    if copies == [] then []
    else
      var before := On(copies[..|copies| - 1], device);
      var last := copies[|copies| - 1];
      assert copies == copies[..|copies| - 1] + [last];
      if last.device == device then before + [last] else before
  }

  method MaxRevision(copies: seq<Located>) returns (revision: nat)
    requires copies != []
    ensures HighestRevision(copies, revision)
  {
    revision := copies[0].record.revision;
    assert copies[0] in copies;
    for n := 1 to |copies|
      invariant exists c :: c in copies && c.record.revision == revision
      invariant forall j :: 0 <= j < n ==> copies[j].record.revision <= revision
    {
      if copies[n].record.revision > revision {
        revision := copies[n].record.revision;
        assert copies[n] in copies;
      }
    }
  }

  /** The copies at the highest revision, checked against the first of them. */
  method CurrentRecord(copies: seq<Located>, key: seq<Byte>, revision: nat) returns (r: Result<Record, TrustError>)
    requires HighestRevision(copies, revision) && forall c <- copies :: c.record.body.key == key
    ensures r.Ok? <==> exists record :: AgreeOn(copies, key, record)
    ensures r.Ok? ==> AgreeOn(copies, key, r.value) && r.value.revision == revision
    ensures r.Err? ==> r.error == RecordsInconsistent
  {
    var first: Option<Record> := None;
    for n := 0 to |copies|
      invariant first.None? ==> forall j :: 0 <= j < n ==> copies[j].record.revision != revision
      invariant first.Some? ==> first.value.revision == revision && exists c :: c in copies && c.record == first.value
      invariant first.Some? ==> forall j :: 0 <= j < n && copies[j].record.revision == revision ==>
                  copies[j].record == first.value && copies[j].device in Devices(first.value)
    {
      var copy := copies[n];
      assert copy in copies;
      if copy.record.revision == revision {
        if first.None? {
          first := Some(copy.record);
        }
        if copy.record != first.value || ShardOn(first.value, copy.device).None? {
          return Err(RecordsInconsistent);
        }
      }
    }
    assert first.Some?;
    assert AgreeOn(copies, key, first.value);
    return Ok(first.value);
  }

  method FindMissing(copies: seq<Located>, record: Record) returns (missing: seq<MissingCopy>)
    ensures MissingAre(copies, record, missing)
    ensures Subsequence(MissingNames(missing), ListedDevices(record.shards))
  {
    missing := [];
    for n := 0 to |record.shards|
      invariant Subsequence(MissingNames(missing), ListedDevices(record.shards[..n]))
      invariant forall d :: Named(missing, d) <==>
                  (exists j :: 0 <= j < n && record.shards[j].device == d) && !HasCopy(copies, d, record.revision)
      invariant forall m <- missing :: match m.fault
                  case Missing => !Holds(copies, m.device)
                  case Stale(revision) => HighestRevision(On(copies, m.device), revision)
    {
      var device := record.shards[n].device;
      var here := On(copies, device);
      assert ListedDevices(record.shards[..n + 1]) == ListedDevices(record.shards[..n]) + [device];
      SubsequenceAppend(MissingNames(missing), ListedDevices(record.shards[..n]), [device]);
      if !(exists c :: c in here && c.record.revision == record.revision) {
        var fault := Missing;
        if here != [] {
          var revision := MaxRevision(here);
          fault := Stale(revision);
        } else {
          assert !Holds(copies, device);
        }
        ghost var before := missing;
        missing := missing + [MissingCopy(device, fault)];
        assert MissingNames(missing) == MissingNames(before) + [device];
        forall d ensures Named(missing, d) <==> Named(before, d) || d == device {
          assert MissingCopy(device, fault) in missing;
        }
      }
    }
    assert record.shards[..|record.shards|] == record.shards;
  }

  method CountVouching(copies: seq<Located>, record: Record) returns (vouching: nat)
    ensures vouching == VouchingCount(copies, record)
  {
    vouching := 0;
    for n := 0 to |copies|
      invariant vouching == VouchingCount(copies[..n], record)
    {
      assert copies[..n + 1][..n] == copies[..n];
      if Vouches(copies[n], record) {
        vouching := vouching + 1;
      }
    }
    assert copies[..|copies|] == copies;
  }

  /** What trusting the copies of one version comes to. */
  ghost predicate TrustedFrom(copies: seq<Located>, key: seq<Byte>, t: Trusted) {
    && AgreeOn(copies, key, t.record) && MissingAre(copies, t.record, t.missing)
    && t.vouching == VouchingCount(copies, t.record)
  }

  /** The body of the loop of `trusted_versions`, for one version's copies. */
  method TrustVersion(copies: seq<Located>, key: seq<Byte>) returns (r: Result<Trusted, TrustError>)
    requires copies != []
    ensures r.Ok? <==> exists record :: AgreeOn(copies, key, record)
    ensures r.Ok? ==> TrustedFrom(copies, key, r.value) && r.value.vouching == |SameBodyAt(copies, r.value.record)|
    ensures r.Ok? ==> Subsequence(MissingNames(r.value.missing), ListedDevices(r.value.record.shards))
    ensures r.Err? ==> r.error == KeyMismatch || r.error == RecordsInconsistent
    ensures r.Err? ==> (r.error == KeyMismatch <==> exists c :: c in copies && c.record.body.key != key)
  {
    for n := 0 to |copies|
      invariant forall j :: 0 <= j < n ==> copies[j].record.body.key == key
    {
      if copies[n].record.body.key != key {
        assert copies[n] in copies;
        return Err(KeyMismatch);
      }
    }
    var revision := MaxRevision(copies);
    var current := CurrentRecord(copies, key, revision);
    if current.Err? {
      return Err(current.error);
    }
    var missing := FindMissing(copies, current.value);
    var vouching := CountVouching(copies, current.value);
    VouchersExactly(copies, key, current.value);
    return Ok(Trusted(current.value, missing, vouching));
  }

  /** At most one record can be agreed on. */
  lemma AgreementUnique(copies: seq<Located>, key: seq<Byte>, a: Record, b: Record)
    requires AgreeOn(copies, key, a) && AgreeOn(copies, key, b)
    ensures a == b
  {
    var c :| c in copies && c.record.revision == a.revision;
    var d :| d in copies && d.record.revision == b.revision;
  }

  // -------------------------------------------------------------- for repair

  /** The copies found agree on `record`, enough of them vouch for it, and every
      older one is of the same body. */
  ghost predicate Repairable(located: seq<Located>, key: seq<Byte>, record: Record) {
    && AgreeOn(located, key, record) && VouchingCount(located, record) >= record.body.k
    && forall c <- located :: c.record.revision < record.revision ==> SameBody(c.record, record)
  }

  lemma OnlyThisRecord(located: seq<Located>, key: seq<Byte>, record: Record)
    requires AgreeOn(located, key, record)
    ensures forall other :: Repairable(located, key, other) ==> other == record
  {
    forall other | Repairable(located, key, other) ensures other == record {
      AgreementUnique(located, key, other, record);
    }
  }

  datatype Refusal = NoCopies | Distrusted(error: TrustError) | DifferentBody

  /** What each refusal says of the copies. */
  ghost predicate RefusedFor(located: seq<Located>, key: seq<Byte>, why: Refusal) {
    match why
    case NoCopies => located == []
    case Distrusted(KeyMismatch) => exists c :: c in located && c.record.body.key != key
    case Distrusted(RecordsInconsistent) =>
      (forall c <- located :: c.record.body.key == key) && forall record :: !AgreeOn(located, key, record)
    case Distrusted(TooFewCopies) =>
      exists record :: AgreeOn(located, key, record) && |SameBodyAt(located, record)| < record.body.k
    case Distrusted(_) => false
    case DifferentBody =>
      exists record, c :: && AgreeOn(located, key, record) && c in located
                          && c.record.revision < record.revision && !SameBody(c.record, record)
  }

  /** `repairable_record`, from the copies of the newest version: the record to
      complete towards, or a refusal. */
  method RepairableRecord(located: seq<Located>, key: seq<Byte>) returns (r: Result<Trusted, Refusal>)
    ensures r.Ok? ==> Repairable(located, key, r.value.record) && TrustedFrom(located, key, r.value)
    ensures r.Err? ==> RefusedFor(located, key, r.error) && forall record :: !Repairable(located, key, record)
  {
    if located == [] {
      return Err(NoCopies);
    }
    var trusted := TrustVersion(located, key);
    if trusted.Err? {
      return Err(Distrusted(trusted.error));
    }
    var record := trusted.value.record;
    OnlyThisRecord(located, key, record);
    for n := 0 to |located|
      invariant forall j :: 0 <= j < n && located[j].record.revision < record.revision ==> SameBody(located[j].record, record)
    {
      if located[n].record.revision < record.revision && !SameBody(located[n].record, record) {
        assert located[n] in located;
        return Err(DifferentBody);
      }
    }
    if trusted.value.vouching < record.body.k {
      return Err(Distrusted(TooFewCopies));
    }
    return Ok(trusted.value);
  }

  // ----------------------------------------------------------- all versions

  function OfVersion(located: seq<Located>, version: nat): (r: seq<Located>)
    ensures forall c :: c in r <==> c in located && c.record.body.version == version
  {
    if located == [] then []
    else
      var before := OfVersion(located[..|located| - 1], version);
      var last := located[|located| - 1];
      assert located == located[..|located| - 1] + [last];
      if last.record.body.version == version then before + [last] else before
  }

  ghost function Versions(located: seq<Located>): set<nat> {
    set c | c in located :: c.record.body.version
  }

  lemma NoneOfVersion(located: seq<Located>, version: nat)
    ensures OfVersion(located, version) != [] ==> version in Versions(located)
  {
    var copies := OfVersion(located, version);
    if copies != [] {
      assert copies[0] in copies && copies[0] in located;
    }
  }

  /** The copies grouped by version, each group in the order found. */
  method GroupByVersion(located: seq<Located>) returns (groups: map<nat, seq<Located>>)
    ensures groups.Keys == Versions(located)
    ensures forall v <- groups.Keys :: groups[v] == OfVersion(located, v) && groups[v] != []
  {
    groups := map[];
    for n := 0 to |located|
      invariant groups.Keys == Versions(located[..n])
      invariant forall v <- groups.Keys :: groups[v] == OfVersion(located[..n], v) && groups[v] != []
    {
      var item := located[n];
      var version := item.record.body.version;
      assert located[..n + 1] == located[..n] + [item] && located[..n + 1][..n] == located[..n];
      assert Versions(located[..n + 1]) == Versions(located[..n]) + {version};
      if version !in groups {
        NoneOfVersion(located[..n], version);
      }
      groups := groups[version := (if version in groups then groups[version] else []) + [item]];
    }
    assert located[..|located|] == located;
  }

  method Largest(s: set<nat>) returns (v: nat)
    requires s != {}
    ensures v in s && forall w <- s :: w <= v
  {
    v :| v in s;
    var rest := s - {v};
    while rest != {}
      invariant rest <= s && v in s && forall w :: w in s && w !in rest ==> w <= v
      decreases |rest|
    {
      var w :| w in rest;
      v := if w > v then w else v;
      rest := rest - {w};
    }
  }

  /** The versions, newest first, each once. */
  method NewestFirst(versions: set<nat>) returns (order: seq<nat>)
    ensures Elements(order) == versions && forall i, j :: 0 <= i < j < |order| ==> order[i] > order[j]
  {
    order := [];
    var remaining := versions;
    while remaining != {}
      invariant remaining <= versions && forall v :: v in order <==> v in versions && v !in remaining
      invariant forall i, j :: 0 <= i < j < |order| ==> order[i] > order[j]
      invariant forall i :: 0 <= i < |order| ==> forall w <- remaining :: w < order[i]
      decreases |remaining|
    {
      var version := Largest(remaining);
      order := order + [version];
      remaining := remaining - {version};
    }
  }

  ghost predicate Agreed(located: seq<Located>, key: seq<Byte>, version: nat) {
    exists record :: AgreeOn(OfVersion(located, version), key, record)
  }

  /** Newest version first, each trusted from its own copies. */
  ghost predicate AllTrusted(located: seq<Located>, key: seq<Byte>, order: seq<nat>, versions: seq<Trusted>) {
    && |versions| == |order| && Elements(order) == Versions(located)
    && (forall i :: 0 <= i < |versions| ==>
          versions[i].record.body.version == order[i] && TrustedFrom(OfVersion(located, order[i]), key, versions[i]))
    && (forall i, j :: 0 <= i < j < |order| ==> order[i] > order[j])
  }

  /** `trusted_versions`: every version there is a copy of, newest first, or
      the refusal if the copies of any one of them do not agree. */
  method TrustedVersions(located: seq<Located>, key: seq<Byte>)
    returns (r: Result<seq<Trusted>, TrustError>, ghost order: seq<nat>)
    ensures r.Ok? <==> forall v <- Versions(located) :: Agreed(located, key, v)
    ensures r.Ok? ==> AllTrusted(located, key, order, r.value)
    ensures r.Err? ==> r.error == KeyMismatch || r.error == RecordsInconsistent
  {
    var groups := GroupByVersion(located);
    var newest := NewestFirst(groups.Keys);
    order := newest;
    var versions: seq<Trusted> := [];
    for n := 0 to |newest|
      invariant |versions| == n
      invariant forall i :: 0 <= i < n ==>
                  && versions[i].record.body.version == newest[i] && Agreed(located, key, newest[i])
                  && TrustedFrom(OfVersion(located, newest[i]), key, versions[i])
    {
      assert newest[n] in Elements(newest);
      var trusted := TrustVersion(groups[newest[n]], key);
      if trusted.Err? {
        assert !Agreed(located, key, newest[n]);
        return Err(trusted.error), order;
      }
      VersionOfGroup(located, key, newest[n], trusted.value);
      versions := versions + [trusted.value];
    }
    forall v | v in Versions(located) ensures Agreed(located, key, v) {
      assert v in Elements(newest);
    }
    return Ok(versions), order;
  }

  lemma VersionOfGroup(located: seq<Located>, key: seq<Byte>, version: nat, t: Trusted)
    requires TrustedFrom(OfVersion(located, version), key, t)
    ensures t.record.body.version == version && Agreed(located, key, version)
  {
    var c :| c in OfVersion(located, version) && c.record.revision == t.record.revision;
  }

  /** `versions_of_excluding`: also refuses a version with a copy missing from
      a device that was read. */
  method VersionsExcluding(located: seq<Located>, key: seq<Byte>, unread: set<nat>)
    returns (r: Result<seq<Record>, TrustError>)
    ensures r.Ok? ==> forall v <- Versions(located) :: Agreed(located, key, v)
    ensures r.Ok? ==> forall i :: 0 <= i < |r.value| ==> Complete(located, key, r.value[i], unread)
    ensures r.Ok? ==> forall v :: v in Versions(located) <==> exists i :: 0 <= i < |r.value| && r.value[i].body.version == v
    ensures r.Ok? ==> forall i, j :: 0 <= i < j < |r.value| ==> r.value[i].body.version > r.value[j].body.version
    ensures r.Err? ==> exists v <- Versions(located) :: !exists record :: Complete(located, key, record, unread) && record.body.version == v
  {
    var trusted, order := TrustedVersions(located, key);
    if trusted.Err? {
      ghost var v :| v in Versions(located) && !Agreed(located, key, v);
      return Err(trusted.error);
    }
    var records: seq<Record> := [];
    for n := 0 to |trusted.value|
      invariant |records| == n
      invariant forall j :: 0 <= j < n ==> records[j] == trusted.value[j].record && Complete(located, key, records[j], unread)
    {
      var t := trusted.value[n];
      var allUnread := AllUnread(t.missing, unread);
      NotComplete(located, key, t, unread);
      if !allUnread {
        return Err(RecordsInconsistent);
      }
      records := records + [t.record];
    }
    VersionsListed(order, records);
    return Ok(records);
  }

  method AllUnread(missing: seq<MissingCopy>, unread: set<nat>) returns (all: bool)
    ensures all <==> forall i :: 0 <= i < |missing| ==> missing[i].device in unread
  {
    all := true;
    for j := 0 to |missing|
      invariant all <==> forall i :: 0 <= i < j ==> missing[i].device in unread
    {
      all := all && missing[j].device in unread;
    }
  }

  lemma VersionsListed(order: seq<nat>, records: seq<Record>)
    requires |records| == |order| && forall i :: 0 <= i < |records| ==> records[i].body.version == order[i]
    ensures forall v :: v in Elements(order) <==> exists i :: 0 <= i < |records| && records[i].body.version == v
  {
    forall v ensures v in Elements(order) <==> exists i :: 0 <= i < |records| && records[i].body.version == v {
      if v in Elements(order) {
        var i :| 0 <= i < |order| && order[i] == v;
        assert records[i].body.version == v;
      }
      if i :| 0 <= i < |records| && records[i].body.version == v {
        assert order[i] in Elements(order);
      }
    }
  }

  /** The copies found agree on `record`, and every listed device has its copy
      or was not read. */
  ghost predicate Complete(located: seq<Located>, key: seq<Byte>, record: Record, unread: set<nat>) {
    && AgreeOn(OfVersion(located, record.body.version), key, record)
    && forall d <- Devices(record) :: d in unread || HasCopy(OfVersion(located, record.body.version), d, record.revision)
  }

  lemma NotComplete(located: seq<Located>, key: seq<Byte>, t: Trusted, unread: set<nat>)
    requires TrustedFrom(OfVersion(located, t.record.body.version), key, t)
    ensures (forall i :: 0 <= i < |t.missing| ==> t.missing[i].device in unread) <==> Complete(located, key, t.record, unread)
    ensures t.record.body.version in Versions(located)
    ensures forall record :: Complete(located, key, record, unread) && record.body.version == t.record.body.version ==>
              record == t.record
  {
    var copies := OfVersion(located, t.record.body.version);
    var c :| c in copies && c.record.revision == t.record.revision;
    if forall i :: 0 <= i < |t.missing| ==> t.missing[i].device in unread {
      forall d | d in Devices(t.record) && !HasCopy(copies, d, t.record.revision) ensures d in unread {
        assert Named(t.missing, d);
        var m :| m in t.missing && m.device == d;
        var i :| 0 <= i < |t.missing| && t.missing[i] == m;
      }
    }
    if Complete(located, key, t.record, unread) {
      forall i | 0 <= i < |t.missing| ensures t.missing[i].device in unread {
        assert t.missing[i] in t.missing;
        assert Named(t.missing, t.missing[i].device);
      }
    }
    forall record | Complete(located, key, record, unread) && record.body.version == t.record.body.version
      ensures record == t.record
    {
      AgreementUnique(copies, key, record, t.record);
    }
  }

  /** The record that the copies of the newest version agree on. */
  ghost predicate NewestAgreed(located: seq<Located>, key: seq<Byte>, record: Record) {
    && record.body.version in Versions(located) && (forall v <- Versions(located) :: v <= record.body.version)
    && AgreeOn(OfVersion(located, record.body.version), key, record)
  }

  ghost predicate Vouched(located: seq<Located>, record: Record) {
    VouchingCount(OfVersion(located, record.body.version), record) >= record.body.k
  }

  /** `newest_readable_version`: succeeds exactly when the copies of every
      version agree and at least k vouch for the newest. With no copy in view
      the key is not there, unless enough devices to hold a whole version were
      out. */
  method NewestReadable(located: seq<Located>, key: seq<Byte>, out: nat, total: nat) returns (r: Result<Trusted, TrustError>)
    ensures located == [] ==> r == Err(if out >= total then Outage else NotFound)
    ensures r.Ok? ==>
              && NewestAgreed(located, key, r.value.record)
              && TrustedFrom(OfVersion(located, r.value.record.body.version), key, r.value)
    ensures r.Ok? <==>
              && (forall v <- Versions(located) :: Agreed(located, key, v))
              && exists record :: NewestAgreed(located, key, record) && Vouched(located, record)
    ensures r == Err(TooFewCopies) <==>
              && (forall v <- Versions(located) :: Agreed(located, key, v))
              && exists record :: NewestAgreed(located, key, record) && !Vouched(located, record)
  {
    var versions, order := TrustedVersions(located, key);
    if located == [] {
      return Err(if out >= total then Outage else NotFound);
    }
    if versions.Err? {
      return Err(versions.error);
    }
    assert located[0].record.body.version in Elements(order);
    var newest := versions.value[0];
    assert order[0] in Elements(order);
    assert NewestAgreed(located, key, newest.record);
    OneNewest(located, key, newest.record);
    if newest.vouching < newest.record.body.k {
      return Err(TooFewCopies);
    }
    return Ok(newest);
  }

  lemma OneNewest(located: seq<Located>, key: seq<Byte>, record: Record)
    requires NewestAgreed(located, key, record)
    ensures forall other :: NewestAgreed(located, key, other) ==> other == record
  {
    forall other | NewestAgreed(located, key, other) ensures other == record {
      AgreementUnique(OfVersion(located, record.body.version), key, other, record);
    }
  }
}
