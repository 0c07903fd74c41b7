/** Replacing an object: the new version is written everywhere before anything
    of the old one is removed (crates/djbod-node/src/coordinator.rs:1689-1789,
    941-968, 2108-2132, crates/djbod-node/src/local_ops.rs:1019-1043). Every
    request to a device may fail, with or without its effect, and the
    coordinator may die at any of them. */
module PutDurability {
  import opened Records

  /** What a device holds under the key: record copies by version, shard files
      by version and index. */
  datatype Files = Files(records: map<nat, Record>, shards: set<(nat, nat)>)

  type Disks = map<nat, Files>

  function On(disks: Disks, d: nat): Files {
    if d in disks then disks[d] else Files(map[], {})
  }

  function WithShard(disks: Disks, d: nat, version: nat, index: nat): Disks {
    disks[d := Files(On(disks, d).records, On(disks, d).shards + {(version, index)})]
  }

  function WithCopy(disks: Disks, d: nat, r: Record): Disks {
    disks[d := Files(On(disks, d).records[r.body.version := r], On(disks, d).shards)]
  }

  function WithoutCopy(disks: Disks, d: nat, version: nat): Disks {
    disks[d := Files(On(disks, d).records - {version}, On(disks, d).shards)]
  }

  function WithoutShards(disks: Disks, d: nat, version: nat): Disks {
    disks[d := Files(On(disks, d).records, set s | s in On(disks, d).shards && s.0 != version)]
  }

  // ------------------------------------------------------------ what is safe

  /** The two agree on every version but this one. */
  ghost predicate SameBut(a: Files, b: Files, version: nat) {
    && (forall v :: v != version ==> (v in a.records <==> v in b.records))
    && (forall v :: v != version && v in a.records && v in b.records ==> a.records[v] == b.records[v])
    && (forall s: (nat, nat) :: s.0 != version ==> (s in a.shards <==> s in b.shards))
  }

  /** Of every version but this one, all is as it was. */
  ghost predicate OthersUntouched(was: Disks, disks: Disks, version: nat) {
    forall d :: SameBut(On(was, d), On(disks, d), version)
  }

  ghost predicate ShardsDurable(disks: Disks, r: Record, n: nat) {
    r.body.size > 0 ==> forall i :: 0 <= i < n && i < |r.shards| ==>
      (r.body.version, r.shards[i].index) in On(disks, r.shards[i].device).shards
  }

  ghost predicate CopiesDurable(disks: Disks, r: Record, n: nat) {
    forall i :: 0 <= i < n && i < |r.shards| ==>
      r.body.version in On(disks, r.shards[i].device).records && On(disks, r.shards[i].device).records[r.body.version] == r
  }

  /** The new version's shards and records are on all its devices. */
  ghost predicate Durable(disks: Disks, r: Record) {
    ShardsDurable(disks, r, |r.shards|) && CopiesDurable(disks, r, |r.shards|)
  }

  /** Either nothing of the previous versions was touched, or the new one is
      there in full. */
  ghost predicate Safe(was: Disks, disks: Disks, r: Record) {
    OthersUntouched(was, disks, r.body.version) || Durable(disks, r)
  }

  lemma SameAfter(a: Files, b: Files, r: Record, i: nat)
    requires SameBut(a, b, r.body.version)
    ensures SameBut(a, Files(b.records, b.shards + {(r.body.version, i)}), r.body.version)
    ensures SameBut(a, Files(b.records[r.body.version := r], b.shards), r.body.version)
    ensures SameBut(a, Files(b.records - {r.body.version}, b.shards), r.body.version)
    ensures SameBut(a, Files(b.records, set s | s in b.shards && s.0 != r.body.version), r.body.version)
  {
  }

  lemma UntouchedBy(was: Disks, disks: Disks, next: Disks, r: Record, d: nat, i: nat)
    requires OthersUntouched(was, disks, r.body.version)
    requires || next == WithShard(disks, d, r.body.version, i) || next == WithCopy(disks, d, r)
             || next == WithoutCopy(disks, d, r.body.version) || next == WithoutShards(disks, d, r.body.version)
    ensures OthersUntouched(was, next, r.body.version)
  {
    SameAfter(On(was, d), On(disks, d), r, i);
    forall x ensures SameBut(On(was, x), On(next, x), r.body.version) {
      if x != d {
        assert On(next, x) == On(disks, x);
      }
    }
  }

  lemma OneMoreShard(disks: Disks, r: Record, n: nat)
    requires n < |r.shards| && ShardsDurable(disks, r, n)
    ensures ShardsDurable(WithShard(disks, r.shards[n].device, r.body.version, r.shards[n].index), r, n + 1)
  {
  }

  lemma OneMoreCopy(disks: Disks, r: Record, n: nat)
    requires n < |r.shards| && CopiesDurable(disks, r, n) && ShardsDurable(disks, r, |r.shards|)
    ensures CopiesDurable(WithCopy(disks, r.shards[n].device, r), r, n + 1)
    ensures ShardsDurable(WithCopy(disks, r.shards[n].device, r), r, |r.shards|)
  {
  }

  lemma DurableAfterDelete(disks: Disks, r: Record, d: nat, version: nat)
    requires Durable(disks, r) && version != r.body.version
    ensures Durable(WithoutCopy(disks, d, version), r) && Durable(WithoutShards(disks, d, version), r)
  {
  }

  /** Nothing is left of the version on the first `n` of its devices, but for
      those in `skipped`. */
  ghost predicate Gone(disks: Disks, r: Record, n: nat, skipped: set<nat>) {
    forall i :: 0 <= i < n && i < |r.shards| && r.shards[i].device !in skipped ==>
      && r.body.version !in On(disks, r.shards[i].device).records
      && forall s <- On(disks, r.shards[i].device).shards :: s.0 != r.body.version
  }

  ghost predicate AllGone(disks: Disks, older: seq<Record>, n: nat, version: nat, skipped: set<nat>) {
    forall i :: 0 <= i < n && i < |older| && older[i].body.version != version ==>
      Gone(disks, older[i], |older[i].shards|, skipped)
  }

  function Deleted(disks: Disks, d: nat, version: nat): Disks {
    WithoutShards(WithoutCopy(disks, d, version), d, version)
  }

  lemma GoneStill(disks: Disks, r: Record, n: nat, d: nat, version: nat, skipped: set<nat>)
    requires Gone(disks, r, n, skipped)
    ensures Gone(Deleted(disks, d, version), r, n, skipped)
  {
  }

  /** One device more. */
  lemma OneMoreGone(disks: Disks, r: Record, j: nat, skipped: set<nat>)
    requires j < |r.shards| && Gone(disks, r, j, skipped)
    ensures Gone(Deleted(disks, r.shards[j].device, r.body.version), r, j + 1, skipped)
  {
    GoneStill(disks, r, j, r.shards[j].device, r.body.version, skipped);
  }

  lemma AllGoneStill(disks: Disks, older: seq<Record>, n: nat, version: nat, d: nat, v: nat, skipped: set<nat>)
    requires AllGone(disks, older, n, version, skipped)
    ensures AllGone(Deleted(disks, d, v), older, n, version, skipped)
  {
    forall i | 0 <= i < n && i < |older| && older[i].body.version != version
      ensures Gone(Deleted(disks, d, v), older[i], |older[i].shards|, skipped)
    {
      GoneStill(disks, older[i], |older[i].shards|, d, v, skipped);
    }
  }

  // ----------------------------------------------------------------- the put

  /** How a request to a device goes. */
  datatype Answer = Fine | Failed(applied: bool) | Dead(applied: bool)

  datatype Ending = Stored | WriteAborted | CleanupFailed | Died

  /** How request `i` goes: once the script has run out the coordinator is dead. */
  function AnswerAt(script: seq<Answer>, i: nat): Answer {
    if i < |script| then script[i] else Dead(false)
  }

  function Drop(script: seq<Answer>, n: nat): seq<Answer> {
    if n <= |script| then script[n..] else []
  }

  ghost predicate FineTo(script: seq<Answer>, n: nat) {
    forall i: nat :: i < n ==> AnswerAt(script, i) == Fine
  }

  /** Of `n` requests, `i` is the first that does not go well. */
  ghost predicate StopsAt(script: seq<Answer>, n: nat, i: nat) {
    i < n && FineTo(script, i) && AnswerAt(script, i) != Fine
  }

  /** How a series of `n` requests goes that ends at the first one gone wrong:
      `answer` is what it comes to, `after` what is left of the script. */
  ghost predicate Goes(script: seq<Answer>, n: nat, answer: Answer, after: seq<Answer>) {
    if answer == Fine then FineTo(script, n) && after == Drop(script, n)
    else exists i: nat :: StopsAt(script, n, i) && answer == AnswerAt(script, i) && after == Drop(script, i + 1)
  }

  lemma AnswerLater(script: seq<Answer>, n: nat, i: nat)
    ensures AnswerAt(Drop(script, n), i) == AnswerAt(script, n + i)
    ensures Drop(Drop(script, n), i) == Drop(script, n + i)
  {
  }

  lemma FineLater(script: seq<Answer>, n: nat, m: nat)
    requires FineTo(script, n)
    ensures FineTo(Drop(script, n), m) <==> FineTo(script, n + m)
  {
    if FineTo(Drop(script, n), m) {
      forall i: nat | i < n + m ensures AnswerAt(script, i) == Fine {
        if i >= n {
          AnswerLater(script, n, i - n);
        }
      }
    }
    if FineTo(script, n + m) {
      forall i: nat | i < m ensures AnswerAt(Drop(script, n), i) == Fine {
        AnswerLater(script, n, i);
      }
    }
  }

  /** A series continued. */
  lemma GoesOn(script: seq<Answer>, n: nat, m: nat, answer: Answer, after: seq<Answer>)
    requires FineTo(script, n) && Goes(Drop(script, n), m, answer, after)
    ensures Goes(script, n + m, answer, after)
  {
    FineLater(script, n, m);
    AnswerLater(script, n, m);
    if answer != Fine {
      var i: nat :| && StopsAt(Drop(script, n), m, i) && answer == AnswerAt(Drop(script, n), i)
                    && after == Drop(Drop(script, n), i + 1);
      FineLater(script, n, i);
      AnswerLater(script, n, i);
      AnswerLater(script, n, i + 1);
      assert StopsAt(script, n + m, n + i);
    }
  }

  /** Ending early ends the longer series too. */
  lemma GoesNoFurther(script: seq<Answer>, n: nat, m: nat, answer: Answer, after: seq<Answer>)
    requires Goes(script, n, answer, after) && answer != Fine && n <= m
    ensures Goes(script, m, answer, after)
  {
    var i: nat :| StopsAt(script, n, i) && answer == AnswerAt(script, i) && after == Drop(script, i + 1);
    assert StopsAt(script, m, i);
  }

  /** Does the coordinator die while it deletes the version from `n` devices,
      going on after a failure? A failed first request skips the second. */
  function AbortDies(script: seq<Answer>, n: nat): bool {
    if n == 0 then false
    else
      match AnswerAt(script, 0)
      case Dead(_) => true
      case Failed(_) => AbortDies(Drop(script, 1), n - 1)
      case Fine => AnswerAt(script, 1).Dead? || AbortDies(Drop(script, 2), n - 1)
  }

  /** The requests of the write phase: each shard, then each record copy. */
  function Writes(r: Record): nat {
    if r.body.size == 0 then |r.shards| else 2 * |r.shards|
  }

  /** The requests that delete a version: two on each device not removed. */
  function DeletesOf(shards: seq<Location>, removed: set<nat>): nat {
    if shards == [] then 0
    else DeletesOf(shards[..|shards| - 1], removed) + if shards[|shards| - 1].device in removed then 0 else 2
  }

  function Deletes(older: seq<Record>, version: nat, removed: set<nat>): nat {
    if older == [] then 0
    else
      var last := older[|older| - 1];
      Deletes(older[..|older| - 1], version, removed)
      + if last.body.version == version then 0 else DeletesOf(last.shards, removed)
  }

  /** A write fails and then every request of the abort goes well. */
  ghost predicate AbortsCleanly(script: seq<Answer>, r: Record) {
    exists i: nat :: StopsAt(script, Writes(r), i) && AnswerAt(script, i).Failed? && FineTo(Drop(script, i + 1), 2 * |r.shards|)
  }

  lemma DeletesOfNext(shards: seq<Location>, removed: set<nat>, j: nat)
    requires j < |shards|
    ensures DeletesOf(shards[..j + 1], removed) == DeletesOf(shards[..j], removed) + if shards[j].device in removed then 0 else 2
  {
    assert shards[..j + 1][..j] == shards[..j];
  }

  lemma DeletesNext(older: seq<Record>, version: nat, removed: set<nat>, n: nat)
    requires n < |older|
    ensures Deletes(older[..n + 1], version, removed)
            == Deletes(older[..n], version, removed)
               + if older[n].body.version == version then 0 else DeletesOf(older[n].shards, removed)
  {
    assert older[..n + 1][..n] == older[..n];
  }

  lemma {:induction false} DeletesOfGrows(shards: seq<Location>, removed: set<nat>, j: nat)
    requires j <= |shards|
    ensures DeletesOf(shards[..j], removed) <= DeletesOf(shards, removed)
    decreases |shards| - j
  {
    if j < |shards| {
      DeletesOfNext(shards, removed, j);
      DeletesOfGrows(shards, removed, j + 1);
    } else {
      assert shards[..j] == shards;
    }
  }

  lemma {:induction false} DeletesGrows(older: seq<Record>, version: nat, removed: set<nat>, n: nat)
    requires n <= |older|
    ensures Deletes(older[..n], version, removed) <= Deletes(older, version, removed)
    decreases |older| - n
  {
    if n < |older| {
      DeletesNext(older, version, removed, n);
      DeletesGrows(older, version, removed, n + 1);
    } else {
      assert older[..n] == older;
    }
  }

  /** Which ending these answers lead to: stored exactly when all go well; a
      failure among the writes aborts, one among the deletions is reported, and
      the coordinator dies at a request it does not survive. */
  ghost predicate EndsAs(script: seq<Answer>, r: Record, older: seq<Record>, removed: set<nat>, ending: Ending) {
    var writes := Writes(r);
    var all := writes + Deletes(older, r.body.version, removed);
    && (ending == Stored <==> FineTo(script, all))
    && (ending == CleanupFailed <==> exists i: nat :: writes <= i && StopsAt(script, all, i) && AnswerAt(script, i).Failed?)
    && (ending == WriteAborted <==> exists i: nat :: StopsAt(script, writes, i) && AnswerAt(script, i).Failed?
                                      && !AbortDies(Drop(script, i + 1), |r.shards|))
  }

  class Put {
    const record: Record
    /** The devices gone from the document or listed as removed. */
    const removed: set<nat>
    var disks: Disks
    /** How the requests to come will go; when it runs out, so has the
        coordinator. */
    var script: seq<Answer>
    ghost const was: Disks
    /** Every state the devices have been in. */
    ghost var history: seq<Disks>

    ghost predicate Valid()
      reads this
    {
      && history != [] && history[0] == was && history[|history| - 1] == disks
      && forall i :: 0 <= i < |history| ==> Safe(was, history[i], record)
    }

    /** A version not yet seen on any device. */
    constructor (disks: Disks, record: Record, removed: set<nat>, script: seq<Answer>)
      ensures Valid() && this.record == record && this.disks == disks && was == disks && this.script == script
      ensures this.removed == removed
      ensures OthersUntouched(was, disks, record.body.version)
    {
      this.disks, this.record, this.removed, this.script := disks, record, removed, script;
      was, history := disks, [disks];
    }

    /** One request whose effect would be `next`. */
    method Request(next: Disks) returns (answer: Answer)
      requires Valid() && Safe(was, next, record)
      modifies this
      ensures Valid() && old(history) <= history
      ensures disks == old(disks) || disks == next
      ensures answer == Fine ==> disks == next
      ensures answer == AnswerAt(old(script), 0) && script == Drop(old(script), 1) && Goes(old(script), 1, answer, script)
    {
      answer := if script == [] then Dead(false) else script[0];
      script := if script == [] then [] else script[1..];
      if answer == Fine || answer.applied {
        disks, history := next, history + [next];
      }
      assert answer != Fine ==> StopsAt(old(script), 1, 0);
    }

    /** `delete_version` on one device: the record, then the shard files. */
    method DeleteVersion(d: nat, version: nat) returns (answer: Answer)
      requires Valid()
      requires || (OthersUntouched(was, disks, record.body.version) && version == record.body.version)
               || (Durable(disks, record) && version != record.body.version)
      modifies this
      ensures Valid() && old(history) <= history
      ensures version == record.body.version ==> OthersUntouched(was, disks, record.body.version)
      ensures version != record.body.version ==> Durable(disks, record)
      ensures answer == Fine ==> disks == Deleted(old(disks), d, version)
      ensures Goes(old(script), 2, answer, script)
      ensures script == Drop(old(script), if AnswerAt(old(script), 0) == Fine then 2 else 1)
    {
      DeleteIsSafe(was, disks, record, d, version);
      answer := Request(WithoutCopy(disks, d, version));
      if answer != Fine {
        GoesNoFurther(old(script), 1, 2, answer, script);
        return;
      }
      DeleteIsSafe(was, disks, record, d, version);
      answer := Request(WithoutShards(disks, d, version));
      GoesOn(old(script), 1, 1, answer, script);
      AnswerLater(old(script), 1, 1);
    }

    /** `abort_shard_writers`: best effort, on every device; where every request
        went through, nothing of the new version is left. */
    method Abort() returns (died: bool, clean: bool)
      requires Valid() && OthersUntouched(was, disks, record.body.version)
      modifies this
      ensures Valid() && OthersUntouched(was, disks, record.body.version)
      ensures clean ==> Gone(disks, record, |record.shards|, {})
      ensures died <==> AbortDies(old(script), |record.shards|)
      ensures clean <==> FineTo(old(script), 2 * |record.shards|)
    {
      died, clean := false, true;
      for n := 0 to |record.shards|
        invariant Valid() && OthersUntouched(was, disks, record.body.version)
        invariant clean ==> Gone(disks, record, n, {})
        invariant Aborting(old(script), |record.shards|, n, clean, script)
      {
        if clean {
          OneMoreGone(disks, record, n, {});
        }
        ghost var before := script;
        var answer := DeleteVersion(record.shards[n].device, record.body.version);
        AbortNext(old(script), |record.shards|, n, clean, before, answer, script);
        clean := clean && answer == Fine;
        if answer.Dead? {
          return true, false;
        }
      }
    }

    /** Every shard finished on its device. */
    method FinishShards() returns (answer: Answer)
      requires Valid() && OthersUntouched(was, disks, record.body.version)
      modifies this
      ensures Valid() && OthersUntouched(was, disks, record.body.version)
      ensures answer == Fine ==> ShardsDurable(disks, record, |record.shards|)
      ensures Goes(old(script), Writes(record) - |record.shards|, answer, script)
    {
      if record.body.size == 0 {
        return Fine;
      }
      for n := 0 to |record.shards|
        invariant Valid() && OthersUntouched(was, disks, record.body.version) && ShardsDurable(disks, record, n)
        invariant Goes(old(script), n, Fine, script)
      {
        var s := record.shards[n];
        var next := WithShard(disks, s.device, record.body.version, s.index);
        UntouchedBy(was, disks, next, record, s.device, s.index);
        OneMoreShard(disks, record, n);
        answer := Request(next);
        GoesOn(old(script), n, 1, answer, script);
        if answer != Fine {
          GoesNoFurther(old(script), n + 1, |record.shards|, answer, script);
          return;
        }
      }
      return Fine;
    }

    /** `write_records`. */
    method WriteRecords() returns (answer: Answer)
      requires Valid() && OthersUntouched(was, disks, record.body.version)
      requires ShardsDurable(disks, record, |record.shards|)
      modifies this
      ensures Valid()
      ensures answer == Fine ==> Durable(disks, record)
      ensures answer != Fine ==> OthersUntouched(was, disks, record.body.version)
      ensures Goes(old(script), |record.shards|, answer, script)
    {
      for n := 0 to |record.shards|
        invariant Valid() && OthersUntouched(was, disks, record.body.version)
        invariant Goes(old(script), n, Fine, script)
        invariant ShardsDurable(disks, record, |record.shards|) && CopiesDurable(disks, record, n)
      {
        var s := record.shards[n];
        var next := WithCopy(disks, s.device, record);
        UntouchedBy(was, disks, next, record, s.device, s.index);
        OneMoreCopy(disks, record, n);
        answer := Request(next);
        GoesOn(old(script), n, 1, answer, script);
        if answer != Fine {
          GoesNoFurther(old(script), n + 1, |record.shards|, answer, script);
          return;
        }
      }
      return Fine;
    }

    /** `delete_version_everywhere`: a removed device is never cleaned. */
    method DeleteEverywhere(previous: Record, ghost older: seq<Record>, ghost n: nat) returns (answer: Answer)
      requires Valid() && Durable(disks, record) && previous.body.version != record.body.version
      requires AllGone(disks, older, n, record.body.version, removed)
      modifies this
      ensures Valid() && Durable(disks, record)
      ensures answer == Fine ==>
                && Gone(disks, previous, |previous.shards|, removed)
                && AllGone(disks, older, n, record.body.version, removed)
      ensures Goes(old(script), DeletesOf(previous.shards, removed), answer, script)
    {
      for j := 0 to |previous.shards|
        invariant Valid() && Durable(disks, record)
        invariant Goes(old(script), DeletesOf(previous.shards[..j], removed), Fine, script)
        invariant Gone(disks, previous, j, removed) && AllGone(disks, older, n, record.body.version, removed)
      {
        var d := previous.shards[j].device;
        DeletesOfNext(previous.shards, removed, j);
        if d !in removed {
          OneMoreGone(disks, previous, j, removed);
          AllGoneStill(disks, older, n, record.body.version, d, previous.body.version, removed);
          answer := DeleteVersion(d, previous.body.version);
          GoesOn(old(script), DeletesOf(previous.shards[..j], removed), 2, answer, script);
          if answer != Fine {
            DeletesOfGrows(previous.shards, removed, j + 1);
            GoesNoFurther(old(script), DeletesOf(previous.shards[..j + 1], removed), DeletesOf(previous.shards, removed), answer,
                          script);
            return;
          }
        }
      }
      assert previous.shards[..|previous.shards|] == previous.shards;
      return Fine;
    }

    /** Every other version found is deleted. */
    method DeleteOlder(older: seq<Record>) returns (answer: Answer)
      requires Valid() && Durable(disks, record)
      modifies this
      ensures Valid() && Durable(disks, record)
      ensures answer == Fine ==> AllGone(disks, older, |older|, record.body.version, removed)
      ensures Goes(old(script), Deletes(older, record.body.version, removed), answer, script)
    {
      ghost var version := record.body.version;
      for n := 0 to |older|
        invariant Valid() && Durable(disks, record) && AllGone(disks, older, n, record.body.version, removed)
        invariant Goes(old(script), Deletes(older[..n], version, removed), Fine, script)
      {
        DeletesNext(older, version, removed, n);
        if older[n].body.version != record.body.version {
          answer := DeleteEverywhere(older[n], older, n);
          GoesOn(old(script), Deletes(older[..n], version, removed), DeletesOf(older[n].shards, removed), answer, script);
          if answer != Fine {
            DeletesGrows(older, version, removed, n + 1);
            GoesNoFurther(old(script), Deletes(older[..n + 1], version, removed), Deletes(older, version, removed), answer, script);
            return;
          }
        }
      }
      assert older[..|older|] == older;
      return Fine;
    }

    /** The write phase: shards, then records. */
    method Write() returns (answer: Answer)
      requires Valid() && OthersUntouched(was, disks, record.body.version)
      modifies this
      ensures Valid()
      ensures answer == Fine ==> Durable(disks, record)
      ensures answer != Fine ==> OthersUntouched(was, disks, record.body.version)
      ensures Goes(old(script), Writes(record), answer, script)
    {
      ghost var shards := Writes(record) - |record.shards|;
      answer := FinishShards();
      if answer != Fine {
        GoesNoFurther(old(script), shards, Writes(record), answer, script);
        return;
      }
      answer := WriteRecords();
      GoesOn(old(script), shards, |record.shards|, answer, script);
    }

    /** A write that failed is aborted; one the coordinator did not survive is not. */
    method EndFailedWrite(answer: Answer, ghost before: seq<Answer>, ghost older: seq<Record>) returns (ending: Ending)
      requires Valid() && OthersUntouched(was, disks, record.body.version)
      requires answer != Fine && Goes(before, Writes(record), answer, script)
      modifies this
      ensures Valid() && OthersUntouched(was, disks, record.body.version)
      ensures ending == WriteAborted || ending == Died
      ensures AbortsCleanly(before, record) ==> Gone(disks, record, |record.shards|, {})
      ensures EndsAs(before, record, older, removed, ending)
    {
      ghost var i: nat :| && StopsAt(before, Writes(record), i) && answer == AnswerAt(before, i)
                          && script == Drop(before, i + 1);
      CleanlyMeans(before, record, i);
      if answer.Dead? {
        StoppedWriting(before, record, older, removed, i, Died);
        return Died;
      }
      var died, clean := Abort();
      ending := if died then Died else WriteAborted;
      StoppedWriting(before, record, older, removed, i, ending);
    }

    /** `put_object` from the moment its body is complete. After every single
        write, whatever failed and wherever it stopped, `Valid` says that the
        previous versions are untouched or the new one is durable. The answers
        to its requests decide how it ends. */
    method Run(older: seq<Record>) returns (ending: Ending)
      requires Valid() && OthersUntouched(was, disks, record.body.version)
      modifies this
      ensures Valid()
      ensures ending == Stored || ending == CleanupFailed ==> Durable(disks, record)
      ensures ending == Stored ==> AllGone(disks, older, |older|, record.body.version, removed)
      ensures ending == WriteAborted ==> OthersUntouched(was, disks, record.body.version)
      ensures AbortsCleanly(old(script), record) ==> Gone(disks, record, |record.shards|, {})
      ensures EndsAs(old(script), record, older, removed, ending)
    {
      var answer := Write();
      if answer != Fine {
        ending := EndFailedWrite(answer, old(script), older);
        return;
      }
      answer := DeleteOlder(older);
      GoesOn(old(script), Writes(record), Deletes(older, record.body.version, removed), answer, script);
      ending := match answer case Fine => Stored case Failed(_) => CleanupFailed case Dead(_) => Died;
      WentPast(old(script), record, older, removed, answer, script, ending);
    }
  }

  lemma CleanlyMeans(script: seq<Answer>, r: Record, i: nat)
    requires StopsAt(script, Writes(r), i)
    ensures AbortsCleanly(script, r) <==> AnswerAt(script, i).Failed? && FineTo(Drop(script, i + 1), 2 * |r.shards|)
  {
    forall j: nat | StopsAt(script, Writes(r), j) ensures j == i {
    }
  }

  lemma StoppedWriting(script: seq<Answer>, r: Record, older: seq<Record>, removed: set<nat>, i: nat, ending: Ending)
    requires StopsAt(script, Writes(r), i)
    requires ending == if AnswerAt(script, i).Dead? || AbortDies(Drop(script, i + 1), |r.shards|) then Died else WriteAborted
    ensures EndsAs(script, r, older, removed, ending)
    ensures forall j: nat :: StopsAt(script, Writes(r), j) ==> j == i
  {
    var all := Writes(r) + Deletes(older, r.body.version, removed);
    forall j: nat | StopsAt(script, all, j) || StopsAt(script, Writes(r), j) ensures j == i {
    }
    assert AnswerAt(script, i) != Fine;
  }

  lemma WentPast(script: seq<Answer>, r: Record, older: seq<Record>, removed: set<nat>, answer: Answer, after: seq<Answer>,
                 ending: Ending)
    requires FineTo(script, Writes(r)) && Goes(script, Writes(r) + Deletes(older, r.body.version, removed), answer, after)
    requires ending == match answer case Fine => Stored case Failed(_) => CleanupFailed case Dead(_) => Died
    ensures EndsAs(script, r, older, removed, ending)
    ensures forall j: nat :: !StopsAt(script, Writes(r), j)
  {
    var all := Writes(r) + Deletes(older, r.body.version, removed);
    if answer != Fine {
      var i: nat :| StopsAt(script, all, i) && answer == AnswerAt(script, i) && after == Drop(script, i + 1);
      forall j: nat | StopsAt(script, all, j) ensures j == i {
      }
      assert Writes(r) <= i;
    }
  }

  /** One device of an abort. */
  lemma AbortStep(script: seq<Answer>, n: nat, answer: Answer, after: seq<Answer>)
    requires n > 0 && Goes(script, 2, answer, after)
    requires after == Drop(script, if AnswerAt(script, 0) == Fine then 2 else 1)
    ensures AbortDies(script, n) <==> answer.Dead? || AbortDies(after, n - 1)
  {
    assert FineTo(script, 0);
    if answer == Fine {
      assert AnswerAt(script, 0) == Fine && AnswerAt(script, 1) == Fine;
    } else {
      var i: nat :| StopsAt(script, 2, i) && answer == AnswerAt(script, i) && after == Drop(script, i + 1);
      assert i == 1 ==> AnswerAt(script, 0) == Fine;
    }
  }

  /** An abort with `n` of `total` devices behind it. */
  ghost predicate Aborting(script: seq<Answer>, total: nat, n: nat, clean: bool, now: seq<Answer>) {
    && n <= total
    && (AbortDies(script, total) <==> AbortDies(now, total - n))
    && (if clean then FineTo(script, 2 * n) && now == Drop(script, 2 * n) else !FineTo(script, 2 * total))
  }

  lemma AbortNext(script: seq<Answer>, total: nat, n: nat, clean: bool, now: seq<Answer>, answer: Answer, after: seq<Answer>)
    requires n < total && Aborting(script, total, n, clean, now) && Goes(now, 2, answer, after)
    requires after == Drop(now, if AnswerAt(now, 0) == Fine then 2 else 1)
    ensures answer.Dead? ==> AbortDies(script, total) && !FineTo(script, 2 * total)
    ensures !answer.Dead? ==> Aborting(script, total, n + 1, clean && answer == Fine, after)
  {
    AbortStep(now, total - n, answer, after);
    if clean {
      AbortClean(script, 2 * n, 2 * total, answer, after);
    }
  }

  lemma AbortClean(script: seq<Answer>, n: nat, all: nat, answer: Answer, after: seq<Answer>)
    requires FineTo(script, n) && Goes(Drop(script, n), 2, answer, after) && n + 2 <= all
    ensures answer == Fine ==> FineTo(script, n + 2) && after == Drop(script, n + 2)
    ensures answer != Fine ==> !FineTo(script, all)
  {
    GoesOn(script, n, 2, answer, after);
    if answer != Fine {
      var i: nat :| StopsAt(script, n + 2, i) && answer == AnswerAt(script, i) && after == Drop(script, i + 1);
      assert AnswerAt(script, i) != Fine;
    }
  }

  lemma DeleteIsSafe(was: Disks, disks: Disks, r: Record, d: nat, version: nat)
    requires || (OthersUntouched(was, disks, r.body.version) && version == r.body.version)
             || (Durable(disks, r) && version != r.body.version)
    ensures Safe(was, WithoutCopy(disks, d, version), r) && Safe(was, WithoutShards(disks, d, version), r)
    ensures version == r.body.version ==>
              OthersUntouched(was, WithoutCopy(disks, d, version), version) && OthersUntouched(was, WithoutShards(disks, d, version), version)
    ensures version != r.body.version ==>
              Durable(WithoutCopy(disks, d, version), r) && Durable(WithoutShards(disks, d, version), r)
  {
    if version == r.body.version {
      UntouchedBy(was, disks, WithoutCopy(disks, d, version), r, d, 0);
      UntouchedBy(was, disks, WithoutShards(disks, d, version), r, d, 0);
    } else {
      DurableAfterDelete(disks, r, d, version);
    }
  }
}
