/** The move and the repair of records as the coordinator performs them
    (crates/djbod-node/src/coordinator.rs:2278-2345, 2919-3068): loops of
    single writes to devices, any of which may be the last before a crash.
    Each is a run of the machine in `Replacement`. */
module MoveAndRepair {
  import opened Prelude
  import opened Records
  import opened Replacement

  ghost predicate Reached(start: State, trace: seq<Event>, s: State) {
    Written(start) && Runs(start, trace) && After(start, trace) == s
  }

  lemma ReachedKeeps(start: State, trace: seq<Event>, s: State)
    requires Reached(start, trace, s)
    ensures Invariant(s) && SameBody(s.settled, start.settled)
  {
    assert Invariant(start);
    RunKeeps(start, trace);
  }

  lemma {:induction false} RunsOneMore(s: State, events: seq<Event>, e: Event)
    requires Runs(s, events) && Enabled(After(s, events), e)
    ensures Runs(s, events + [e]) && After(s, events + [e]) == Effect(After(s, events), e)
    decreases |events|
  {
    if events == [] {
      assert [] + [e] == [e];
    } else {
      RunsOneMore(Effect(s, events[0]), events[1..], e);
      assert (events + [e])[1..] == events[1..] + [e];
    }
  }

  lemma ReachedNext(start: State, trace: seq<Event>, s: State, e: Event)
    requires Reached(start, trace, s) && Enabled(s, e)
    ensures Reached(start, trace + [e], Effect(s, e))
  {
    RunsOneMore(start, trace, e);
  }

  datatype Outcome = Done | Crashed | Refused

  /** What one copy written does, given that it is never refused. */
  lemma OneCopy(s: State, next: Record, order: seq<nat>, clean: seq<nat>)
    requires Invariant(s) && s.task == Writing(next, order, clean) && order != []
    ensures MayWrite(At(s.disks, order[0]).record, next)
    ensures var t := Effect(s, Advance);
            t.disks == PutMeta(s.disks, order[0], next) && t.task == Writing(next, order[1..], clean)
  {
    WriteAllowed(s);
  }

  lemma CopiesOut(s: State, next: Record, clean: seq<nat>)
    requires Invariant(s) && s.task == Writing(next, [], clean)
    ensures s.moving.None? && s.settled == next && AllHold(s.disks, next)
    ensures Effect(s, Advance) == s.(task := Dropping(clean))
  {
    WrittenOut(s);
  }

  // ------------------------------------------------ what becomes of the devices

  /** These devices have the record now; nothing else has changed. */
  ghost predicate CopiesWritten(was: Disks, now: Disks, r: Record, devices: seq<nat>) {
    forall d :: At(now, d) == if d in devices then Copy(Some(r), At(was, d).shards) else At(was, d)
  }

  /** The device has no record and no shard below `n`; nothing else has changed. */
  ghost predicate ClearedTo(was: Disks, now: Disks, device: nat, n: nat) {
    && At(now, device).record.None?
    && (forall i :: i in At(now, device).shards <==> i in At(was, device).shards && i >= n)
    && forall d :: d != device ==> At(now, d) == At(was, d)
  }

  /** These devices have no record and no shard below `n`; nothing else has
      changed. */
  ghost predicate AllCleared(was: Disks, now: Disks, devices: seq<nat>, n: nat) {
    && (forall d <- devices :: At(now, d).record.None?)
    && (forall d <- devices, i :: i in At(now, d).shards <==> i in At(was, d).shards && i >= n)
    && forall d :: d !in devices ==> At(now, d) == At(was, d)
  }

  ghost predicate ShardCopied(was: Disks, now: Disks, device: nat, index: nat) {
    && At(now, device) == Copy(At(was, device).record, At(was, device).shards + {index})
    && forall d :: d != device ==> At(now, d) == At(was, d)
  }

  /** The whole of a finished move: the source has nothing of the version, each
      device of the new placement has its record, the destination the shard as
      well, and nothing else has changed. */
  ghost predicate MoveMade(was: Disks, now: Disks, next: Record, index: nat, source: nat, destination: nat) {
    && source !in Devices(next) && destination in Devices(next)
    && At(now, source).record.None?
    && (forall i :: i in At(now, source).shards <==> i in At(was, source).shards && i >= next.Total())
    && (forall d <- Devices(next) ::
          At(now, d) == Copy(Some(next), At(was, d).shards + if d == destination && next.body.size > 0 then {index} else {}))
    && forall d :: d != source && d !in Devices(next) ==> At(now, d) == At(was, d)
  }

  /** The whole of a finished repair: the devices of the placement have its record,
      no other device has one, and those that had one have no shard below `n`
      either; nothing else has changed. */
  ghost predicate RepairMade(was: Disks, now: Disks, r: Record, n: nat) {
    && (forall d <- Devices(r) :: At(now, d) == Copy(Some(r), At(was, d).shards))
    && (forall d :: d !in Devices(r) ==> At(now, d).record.None?)
    && (forall d, i :: d !in Devices(r) ==>
          (i in At(now, d).shards <==> i in At(was, d).shards && (At(was, d).record.Some? ==> i >= n)))
  }

  /** `next` is `r` in every field but the place of one shard and the revision. */
  ghost predicate PlacedElsewhere(r: Record, next: Record, index: nat, destination: nat) {
    && next.(revision := r.revision, shards := r.shards) == r && next.revision == r.revision + 1
    && |next.shards| == |r.shards|
    && forall n :: 0 <= n < |r.shards| ==>
         next.shards[n] == if r.shards[n].index == index then Location(index, destination) else r.shards[n]
  }

  function Min(a: nat, b: nat): nat {
    if a <= b then a else b
  }

  class Cluster {
    var disks: Disks
    /** How many more device writes the coordinator at work lives to make. */
    var budget: nat
    ghost var start: State
    ghost var trace: seq<Event>
    ghost var state: State

    ghost predicate Valid()
      reads this
    {
      Reached(start, trace, state) && state.disks == disks
    }

    /** A version freshly written. */
    constructor (s: State, budget: nat)
      requires Written(s)
      ensures Valid() && state == s && this.budget == budget
    {
      disks, this.budget, start, trace, state := s.disks, budget, s, [], s;
    }

    /** One step of the machine that writes what `newDisks` says. */
    method Step(ghost e: Event, newDisks: Disks)
      requires Valid() && Enabled(state, e) && Effect(state, e).disks == newDisks
      modifies this`disks, this`trace, this`state
      ensures Valid() && state == Effect(old(state), e) && trace == old(trace) + [e]
    {
      ReachedNext(start, trace, state, e);
      trace, state := trace + [e], Effect(state, e);
      disks := newDisks;
    }

    /** The coordinator dies. */
    method Die()
      requires Valid()
      modifies this`disks, this`trace, this`state
      ensures Valid() && old(trace) <= trace && disks == old(disks) && state == old(state).(task := Idle)
    {
      Step(Crash, disks);
    }

    /** One copy written, which the device takes. */
    method WriteCopy(next: Record, device: nat, ghost order: seq<nat>, ghost clean: seq<nat>)
      requires Valid() && state.task == Writing(next, order, clean) && order != [] && order[0] == device
      modifies this`disks, this`trace, this`state
      ensures Valid() && old(trace) <= trace && state.task == Writing(next, order[1..], clean)
      ensures CopiesWritten(old(disks), disks, next, [device])
    {
      ReachedKeeps(start, trace, state);
      OneCopy(state, next, order, clean);
      assert MayWrite(At(disks, device).record, next);  // the device takes it
      Step(Advance, PutMeta(disks, device, next));
    }

    method DropOneShard(device: nat, index: nat, ghost rest: seq<nat>)
      requires Valid() && state.task == DroppingShards(device, index, rest) && index < state.settled.Total()
      modifies this`disks, this`trace, this`state
      ensures Valid() && old(trace) <= trace && state.task == DroppingShards(device, index + 1, rest)
      ensures state.settled == old(state.settled) && state.moving == old(state.moving)
      ensures disks == DropShard(old(disks), device, index)
    {
      Step(Advance, DropShard(disks, device, index));
    }

    method DropItsRecord(device: nat, ghost rest: seq<nat>)
      requires Valid() && state.task == Dropping([device] + rest)
      modifies this`disks, this`trace, this`state
      ensures Valid() && old(trace) <= trace && state.task == DroppingShards(device, 0, rest)
      ensures state.settled == old(state.settled) && state.moving == old(state.moving)
      ensures ClearedTo(old(disks), disks, device, 0)
    {
      assert ([device] + rest)[1..] == rest;
      Step(Advance, DropRecord(disks, device));
    }

    /** On to what comes after the devices, or the shards, at hand. */
    method GoOn()
      requires Valid() && (state.task == Dropping([]) || (state.task.DroppingShards? && state.task.index >= state.settled.Total()))
      modifies this`disks, this`trace, this`state
      ensures Valid() && old(trace) <= trace && disks == old(disks)
      ensures state == old(state).(task := if old(state).task.Dropping? then Idle else Dropping(old(state).task.rest))
    {
      Step(Advance, disks);
    }

    /** `rewrite_record_copies`: the record to each device in turn. */
    method RewriteCopies(next: Record, order: seq<nat>, ghost clean: seq<nat>) returns (outcome: Outcome)
      requires Valid() && state.task == Writing(next, order, clean)
      modifies this
      ensures Valid() && start == old(start) && old(trace) <= trace
      ensures outcome == Done ==>
                state.task == Dropping(clean) && state.moving.None? && state.settled == next && AllHold(disks, next)
      ensures outcome != Done ==> outcome == Crashed && state.task.Idle?
      ensures outcome == Done <==> old(budget) >= |order|
      ensures var made := Min(old(budget), |order|);
              budget == old(budget) - made && CopiesWritten(old(disks), disks, next, order[..made])
    {
      for n := 0 to |order|
        invariant Valid() && start == old(start) && old(trace) <= trace
        invariant state.task == Writing(next, order[n..], clean)
        invariant budget + n == old(budget) && CopiesWritten(old(disks), disks, next, order[..n])
      {
        if budget == 0 {
          Die();
          return Crashed;
        }
        budget := budget - 1;
        assert order[n..][1..] == order[n + 1..];
        ghost var before := disks;
        WriteCopy(next, order[n], order[n..], clean);
        OneMoreWritten(old(disks), before, disks, next, order, n);
      }
      assert order[|order|..] == [] && order[..|order|] == order;
      ReachedKeeps(start, trace, state);
      CopiesOut(state, next, clean);
      Step(Advance, disks);
      return Done;
    }

    /** `delete_version` on one device: the record, then every shard file. */
    method DeleteVersion(device: nat, total: nat, ghost rest: seq<nat>) returns (outcome: Outcome)
      requires Valid() && state.task == Dropping([device] + rest) && total == state.settled.Total()
      modifies this
      ensures Valid() && start == old(start) && old(trace) <= trace
      ensures state.settled == old(state.settled) && state.moving == old(state.moving)
      ensures outcome == Done ==> state.task == Dropping(rest)
      ensures outcome != Done ==> outcome == Crashed && state.task.Idle?
      ensures outcome == Done <==> old(budget) > total
      ensures old(budget) == 0 ==> disks == old(disks)
      ensures old(budget) > 0 ==> ClearedTo(old(disks), disks, device, Min(old(budget) - 1, total))
      ensures budget == if outcome == Done then old(budget) - total - 1 else 0
    {
      if budget == 0 {
        Die();
        return Crashed;
      }
      budget := budget - 1;
      DropItsRecord(device, rest);
      for index := 0 to total
        invariant Valid() && start == old(start) && old(trace) <= trace
        invariant state.settled == old(state.settled) && state.moving == old(state.moving)
        invariant state.task == DroppingShards(device, index, rest)
        invariant budget + index + 1 == old(budget) && ClearedTo(old(disks), disks, device, index)
      {
        if budget == 0 {
          Die();
          return Crashed;
        }
        budget := budget - 1;
        ghost var before := disks;
        DropOneShard(device, index, rest);
        OneShardLess(old(disks), before, disks, device, index);
      }
      GoOn();
      return Done;
    }

    /** `newest_version` and the checks before a move: only a placement all of
        whose copies are there may be moved from. */
    method MovableRecord(located: seq<Located>, key: seq<Byte>, index: nat, destination: nat) returns (r: Option<Record>)
      requires Valid() && state.task.Idle? && Enumerates(disks, {}, located) && located != []
      requires key == state.settled.body.key
      ensures r.Some? ==>
                && r.value == state.settled && state.moving.None?
                && Enabled(state, BeginMove(located, r.value, index, destination))
      ensures r.None? <==> state.moving.Some? || index >= state.settled.Total() || destination in Devices(state.settled)
    {
      ReachedKeeps(start, trace, state);
      SeenInFull(state, located);
      var trusted := TrustVersion(located, key);
      var record := trusted.value.record;
      FullView(state, located, record);
      NothingMissing(located, record, trusted.value.missing);
      SettledIffComplete(state, located, record);
      if trusted.value.missing != [] {
        return None;
      }
      if index >= record.Total() || ShardOn(record, destination).Some? {
        return None;
      }
      IndexListed(record, index);
      return Some(record);
    }

    method BeginTheMove(ghost located: seq<Located>, record: Record, index: nat, destination: nat, ghost source: nat)
      requires Valid() && Enabled(state, BeginMove(located, record, index, destination))
      requires DeviceFor(record, index) == Some(source)
      modifies this`disks, this`trace, this`state
      ensures Valid() && old(trace) <= trace && disks == old(disks)
      ensures state.settled == old(state.settled) && state.moving == old(state.moving)
      ensures var next := Moved(record, index, destination);
              && state.task == (if record.body.size > 0 then Copying(next, index, destination, source)
                                else Writing(next, Order(next, destination), [source]))
              && MoveListed(next, source, destination)
    {
      ReachedKeeps(start, trace, state);
      MoveIsListed(state, located, record, index, destination);
      Step(BeginMove(located, record, index, destination), disks);
    }

    /** The first step of a move: the shard onto the destination. */
    method CopyShard(next: Record, index: nat, destination: nat, ghost source: nat) returns (outcome: Outcome)
      requires Valid() && state.task == Copying(next, index, destination, source)
      modifies this
      ensures Valid() && start == old(start) && old(trace) <= trace
      ensures state.settled == old(state.settled) && state.moving == old(state.moving)
      ensures outcome != Refused && (outcome == Done <==> old(budget) > 0)
      ensures outcome == Done ==>
                && state.task == Writing(next, Order(next, destination), [source]) && budget == old(budget) - 1
                && ShardCopied(old(disks), disks, destination, index)
      ensures outcome == Crashed ==> state.task.Idle? && disks == old(disks)
    {
      if budget == 0 {
        Die();
        return Crashed;
      }
      budget := budget - 1;
      Step(Advance, PutShard(disks, destination, index));
      return Done;
    }

    /** The rest of a move: the records, then the deletion from the source. */
    method FinishMove(next: Record, destination: nat, source: nat) returns (outcome: Outcome)
      requires Valid() && state.task == Writing(next, Order(next, destination), [source])
      modifies this
      ensures Valid() && start == old(start) && old(trace) <= trace && state.task.Idle?
      ensures outcome != Refused
      ensures outcome == Done <==> old(budget) >= |Order(next, destination)| + next.Total() + 1
      ensures outcome == Done ==>
                && state.moving.None? && state.settled == next
                && exists written :: && CopiesWritten(old(disks), written, next, Order(next, destination))
                                     && ClearedTo(written, disks, source, next.Total())
    {
      var order := Order(next, destination);
      outcome := RewriteCopies(next, order, [source]);
      if outcome != Done {
        return;
      }
      ghost var written := disks;
      assert [source] + [] == [source] && order[..|order|] == order;
      outcome := DeleteVersion(source, next.Total(), []);
      if outcome != Done {
        return;
      }
      GoOn();
    }

    /** What a move writes once it may begin. */
    method CarryOutMove(ghost located: seq<Located>, record: Record, index: nat, destination: nat, source: nat)
      returns (outcome: Outcome)
      requires Valid() && Enabled(state, BeginMove(located, record, index, destination))
      requires DeviceFor(record, index) == Some(source)
      modifies this
      ensures Valid() && start == old(start) && old(trace) <= trace && state.task.Idle?
      ensures outcome != Refused && (outcome == Done <==> old(budget) >= MoveCost(record, index, destination))
      ensures outcome == Done ==>
                var next := Moved(record, index, destination);
                && state.moving.None? && state.settled == next
                && MoveMade(old(disks), disks, next, index, source, destination)
    {
      var next := Moved(record, index, destination);
      BeginTheMove(located, record, index, destination, source);
      if record.body.size > 0 {
        outcome := CopyShard(next, index, destination, source);
        if outcome != Done {
          return;
        }
      }
      ghost var copied := disks;
      outcome := FinishMove(next, destination, source);
      if outcome == Done {
        MoveAddsUp(old(disks), copied, disks, next, index, source, destination);
      }
    }

    /** `move_shard_of_record`. Whatever the number of writes made, the result
        is a run of the machine; a move finishes exactly when the coordinator
        lives to make all its writes, and then it has settled the new placement
        and left nothing on the source. */
    method MoveShard(located: seq<Located>, key: seq<Byte>, index: nat, destination: nat) returns (outcome: Outcome)
      requires Valid() && state.task.Idle? && Enumerates(disks, {}, located) && located != []
      requires key == state.settled.body.key
      modifies this
      ensures Valid() && start == old(start) && old(trace) <= trace && state.task.Idle?
      ensures outcome == Done ==>
                && state.moving.None? && PlacedElsewhere(old(state.settled), state.settled, index, destination)
                && DeviceFor(old(state.settled), index).Some?
                && MoveMade(old(disks), disks, state.settled, index, DeviceFor(old(state.settled), index).value, destination)
      ensures outcome == Crashed ==> old(budget) < MoveCost(old(state.settled), index, destination)
      ensures outcome == Done ==> old(budget) >= MoveCost(old(state.settled), index, destination)
      ensures outcome == Refused ==> state == old(state)
      ensures outcome == Refused <==>
                old(state.moving).Some? || index >= old(state.settled).Total() || destination in Devices(old(state.settled))
    {
      var found := MovableRecord(located, key, index, destination);
      if found.None? {
        return Refused;
      }
      outcome := CarryOutMove(located, found.value, index, destination, DeviceFor(found.value, index).value);
    }

    /** With every device in view there is always a record to complete. */
    method RecordToComplete(located: seq<Located>, key: seq<Byte>) returns (record: Record, missing: seq<nat>)
      requires Valid() && state.task.Idle? && Enumerates(disks, {}, located) && located != []
      requires key == state.settled.body.key
      ensures Enabled(state, BeginRepair(located, record))
      ensures record == if state.moving.Some? then state.moving.value else state.settled
      ensures missing == MissingDevices(record.shards, located, record.revision)
    {
      ReachedKeeps(start, trace, state);
      SeenInFull(state, located);
      var found := RepairableRecord(located, key);
      assert Repairable(located, key, Expected(state, {}));
      record := found.value.record;
      FullView(state, located, record);
      AgreementUnique(located, key, record, Expected(state, {}));
      missing := ListMissing(record, found.value.missing, located);
    }

    /** From the record found to writing the copies it misses. */
    method BeginToComplete(located: seq<Located>, key: seq<Byte>)
      returns (record: Record, missing: seq<nat>, stale: seq<nat>)
      requires Valid() && state.task.Idle? && Enumerates(disks, {}, located) && located != []
      requires key == state.settled.body.key
      modifies this`disks, this`trace, this`state
      ensures Valid() && old(trace) <= trace && state.task == Writing(record, missing, stale)
      ensures record == (if old(state.moving).Some? then old(state.moving).value else old(state.settled))
      ensures missing == MissingDevices(record.shards, located, record.revision) && stale == StaleDevices(record, located)
      ensures disks == old(disks) && PlacesOf(old(disks), record, missing, stale) && Subsequence(stale, FoundOn(located))
    {
      record, missing := RecordToComplete(located, key);
      stale := StaleDevices(record, located);
      StaleInOrder(record, located);
      ReachedKeeps(start, trace, state);
      RepairPlaces(state, located, record);
      Step(BeginRepair(located, record), disks);
    }

    /** The records' part of `repair_object` with every device in service: what
        was found is completed, and copies it does not list are removed. */
    method RepairRecords(located: seq<Located>, key: seq<Byte>) returns (outcome: Outcome)
      requires Valid() && state.task.Idle? && Enumerates(disks, {}, located) && located != []
      requires key == state.settled.body.key
      modifies this
      ensures Valid() && start == old(start) && old(trace) <= trace && state.task.Idle?
      ensures outcome == Done ==>
                && state.moving.None?
                && state.settled == if old(state.moving).Some? then old(state.moving).value else old(state.settled)
      ensures outcome == Done ==> RepairMade(old(disks), disks, state.settled, state.settled.Total())
      ensures outcome != Refused
      ensures outcome == Done <==>
                var record := if old(state.moving).Some? then old(state.moving).value else old(state.settled);
                old(budget) >= RepairCost(record, located)
    {
      var record, missing, stale := BeginToComplete(located, key);
      outcome := RewriteCopies(record, missing, stale);
      if outcome != Done {
        return;
      }
      ghost var written := disks;
      assert missing[..|missing|] == missing;
      outcome := RemoveStale(stale, record.Total());
      if outcome == Done {
        RepairAddsUp(old(disks), written, disks, record, missing, stale);
      }
    }

    /** `remove_stale_copies`. */
    method RemoveStale(stale: seq<nat>, total: nat) returns (outcome: Outcome)
      requires Valid() && state.task == Dropping(stale) && total == state.settled.Total()
      modifies this
      ensures Valid() && start == old(start) && old(trace) <= trace && state.task.Idle?
      ensures state.settled == old(state.settled) && state.moving == old(state.moving)
      ensures outcome != Refused
      ensures outcome == Done <==> old(budget) >= Clearing(|stale|, total)
      ensures outcome == Done ==> AllCleared(old(disks), disks, stale, total)
    {
      for n := 0 to |stale|
        invariant Valid() && start == old(start) && old(trace) <= trace
        invariant state.task == Dropping(stale[n..])
        invariant state.settled == old(state.settled) && state.moving == old(state.moving)
        invariant old(budget) == budget + Clearing(n, total) && AllCleared(old(disks), disks, stale[..n], total)
      {
        assert stale[n..] == [stale[n]] + stale[n + 1..];
        assert stale[..n + 1] == stale[..n] + [stale[n]];
        ghost var before := disks;
        ClearingGrows(n + 1, |stale|, total);
        outcome := DeleteVersion(stale[n], total, stale[n + 1..]);
        if outcome != Done {
          return;
        }
        OneMoreCleared(old(disks), before, disks, stale[..n], stale[n], total);
      }
      assert stale[..|stale|] == stale;
      GoOn();
      return Done;
    }
  }

  // ------------------------------------------------------------ the parts add up

  /** The writes of a deletion from `n` devices. */
  function Clearing(n: nat, total: nat): nat {
    if n == 0 then 0 else Clearing(n - 1, total) + total + 1
  }

  lemma {:induction false} ClearingGrows(n: nat, m: nat, total: nat)
    requires n <= m
    ensures Clearing(n, total) <= Clearing(m, total)
    decreases m
  {
    if n < m {
      ClearingGrows(n, m - 1, total);
    }
  }

  /** The writes of a move: the shard, a record to every device of the new
      placement, and the deletion from the source. */
  function MoveCost(r: Record, index: nat, destination: nat): nat {
    (if r.body.size > 0 then 1 else 0) + |Order(Moved(r, index, destination), destination)| + r.Total() + 1
  }

  /** The writes of a repair: a record to every listed device without it, and the
      deletion from every other device with a copy. */
  ghost function RepairCost(r: Record, located: seq<Located>): nat {
    |MissingDevices(r.shards, located, r.revision)| + Clearing(|StaleDevices(r, located)|, r.Total())
  }

  lemma OneMoreWritten(was: Disks, before: Disks, now: Disks, r: Record, order: seq<nat>, n: nat)
    requires n < |order| && CopiesWritten(was, before, r, order[..n]) && CopiesWritten(before, now, r, [order[n]])
    ensures CopiesWritten(was, now, r, order[..n + 1])
  {
    assert order[..n + 1] == order[..n] + [order[n]];
    forall d ensures At(now, d) == if d in order[..n + 1] then Copy(Some(r), At(was, d).shards) else At(was, d) {
      assert At(before, d) == if d in order[..n] then Copy(Some(r), At(was, d).shards) else At(was, d);
    }
  }

  lemma OneShardLess(was: Disks, before: Disks, now: Disks, device: nat, index: nat)
    requires ClearedTo(was, before, device, index) && now == DropShard(before, device, index)
    ensures ClearedTo(was, now, device, index + 1)
  {
  }

  lemma OneMoreCleared(was: Disks, before: Disks, now: Disks, devices: seq<nat>, d: nat, n: nat)
    requires AllCleared(was, before, devices, n) && ClearedTo(before, now, d, n)
    ensures AllCleared(was, now, devices + [d], n)
  {
  }

  /** The move writes to the devices of the new placement, the destination among
      them and the source not. */
  ghost predicate MoveListed(next: Record, source: nat, destination: nat) {
    && (forall d :: d in Order(next, destination) <==> d in Devices(next))
    && source !in Devices(next) && destination in Devices(next)
    && Order(next, destination)[0] == destination
    && Subsequence(Order(next, destination)[1..], ListedDevices(next.shards))
  }

  lemma MoveIsListed(s: State, located: seq<Located>, record: Record, index: nat, destination: nat)
    requires Invariant(s) && Enabled(s, BeginMove(located, record, index, destination))
    ensures MoveListed(Moved(record, index, destination), DeviceFor(record, index).value, destination)
  {
    FullView(s, located, record);
    SettledIffComplete(s, located, record);
    MovedPlaced(record, index, destination);
    var next := Moved(record, index, destination);
    OthersInOrder(next.shards, destination);
    assert Order(next, destination)[1..] == Others(next.shards, destination);
  }

  lemma MoveAddsUp(was: Disks, copied: Disks, now: Disks, next: Record, index: nat, source: nat, destination: nat)
    requires if next.body.size > 0 then ShardCopied(was, copied, destination, index) else copied == was
    requires exists written :: && CopiesWritten(copied, written, next, Order(next, destination))
                               && ClearedTo(written, now, source, next.Total())
    requires MoveListed(next, source, destination)
    ensures MoveMade(was, now, next, index, source, destination)
  {
  }

  /** Who lacks the record and who has one without being listed. */
  ghost predicate PlacesOf(disks: Disks, r: Record, missing: seq<nat>, stale: seq<nat>) {
    && (forall d :: d in missing <==> d in Devices(r) && At(disks, d).record != Some(r))
    && (forall d :: d in stale <==> d !in Devices(r) && At(disks, d).record.Some?)
  }

  lemma RepairPlaces(s: State, located: seq<Located>, record: Record)
    requires Core(s) && Enumerates(s.disks, {}, located) && AgreeOn(located, s.settled.body.key, record)
    requires record == if s.moving.Some? then s.moving.value else s.settled
    ensures PlacesOf(s.disks, record, MissingDevices(record.shards, located, record.revision), StaleDevices(record, located))
  {
    forall d ensures d in MissingDevices(record.shards, located, record.revision) <==>
                       d in Devices(record) && At(s.disks, d).record != Some(record)
    {
      SeenCopy(s.disks, located, d, record);
    }
    forall d ensures d in StaleDevices(record, located) <==> d !in Devices(record) && At(s.disks, d).record.Some? {
      StaleMembers(record, located, d);
      if d in s.disks && s.disks[d].record.Some? && d !in Devices(record) {
        assert CopyOk(s, d, s.disks[d].record.value);
        assert Located(d, s.disks[d].record.value) in located;
      }
    }
  }

  lemma RepairAddsUp(was: Disks, written: Disks, now: Disks, r: Record, missing: seq<nat>, stale: seq<nat>)
    requires PlacesOf(was, r, missing, stale) && CopiesWritten(was, written, r, missing)
    requires AllCleared(written, now, stale, r.Total())
    ensures RepairMade(was, now, r, r.Total())
  {
    forall d | d in Devices(r) ensures At(now, d) == Copy(Some(r), At(was, d).shards) {
      assert At(was, d) == Copy(At(was, d).record, At(was, d).shards);
    }
  }

  lemma NothingMissing(copies: seq<Located>, record: Record, missing: seq<MissingCopy>)
    requires MissingAre(copies, record, missing)
    ensures missing == [] <==> forall d <- Devices(record) :: HasCopy(copies, d, record.revision)
  {
    if missing != [] {
      assert missing[0] in missing;
      assert Named(missing, missing[0].device);
    } else {
      forall d | d in Devices(record) ensures HasCopy(copies, d, record.revision) {
        assert !Named(missing, d);
      }
    }
  }

  lemma SettledIffComplete(s: State, located: seq<Located>, record: Record)
    requires Core(s) && Enumerates(s.disks, {}, located) && AgreeOn(located, s.settled.body.key, record)
    requires record == if s.moving.Some? then s.moving.value else s.settled
    ensures s.moving.None? <==> forall d <- Devices(record) :: HasCopy(located, d, record.revision)
  {
    forall d | d in Devices(record)
      ensures HasCopy(located, d, record.revision) <==> At(s.disks, d).record == Some(record)
    {
      SeenCopy(s.disks, located, d, record);
    }
  }

  lemma IndexListed(r: Record, index: nat)
    requires PlacedRecord(r) && index < r.Total()
    ensures DeviceFor(r, index).Some?
  {
    AllIndicesNamed(r.shards, r.Total(), index);
    var n :| 0 <= n < |r.shards| && r.shards[n].index == index;
    assert r.shards[n] in r.shards;
  }

  /** A lookup that sees every device finds copies that agree and vouch. */
  lemma SeenInFull(s: State, located: seq<Located>)
    requires Core(s) && Enumerates(s.disks, {}, located)
    ensures AgreeOn(located, s.settled.body.key, Expected(s, {}))
    ensures VouchingCount(located, Expected(s, {})) >= s.settled.body.k
    ensures forall c <- located :: SameBody(c.record, s.settled)
  {
    CoreReadable(s, {}, located);
    forall c | c in located ensures SameBody(c.record, s.settled) {
      assert CopyOk(s, c.device, c.record);
    }
  }

  /** The missing copies' devices, in the order the record lists them. */
  method ListMissing(record: Record, missing: seq<MissingCopy>, ghost located: seq<Located>) returns (order: seq<nat>)
    requires MissingAre(located, record, missing)
    ensures order == MissingDevices(record.shards, located, record.revision)
  {
    order := [];
    for n := |record.shards| downto 0
      invariant order == MissingDevices(record.shards[n..], located, record.revision)
    {
      var device := record.shards[n].device;
      assert record.shards[n..][1..] == record.shards[n + 1..];
      assert record.shards[n] in record.shards;
      assert Named(missing, device) <==> !HasCopy(located, device, record.revision);
      if exists m :: m in missing && m.device == device {
        order := [device] + order;
      }
    }
    assert record.shards[0..] == record.shards;
  }
}
