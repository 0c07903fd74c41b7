/** From the directories of the devices to the counts of the inventory: each
    device's walk is a stream in the order the merge needs
    (crates/djbod-node/src/coordinator.rs:4020-4162, 4254-4299,
    crates/djbod-core/src/device.rs:607-688). */
module DeviceInventory {
  import opened Prelude
  import opened ByteOrder
  import opened CursorWalk
  import KeyHash
  import Records
  import Merge

  // ------------------------------------------------------ what a walk yields

  lemma {:induction false} FilesOfRecord(files: seq<File>, x: Item)
    requires forall f <- files :: f.item.Some? ==> OfRecord(f.item.value)
    ensures x in InFiles(files) ==> OfRecord(x)
  {
    FilesMembers(files, x);
  }

  lemma {:induction false} KeysOfRecord(keys: seq<KeyDir>, x: Item)
    requires forall k <- keys :: KeyDirOk(k)
    ensures x in InKeys(keys) ==> OfRecord(x)
  {
    if keys != [] {
      var before, last := keys[..|keys| - 1], keys[|keys| - 1];
      assert keys == before + [last];
      KeysOfRecord(before, x);
      assert last in keys && KeyDirOk(last);
      FilesOfRecord(last.files, x);
    }
  }

  lemma {:induction false} SecondsOfRecord(seconds: seq<SecondDir>, first: seq<int>, x: Item)
    requires forall s <- seconds :: SecondOk(s, first)
    ensures x in InSeconds(seconds) ==> OfRecord(x)
  {
    if seconds != [] {
      var before, last := seconds[..|seconds| - 1], seconds[|seconds| - 1];
      assert seconds == before + [last];
      SecondsOfRecord(before, first, x);
      assert last in seconds && SecondOk(last, first);
      KeysOfRecord(last.keys, x);
    }
  }

  /** Every record of the walk lies where its own hash and version say. */
  lemma {:induction false} WalkOfRecord(bucket: seq<FirstDir>, x: Item)
    requires forall d <- bucket :: FirstOk(d)
    ensures x in Walk(bucket) ==> OfRecord(x)
  {
    if bucket != [] {
      var before, last := bucket[..|bucket| - 1], bucket[|bucket| - 1];
      assert bucket == before + [last];
      WalkOfRecord(before, x);
      assert FirstOk(last);
      SecondsOfRecord(last.seconds, last.name, x);
    }
  }

  // ------------------------------------------------------ the walk as a stream

  function StreamedOf(items: seq<Item>): (streamed: seq<Merge.Streamed>)
    ensures |streamed| == |items|
  {
    seq(|items|, i requires 0 <= i < |items| => Merge.Streamed(items[i].record, items[i].shardPresent))
  }

  /** The place of a record in the merge. */
  function PlaceOf(x: Item): Merge.Place {
    Merge.Place(x.record.body.keyHash, x.record.body.version)
  }

  /** The order of directory names and version texts is the order of the merge. */
  lemma OrdersAgree(x: Item, y: Item)
    requires OfRecord(x) && OfRecord(y)
    ensures Precedes(Place(x), Place(y)) <==> Merge.Before(PlaceOf(x), PlaceOf(y))
  {
    KeyHash.DirectoryOrder(x.record.body.keyHash, y.record.body.keyHash);
  }

  lemma StreamIncreasing(items: seq<Item>)
    requires Ordered(items) && forall x <- items :: OfRecord(x)
    ensures Merge.Increasing(StreamedOf(items))
  {
    forall i, j | 0 <= i < j < |items| ensures Merge.Before(PlaceOf(items[i]), PlaceOf(items[j])) {
      assert items[i] in items && items[j] in items;
      OrdersAgree(items[i], items[j]);
    }
  }

  /** A device: its directories, and after how many records its stream fails, if
      it does. */
  datatype Device = Device(id: nat, bucket: seq<FirstDir>, failsAfter: Option<nat>)

  /** What its stream yields before it ends or fails. */
  ghost function Yielded(d: Device): seq<Item> {
    if d.failsAfter.Some? && d.failsAfter.value < |Walk(d.bucket)| then Walk(d.bucket)[..d.failsAfter.value] else Walk(d.bucket)
  }

  ghost function SourceOf(d: Device): Merge.Source {
    Merge.Source(d.id, StreamedOf(Yielded(d)), d.failsAfter.Some?)
  }

  ghost predicate DevicesOk(devices: seq<Device>) {
    && (forall d <- devices :: BucketOk(d.bucket))
    && (forall i, j :: 0 <= i < j < |devices| ==> devices[i].id != devices[j].id)
  }

  lemma YieldedAre(d: Device)
    requires BucketOk(d.bucket)
    ensures Ordered(Yielded(d)) && forall x <- Yielded(d) :: OfRecord(x)
  {
    WalkOrdered(d.bucket);
    forall x | x in Yielded(d) ensures OfRecord(x) {
      assert x in Walk(d.bucket);
      WalkOfRecord(d.bucket, x);
    }
  }

  /** What the merge asks of its sources, the devices' walks meet. */
  lemma SourcesMeetMerge(devices: seq<Device>, sources: seq<Merge.Source>)
    requires DevicesOk(devices) && |sources| == |devices| && forall i :: 0 <= i < |devices| ==> sources[i] == SourceOf(devices[i])
    ensures Merge.SourcesOk(sources)
  {
    forall s | s in sources
      ensures Merge.Increasing(s.items)
      ensures forall x <- s.items :: Records.PlacementOk(x.record.shards, x.record.Total())
    {
      var i :| 0 <= i < |sources| && sources[i] == s;
      assert devices[i] in devices;
      YieldedAre(devices[i]);
      StreamIncreasing(Yielded(devices[i]));
      forall x | x in s.items ensures Records.PlacementOk(x.record.shards, x.record.Total()) {
        var n :| 0 <= n < |s.items| && s.items[n] == x;
        assert Yielded(devices[i])[n] in Yielded(devices[i]);
      }
    }
  }

  /** Reading one device's stream until it ends or fails. */
  method ReadDevice(d: Device, size: Item -> nat) returns (source: Merge.Source)
    requires BucketOk(d.bucket)
    ensures source == SourceOf(d)
  {
    var stream := new DeviceStream(d.bucket, size);
    var items: seq<Item> := [];
    while d.failsAfter != Some(|items|)
      invariant fresh(stream) && stream.Valid() && stream.bucket == d.bucket && items == stream.delivered <= Walk(d.bucket)
      invariant d.failsAfter.Some? ==> |items| <= d.failsAfter.value
      decreases |Walk(d.bucket)| - |items|
    {
      var next := stream.Next();
      if next.None? {
        break;
      }
      items := items + [next.value];
    }
    assert items == Yielded(d);
    source := Merge.Source(d.id, StreamedOf(items), d.failsAfter.Some?);
  }

  method ReadDevices(devices: seq<Device>, size: Item -> nat) returns (sources: seq<Merge.Source>)
    requires DevicesOk(devices)
    ensures |sources| == |devices| && forall i :: 0 <= i < |devices| ==> sources[i] == SourceOf(devices[i])
    ensures Merge.SourcesOk(sources)
  {
    sources := [];
    for n := 0 to |devices|
      invariant |sources| == n && forall i :: 0 <= i < n ==> sources[i] == SourceOf(devices[i])
    {
      assert devices[n] in devices;
      var source := ReadDevice(devices[n], size);
      sources := sources + [source];
    }
    SourcesMeetMerge(devices, sources);
  }

  /** The version of a record some stream yields is among the places merged. */
  lemma YieldedIsMerged(devices: seq<Device>, sources: seq<Merge.Source>, d: Device, x: Item)
    requires |sources| == |devices| && forall i :: 0 <= i < |devices| ==> sources[i] == SourceOf(devices[i])
    requires d in devices && x in Yielded(d)
    ensures PlaceOf(x) in Merge.Places(sources)
  {
    var i :| 0 <= i < |devices| && devices[i] == d;
    var n :| 0 <= n < |Yielded(d)| && Yielded(d)[n] == x;
    assert sources[i] in sources && sources[i].items[n] in sources[i].items;
    assert Merge.At(sources[i].items[n]) == PlaceOf(x);
  }

  /** The inventory over the devices' own directories: every version of which a
      stream yields a record is visited, once, in increasing order, and counted
      in one state. */
  method Inventory(devices: seq<Device>, unopened: set<nat>, size: Item -> nat, limit: nat)
    returns (visits: seq<Merge.Visit>, counts: Merge.InventoryCounts, unread: set<nat>, complete: bool,
             ghost sources: seq<Merge.Source>)
    requires DevicesOk(devices)
    ensures |sources| == |devices| && forall i :: 0 <= i < |devices| ==> sources[i] == SourceOf(devices[i])
    ensures Merge.MergedAll(sources, unopened, visits, unread)
    ensures forall d <- devices, x <- Yielded(d) :: exists i :: 0 <= i < |visits| && visits[i].place == PlaceOf(x)
    ensures forall d :: d in unread <==> d in unopened || StreamFails(devices, d)
    ensures fresh(counts) && counts.Valid() && counts.states == Merge.States(visits) && counts.versionsChecked == |visits|
    ensures complete <==> |unread| < limit
  {
    var streams := ReadDevices(devices, size);
    sources := streams;
    visits, counts, unread, complete := Merge.MergeInventory(streams, unopened, limit);
    forall d, x | d in devices && x in Yielded(d) ensures exists i :: 0 <= i < |visits| && visits[i].place == PlaceOf(x) {
      YieldedIsMerged(devices, sources, d, x);
    }
    forall d ensures d in unread <==> d in unopened || StreamFails(devices, d) {
      FailedAre(devices, sources, d);
    }
  }

  ghost predicate StreamFails(devices: seq<Device>, d: nat) {
    exists x :: x in devices && x.failsAfter.Some? && x.id == d
  }

  lemma FailedAre(devices: seq<Device>, sources: seq<Merge.Source>, d: nat)
    requires |sources| == |devices| && forall i :: 0 <= i < |devices| ==> sources[i] == SourceOf(devices[i])
    ensures (exists s :: s in sources && s.fails && s.device == d) <==> StreamFails(devices, d)
  {
    if s :| s in sources && s.fails && s.device == d {
      var i :| 0 <= i < |sources| && sources[i] == s;
      assert devices[i] in devices;
    }
    if x :| x in devices && x.failsAfter.Some? && x.id == d {
      var i :| 0 <= i < |devices| && devices[i] == x;
      assert sources[i] in sources;
    }
  }
}
