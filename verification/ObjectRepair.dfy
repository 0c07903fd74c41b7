/** Rebuilding the damaged shards of an object from the intact ones: the two
    passes of `repair_object` and `rebuild_shards`
    (crates/djbod-node/src/coordinator.rs:2414-2530, 2742-2872) over shards
    served by their nodes. */
module ObjectRepair {
  import opened Prelude
  import opened Geometry
  import opened Erasure
  import opened Stripe
  import opened ShardFile
  import opened ObjectWrite
  import opened ObjectRead

  datatype RebuildError = TooFewUsable(stripe: nat) | LostAtTheEnd | BodyMismatch | ChangedBetweenPasses | NotEncoded

  /** Shard `i` opens and has a good block for each of the first `n` stripes. */
  ghost predicate WholeUpTo(code: Code, sum: Checksum, stripes: seq<Block>, shards: seq<Shard>, i: nat, n: nat)
    requires code.scheme.k > 0 && i < |shards| && n <= |stripes|
  {
    shards[i].Opens? && forall s :: 0 <= s < n ==> GoodBlock(shards, i, s, CeilDiv(|stripes[s]|, code.scheme.k), sum)
  }

  /** The shards with nothing to rebuild. */
  ghost function WholeShards(code: Code, sum: Checksum, stripes: seq<Block>, shards: seq<Shard>): set<nat>
    requires code.scheme.k > 0
  {
    set i: nat | i < |shards| && WholeUpTo(code, sum, stripes, shards, i, |stripes|)
  }

  /** At least k shards are whole, and no damage goes undetected. */
  ghost predicate Rebuildable(code: Code, sum: Checksum, stripes: seq<Block>, shards: seq<Shard>)
    requires code.scheme.k > 0
  {
    && |WholeShards(code, sum, stripes, shards)| >= code.scheme.k && RecoversFromAnyK(code)
    && Holding(code, sum, stripes, shards)
  }

  /** The streams of the whole shards end cleanly. */
  ghost predicate WholeEndWell(code: Code, sum: Checksum, stripes: seq<Block>, shards: seq<Shard>)
    requires code.scheme.k > 0
  {
    forall i <- WholeShards(code, sum, stripes, shards) :: i < |shards| && EndsWell(shards[i])
  }

  /** `intact` says of each shard whether it is whole up to stripe `n`. */
  ghost predicate FlagsWhole(code: Code, sum: Checksum, stripes: seq<Block>, shards: seq<Shard>, intact: seq<bool>, n: nat)
    requires code.scheme.k > 0 && n <= |stripes|
  {
    |intact| == |shards| && forall i: nat :: i < |shards| ==> (intact[i] <==> WholeUpTo(code, sum, stripes, shards, i, n))
  }

  // -------------------------------------------------------- reading a stripe

  function AllIndices(total: nat): (indices: seq<nat>)
    ensures |indices| == total && InRange(indices, total) && Distinct(indices)
    ensures forall i: nat :: i in indices <==> i < total
  {
    if total == 0 then [] else AllIndices(total - 1) + [total - 1]
  }

  /** One block from each live stream, under the shard's index. */
  ghost predicate Gathered(shards: seq<Shard>, live: seq<bool>, stripe: nat, received: seq<ShardBlock>) {
    && |live| == |shards|
    && (forall i: nat :: i < |live| && live[i] ==>
          HasBlock(shards[i], stripe) && BlockAt(shards[i], stripe).(index := i) in received)
    && (forall b <- received :: b.index < |live| && live[b.index] && HasBlock(shards[b.index], stripe)
          && b == BlockAt(shards[b.index], stripe).(index := b.index))
    && (forall i, j :: 0 <= i < j < |received| ==> received[i].index != received[j].index)
  }

  /** `read_repair_stripe`: a stream that ends early is let go of. */
  method ReadRepairStripe(shards: seq<Shard>, live: seq<bool>, stripe: nat)
    returns (received: seq<ShardBlock>, left: seq<bool>)
    requires |live| == |shards|
    ensures Gathered(shards, left, stripe, received)
    ensures forall i: nat :: i < |live| ==> (left[i] <==> live[i] && HasBlock(shards[i], stripe))
  {
    received, left := [], live;
    for n := 0 to |shards|
      invariant |left| == |live| && left[n..] == live[n..]
      invariant forall i: nat :: i < n ==> (left[i] <==> live[i] && HasBlock(shards[i], stripe))
      invariant forall i: nat :: i < n && left[i] ==> BlockAt(shards[i], stripe).(index := i) in received
      invariant forall b <- received :: b.index < n && left[b.index] && b == BlockAt(shards[b.index], stripe).(index := b.index)
      invariant forall i, j :: 0 <= i < j < |received| ==> received[i].index != received[j].index
    {
      assert left[n] == left[n..][0] == live[n];
      if live[n] {
        if HasBlock(shards[n], stripe) {
          received := received + [BlockAt(shards[n], stripe).(index := n)];
        } else {
          left := left[n := false];
        }
      }
    }
  }

  /** The live shards with a good block. */
  ghost function LiveGood(shards: seq<Shard>, live: seq<bool>, stripe: nat, length: nat, sum: Checksum): set<nat>
    requires |live| == |shards|
  {
    set i: nat | i < |shards| && live[i] && GoodBlock(shards, i, stripe, length, sum)
  }

  lemma GatheredUsable(shards: seq<Shard>, live: seq<bool>, stripe: nat, received: seq<ShardBlock>, length: nat, sum: Checksum)
    requires Gathered(shards, live, stripe, received)
    ensures RequestedAll(|shards|, received)
    ensures UsableSet(AllIndices(|shards|), received, length, sum) == LiveGood(shards, live, stripe, length, sum)
  {
    forall i | i in LiveGood(shards, live, stripe, length, sum)
      ensures i in UsableSet(AllIndices(|shards|), received, length, sum)
    {
      assert BlockAt(shards[i], stripe).(index := i) in received;
    }
  }

  ghost predicate RequestedAll(total: nat, received: seq<ShardBlock>) {
    ReceivedOk(AllIndices(total), received)
  }

  lemma GatheredGenuine(shards: seq<Shard>, live: seq<bool>, stripe: nat, received: seq<ShardBlock>, word: seq<Block>,
                        length: nat, sum: Checksum)
    requires Gathered(shards, live, stripe, received) && GenuineAt(shards, word, stripe, length, sum)
    ensures Genuine(received, word, length, sum)
  {
    forall b | b in received && Good(b, length, sum) ensures b.index < |word| && b.bytes == word[b.index] {
      assert GoodBlock(shards, b.index, stripe, length, sum);
    }
  }

  /** Decoding a stripe with every index asked for: which shards are at fault,
      and the stripe written when enough are not. */
  method DecodeGathered(code: Code, sum: Checksum, shards: seq<Shard>, ghost live: seq<bool>, stripe: nat,
                        received: seq<ShardBlock>, length: nat, ghost data: seq<Byte>)
    returns (d: DecodedStripe)
    requires WellFormed(code) && |shards| == code.scheme.Total() && length > 0
    requires Gathered(shards, live, stripe, received)
    ensures var good := LiveGood(shards, live, stripe, CeilDiv(length, code.scheme.k), sum);
            && (d.Unrecoverable? <==> |good| < code.scheme.k)
            && (d.Intact? ==> forall i: nat :: i < |shards| ==> i in good)
            && (!d.Intact? ==> forall i: nat :: i < |shards| ==> (i in good <==> !exists f :: f in d.faults && f.index == i))
            && (!d.Intact? ==> forall f <- d.faults :: f.index < |shards|)
    ensures (&& !d.Unrecoverable? && |data| == length && RecoversFromAnyK(code)
             && GenuineAt(shards, StripeWord(code, data), stripe, CeilDiv(length, code.scheme.k), sum)) ==> d.data == data
  {
    GatheredUsable(shards, live, stripe, received, CeilDiv(length, code.scheme.k), sum);
    var r := DecodeStripe(code, sum, AllIndices(|shards|), received, length);
    d := r.value;
    if GenuineAt(shards, StripeWord(code, data), stripe, CeilDiv(length, code.scheme.k), sum) {
      GatheredGenuine(shards, live, stripe, received, StripeWord(code, data), CeilDiv(length, code.scheme.k), sum);
    }
  }

  /** `finish_repair_streams`: the end of every stream still held. */
  method FinishStreams(shards: seq<Shard>, live: seq<bool>) returns (clean: bool)
    requires |live| == |shards|
    ensures clean <==> forall i: nat :: i < |live| && live[i] ==> EndsWell(shards[i])
  {
    for n := 0 to |shards|
      invariant forall i: nat :: i < n && live[i] ==> EndsWell(shards[i])
    {
      if live[n] && !EndsWell(shards[n]) {
        return false;
      }
    }
    return true;
  }

  // --------------------------------------------------------------- pass one

  /** The shards found at fault, noted. */
  method NoteFaults(corrupt: seq<bool>, faults: seq<BlockFault>) returns (noted: seq<bool>)
    requires forall f <- faults :: f.index < |corrupt|
    ensures |noted| == |corrupt|
    ensures forall i: nat :: i < |corrupt| ==> (noted[i] <==> corrupt[i] || exists f :: f in faults && f.index == i)
  {
    noted := corrupt;
    for n := 0 to |faults|
      invariant |noted| == |corrupt|
      invariant forall i: nat :: i < |corrupt| ==> (noted[i] <==> corrupt[i] || exists f :: f in faults[..n] && f.index == i)
    {
      assert faults[n] in faults && faults[..n + 1] == faults[..n] + [faults[n]];
      noted := noted[faults[n].index := true];
    }
    assert faults[..|faults|] == faults;
  }

  /** Live streams without a fault so far are the whole shards. */
  ghost predicate Surveyed(code: Code, sum: Checksum, stripes: seq<Block>, shards: seq<Shard>, live: seq<bool>,
                           corrupt: seq<bool>, n: nat)
    requires code.scheme.k > 0 && n <= |stripes|
  {
    && |live| == |corrupt| == |shards|
    && forall i: nat :: i < |shards| ==> (live[i] && !corrupt[i] <==> WholeUpTo(code, sum, stripes, shards, i, n))
  }

  /** Whole shards are live and good in every stripe. */
  lemma WholeAreGood(code: Code, sum: Checksum, stripes: seq<Block>, shards: seq<Shard>, live: seq<bool>,
                     corrupt: seq<bool>, left: seq<bool>, n: nat)
    requires code.scheme.k > 0 && n < |stripes| && Surveyed(code, sum, stripes, shards, live, corrupt, n)
    requires |left| == |live| && forall i: nat :: i < |live| ==> (left[i] <==> live[i] && HasBlock(shards[i], n))
    ensures |WholeShards(code, sum, stripes, shards)| <= |LiveGood(shards, left, n, CeilDiv(|stripes[n]|, code.scheme.k), sum)|
  {
    var good := LiveGood(shards, left, n, CeilDiv(|stripes[n]|, code.scheme.k), sum);
    forall i | i in WholeShards(code, sum, stripes, shards) ensures i in good {
      assert GoodBlock(shards, i, n, CeilDiv(|stripes[n]|, code.scheme.k), sum);
      assert WholeUpTo(code, sum, stripes, shards, i, n);
    }
    SubsetCount(WholeShards(code, sum, stripes, shards), good);
  }

  lemma SurveyedNext(code: Code, sum: Checksum, stripes: seq<Block>, shards: seq<Shard>, live: seq<bool>,
                     corrupt: seq<bool>, left: seq<bool>, noted: seq<bool>, n: nat)
    requires code.scheme.k > 0 && n < |stripes| && Surveyed(code, sum, stripes, shards, live, corrupt, n)
    requires |left| == |live| && forall i: nat :: i < |live| ==> (left[i] <==> live[i] && HasBlock(shards[i], n))
    requires |noted| == |corrupt| && forall i: nat :: i < |corrupt| ==>
               (noted[i] <==> corrupt[i] || i !in LiveGood(shards, left, n, CeilDiv(|stripes[n]|, code.scheme.k), sum))
    ensures Surveyed(code, sum, stripes, shards, left, noted, n + 1)
  {
    forall i: nat | i < |shards| ensures left[i] && !noted[i] <==> WholeUpTo(code, sum, stripes, shards, i, n + 1) {
      var good := GoodBlock(shards, i, n, CeilDiv(|stripes[n]|, code.scheme.k), sum);
      assert WholeUpTo(code, sum, stripes, shards, i, n + 1) <==> WholeUpTo(code, sum, stripes, shards, i, n) && good;
    }
  }

  /** One stripe of the first pass. */
  method SurveyStripe(code: Code, sum: Checksum, stripeSize: nat, size: nat, shards: seq<Shard>, live: seq<bool>,
                      corrupt: seq<bool>, stripe: nat, ghost body: seq<Byte>)
    returns (r: Result<seq<Byte>, RebuildError>, left: seq<bool>, noted: seq<bool>)
    requires WellFormed(code) && |shards| == code.scheme.Total() && stripeSize > 0 && |body| == size
    requires stripe < |Stripes(body, stripeSize)|
    requires Surveyed(code, sum, Stripes(body, stripeSize), shards, live, corrupt, stripe)
    ensures r.Err? ==> |WholeShards(code, sum, Stripes(body, stripeSize), shards)| < code.scheme.k
    ensures r.Ok? ==> Surveyed(code, sum, Stripes(body, stripeSize), shards, left, noted, stripe + 1)
    ensures r.Ok? && RecoversFromAnyK(code) && Holding(code, sum, Stripes(body, stripeSize), shards) ==>
              r.value == Stripes(body, stripeSize)[stripe]
  {
    ghost var stripes := Stripes(body, stripeSize);
    SomeStripe(body, stripeSize);
    var received;
    received, left := ReadRepairStripe(shards, live, stripe);
    noted := corrupt;
    var length := LengthOfStripe(stripeSize, size, stripe, body);
    var decoded := DecodeGathered(code, sum, shards, left, stripe, received, length, stripes[stripe]);
    if decoded.Unrecoverable? {
      WholeAreGood(code, sum, stripes, shards, live, corrupt, left, stripe);
      return Err(TooFewUsable(stripe)), left, noted;
    }
    if decoded.Repaired? {
      noted := NoteFaults(corrupt, decoded.faults);
    }
    SurveyedNext(code, sum, stripes, shards, live, corrupt, left, noted, stripe);
    r := Ok(decoded.data);
  }

  /** The first pass: every stripe is read from every readable shard, and the
      object is checked against its record. It then knows exactly which shards
      are whole, and that their streams ended cleanly. */
  method SurveyShards(code: Code, sum: Checksum, stripeSize: nat, size: nat, objectChecksum: nat, shards: seq<Shard>,
                      ghost body: seq<Byte>)
    returns (r: Result<seq<bool>, RebuildError>)
    requires WellFormed(code) && |shards| == code.scheme.Total() && stripeSize > 0 && |body| == size
    ensures r.Ok? ==>
              && FlagsWhole(code, sum, Stripes(body, stripeSize), shards, r.value, |Stripes(body, stripeSize)|)
              && WholeEndWell(code, sum, Stripes(body, stripeSize), shards)
    ensures (&& Rebuildable(code, sum, Stripes(body, stripeSize), shards) && sum(body) == objectChecksum
             && EndClean(shards, 0, |shards|)) ==> r.Ok?
  {
    ghost var stripes := Stripes(body, stripeSize);
    SomeStripe(body, stripeSize);
    var count := NumberOfStripes(stripeSize, size, body);
    var live := seq(|shards|, i requires 0 <= i < |shards| => shards[i].Opens?);
    var corrupt := seq(|shards|, _ => false);
    var read: seq<Byte> := [];
    DeliverAll(code, sum, stripes, shards, []);
    for stripe := 0 to count
      invariant Surveyed(code, sum, stripes, shards, live, corrupt, stripe)
      invariant Delivered(code, sum, stripes, shards, stripe, read)
    {
      var data, left, noted := SurveyStripe(code, sum, stripeSize, size, shards, live, corrupt, stripe, body);
      if data.Err? {
        return Err(data.error);
      }
      DeliverNext(code, sum, stripes, shards, stripe, read, data.value);
      live, corrupt, read := left, noted, read + data.value;
    }
    DeliverAll(code, sum, stripes, shards, read);
    var clean := FinishStreams(shards, live);
    if !clean {
      return Err(LostAtTheEnd);
    }
    if sum(read) != objectChecksum {
      return Err(BodyMismatch);
    }
    return Ok(seq(|shards|, i requires 0 <= i < |shards| => live[i] && !corrupt[i]));
  }

  // --------------------------------------------------------------- pass two

  /** The streams of whole shards never end early. */
  lemma WholeStayLive(code: Code, sum: Checksum, stripes: seq<Block>, shards: seq<Shard>, intact: seq<bool>,
                      left: seq<bool>, n: nat)
    requires code.scheme.k > 0 && n < |stripes| && FlagsWhole(code, sum, stripes, shards, intact, |stripes|)
    requires |left| == |intact| && forall i: nat :: i < |intact| ==> (left[i] <==> intact[i] && HasBlock(shards[i], n))
    ensures left == intact
    ensures LiveGood(shards, left, n, CeilDiv(|stripes[n]|, code.scheme.k), sum) == WholeShards(code, sum, stripes, shards)
  {
    forall i: nat | i < |intact| && intact[i]
      ensures GoodBlock(shards, i, n, CeilDiv(|stripes[n]|, code.scheme.k), sum) && left[i]
    {
      assert WholeUpTo(code, sum, stripes, shards, i, |stripes|);
    }
  }

  lemma StripeFits(body: seq<Byte>, stripeSize: nat, n: nat)
    requires stripeSize > 0 && n < |Stripes(body, stripeSize)|
    ensures 0 < |Stripes(body, stripeSize)[n]| <= stripeSize
  {
    SomeStripe(body, stripeSize);
    StripeLength(body, stripeSize, n);
  }

  /** One stripe of the second pass: read from the whole shards alone, decoded
      and encoded again. */
  method RebuildStripe(code: Code, sum: Checksum, blockSize: nat, size: nat, shards: seq<Shard>, intact: seq<bool>,
                       stripe: nat, ghost body: seq<Byte>)
    returns (r: Result<seq<ShardBlock>, RebuildError>)
    requires WellFormed(code) && |shards| == code.scheme.Total() && code.scheme.k * blockSize > 0 && |body| == size
    requires stripe < |Stripes(body, code.scheme.k * blockSize)|
    requires var stripes := Stripes(body, code.scheme.k * blockSize);
             FlagsWhole(code, sum, stripes, shards, intact, |stripes|)
    ensures var stripes := Stripes(body, code.scheme.k * blockSize);
            && (|WholeShards(code, sum, stripes, shards)| < code.scheme.k ==> r == Err(ChangedBetweenPasses))
            && (Rebuildable(code, sum, stripes, shards) ==> r == Ok(Labelled(StripeWord(code, stripes[stripe]), sum)))
  {
    var stripeSize := code.scheme.k * blockSize;
    ghost var stripes := Stripes(body, stripeSize);
    StripeFits(body, stripeSize, stripe);
    var received, left := ReadRepairStripe(shards, intact, stripe);
    WholeStayLive(code, sum, stripes, shards, intact, left, stripe);
    var length := LengthOfStripe(stripeSize, size, stripe, body);
    var decoded := DecodeGathered(code, sum, shards, left, stripe, received, length, stripes[stripe]);
    if decoded.Unrecoverable? {
      return Err(ChangedBetweenPasses);
    }
    var blocks := EncodeStripe(code, sum, decoded.data, blockSize);
    if blocks.Err? {
      return Err(NotEncoded);
    }
    r := Ok(blocks.value);
  }

  lemma SentNext(code: Code, sum: Checksum, stripes: seq<Block>, n: nat)
    requires code.scheme.k > 0 && n < |stripes|
    ensures Sent(code, sum, stripes[..n + 1]) == Sent(code, sum, stripes[..n]) + [Labelled(StripeWord(code, stripes[n]), sum)]
  {
  }

  /** The second pass: with at least k whole shards, whose streams end cleanly,
      the rows of blocks that were sent when the object was put; otherwise an
      error. */
  method RebuildRows(code: Code, sum: Checksum, blockSize: nat, size: nat, shards: seq<Shard>, intact: seq<bool>,
                     ghost body: seq<Byte>)
    returns (r: Result<seq<seq<ShardBlock>>, RebuildError>)
    requires WellFormed(code) && |shards| == code.scheme.Total() && code.scheme.k * blockSize > 0 && |body| == size > 0
    requires var stripes := Stripes(body, code.scheme.k * blockSize);
             FlagsWhole(code, sum, stripes, shards, intact, |stripes|)
    ensures var stripes := Stripes(body, code.scheme.k * blockSize);
            && (|WholeShards(code, sum, stripes, shards)| < code.scheme.k || !WholeEndWell(code, sum, stripes, shards) ==> r.Err?)
            && (Rebuildable(code, sum, stripes, shards) && WholeEndWell(code, sum, stripes, shards) ==>
                  r == Ok(Sent(code, sum, stripes)))
  {
    ghost var stripes := Stripes(body, code.scheme.k * blockSize);
    SomeStripe(body, code.scheme.k * blockSize);
    var count := NumberOfStripes(code.scheme.k * blockSize, size, body);
    var rows: seq<seq<ShardBlock>> := [];
    for stripe := 0 to count
      invariant |WholeShards(code, sum, stripes, shards)| < code.scheme.k ==> stripe == 0
      invariant Rebuildable(code, sum, stripes, shards) ==> rows == Sent(code, sum, stripes[..stripe])
    {
      SentNext(code, sum, stripes, stripe);
      var row := RebuildStripe(code, sum, blockSize, size, shards, intact, stripe, body);
      if row.Err? {
        return Err(row.error);
      }
      rows := rows + [row.value];
    }
    assert stripes[..|stripes|] == stripes;
    var clean := FinishStreams(shards, intact);
    if !clean {
      return Err(LostAtTheEnd);
    }
    r := Ok(rows);
  }

  // -------------------------------------------------------------- the files

  /** What a `PutShard` request and its end say of an object, and how its
      stripes are coded. */
  datatype Object = Object(code: Code, sum: Checksum, blockSize: U64, keyHash: seq<Byte>, versionId: seq<Byte>, size: U64,
                           checksum: U64)

  /** The object is `body`, and its shard files can be written. */
  ghost predicate Describes(o: Object, body: seq<Byte>) {
    && WellFormed(o.code) && RecoversFromAnyK(o.code) && o.blockSize > 0 && o.code.scheme.k * o.blockSize > 0
    && |o.keyHash| == 32 && |o.versionId| == 16 && |body| == o.size && o.sum(body) == o.checksum
    && (ShardFileLength(o.code.scheme.k, o.blockSize, o.size).Some? ==>
          ShardFileLength(o.code.scheme.k, o.blockSize, o.size).value < TWO_TO_64)
  }

  function HeaderOf(o: Object, i: nat): Header {
    Header(o.code.scheme, i, o.blockSize, o.keyHash, o.versionId)
  }

  ghost function StripesOf(o: Object, body: seq<Byte>): seq<Block>
    requires o.code.scheme.k * o.blockSize > 0
  {
    Stripes(body, o.code.scheme.k * o.blockSize)
  }

  /** The file is the one put wrote for shard `i`. */
  ghost predicate IsFileOf(o: Object, body: seq<Byte>, i: nat, file: seq<Byte>) {
    && Describes(o, body) && i < o.code.scheme.Total() && Rectangular(o.code, StripesOf(o, body))
    && IsShardFile(file, HeaderOf(o, i), Column(o.code, StripesOf(o, body), i), o.size, o.checksum, o.sum)
  }

  /** The shard rebuilt: streamed to its device like any other, and the file
      that device then has is the one put wrote. */
  method RebuildFile(o: Object, rows: seq<seq<ShardBlock>>, i: nat, ghost body: seq<Byte>) returns (file: seq<Byte>)
    requires Describes(o, body) && o.size > 0 && i < o.code.scheme.Total() && rows == Sent(o.code, o.sum, StripesOf(o, body))
    ensures IsFileOf(o, body, i, file)
  {
    SomeStripe(body, o.code.scheme.k * o.blockSize);
    StripesRectangular(o.code, StripesOf(o, body));
    file := StoreShard(o.code, o.sum, HeaderOf(o, i), o.size, o.checksum, rows, body);
  }

  ghost function FileTest(o: Object, body: seq<Byte>): (nat, seq<Byte>) -> bool {
    (i: nat, file: seq<Byte>) => IsFileOf(o, body, i, file)
  }

  /** Each file is the one put wrote for the shard beside it. */
  ghost predicate AreFilesOf(o: Object, body: seq<Byte>, targets: seq<nat>, files: seq<seq<Byte>>) {
    Paired(FileTest(o, body), targets, files)
  }

  lemma OneMoreFile(o: Object, body: seq<Byte>, targets: seq<nat>, files: seq<seq<Byte>>, n: nat, file: seq<Byte>)
    requires n < |targets| && AreFilesOf(o, body, targets[..n], files) && IsFileOf(o, body, targets[n], file)
    ensures AreFilesOf(o, body, targets[..n + 1], files + [file])
  {
    PairedSnoc(FileTest(o, body), targets, files, n, file);
  }

  method FilesFor(o: Object, rows: seq<seq<ShardBlock>>, targets: seq<nat>, ghost body: seq<Byte>)
    returns (files: seq<seq<Byte>>)
    requires Describes(o, body) && o.size > 0 && rows == Sent(o.code, o.sum, StripesOf(o, body))
    requires forall t <- targets :: t < o.code.scheme.Total()
    ensures AreFilesOf(o, body, targets, files)
  {
    files := [];
    for n := 0 to |targets|
      invariant AreFilesOf(o, body, targets[..n], files)
    {
      assert targets[n] in targets;
      var file := RebuildFile(o, rows, targets[n], body);
      OneMoreFile(o, body, targets, files, n, file);
      files := files + [file];
    }
    assert targets[..|targets|] == targets;
  }

  /** `rebuild_shards`: succeeds exactly when at least k shards are whole and
      their streams end cleanly, and then has made of each target the file put
      wrote. */
  method RebuildFiles(o: Object, shards: seq<Shard>, intact: seq<bool>, targets: seq<nat>, ghost body: seq<Byte>)
    returns (r: Result<seq<seq<Byte>>, RebuildError>)
    requires Describes(o, body) && o.size > 0 && |shards| == o.code.scheme.Total()
    requires forall t <- targets :: t < o.code.scheme.Total()
    requires FlagsWhole(o.code, o.sum, StripesOf(o, body), shards, intact, |StripesOf(o, body)|)
    requires Holding(o.code, o.sum, StripesOf(o, body), shards)
    ensures r.Ok? <==>
              && |WholeShards(o.code, o.sum, StripesOf(o, body), shards)| >= o.code.scheme.k
              && WholeEndWell(o.code, o.sum, StripesOf(o, body), shards)
    ensures r.Ok? ==> AreFilesOf(o, body, targets, r.value)
  {
    var rows := RebuildRows(o.code, o.sum, o.blockSize, o.size, shards, intact, body);
    if rows.Err? {
      return Err(rows.error);
    }
    var files := FilesFor(o, rows.value, targets, body);
    return Ok(files);
  }

  // ------------------------------------------------- a file and its condition

  /** A shard file, and the blocks of it that its device fails to read. */
  datatype Stored = Stored(bytes: seq<Byte>, bad: set<nat>)

  /** What a repair makes of the answer for a whole shard: any refusal by the
      node is a shard that cannot be read. */
  function Shown(f: Stored, count: nat, sum: Checksum): (shard: Shard)
    ensures !shard.Misbehaves? && EndsWell(shard)
  {
    match Served(f.bytes, f.bad, count, sum)
    case Misbehaves => Shard.Unreadable
    case other => other
  }

  /** The file has every block of the object's stripes, and each passes its
      checksum. */
  ghost predicate WholeFile(code: Code, sum: Checksum, stripes: seq<Block>, f: Stored)
    requires code.scheme.k > 0
  {
    WholeUpTo(code, sum, stripes, [Shown(f, |stripes|, sum)], 0, |stripes|)
  }

  /** `check_shard`: a node's own scrub finds the file unreadable, or one of
      its blocks corrupt. */
  predicate DamagedFile(f: Stored, sum: Checksum) {
    match Open(f.bytes, sum)
    case Err(_) => true
    case Ok(reader) => exists i | 0 <= i < reader.footer.blockCount :: DamagedBlock(reader, f.bad, i, sum)
  }

  predicate DamagedBlock(reader: Reader, bad: set<nat>, i: nat, sum: Checksum) {
    i in bad || match ReadBlock(reader, i)
                case Err(_) => true
                case Ok(b) => sum(b.bytes) != b.checksum
  }

  lemma ColumnGood(code: Code, sum: Checksum, stripes: seq<Block>, shard: Shard, i: nat)
    requires WellFormed(code) && i < code.scheme.Total() && Rectangular(code, stripes)
    requires forall s :: 0 <= s < |stripes| ==> stripes[s] != []
    requires Serves(shard, code, sum, stripes, i)
    ensures WholeUpTo(code, sum, stripes, [shard], 0, |stripes|)
  {
    forall s | 0 <= s < |stripes| ensures GoodBlock([shard], 0, s, CeilDiv(|stripes[s]|, code.scheme.k), sum) {
      StripeWordShape(code, stripes[s]);
      assert shard.blocks[s] == Some(ShardBlock(i, Column(code, stripes, i)[s], sum(Column(code, stripes, i)[s])));
      assert StripeWord(code, stripes[s])[i] in StripeWord(code, stripes[s]);
    }
  }

  /** A file as put wrote it is whole, and no scrub finds it damaged. */
  lemma FreshIsWhole(o: Object, body: seq<Byte>, i: nat, file: seq<Byte>)
    requires IsFileOf(o, body, i, file) && o.size > 0
    ensures WholeFile(o.code, o.sum, StripesOf(o, body), Stored(file, {}))
    ensures !DamagedFile(Stored(file, {}), o.sum)
  {
    var h, stripes := HeaderOf(o, i), StripesOf(o, body);
    var blocks := Column(o.code, stripes, i);
    SomeStripe(body, o.code.scheme.k * o.blockSize);
    GeometryAgrees(o.code, body, h);
    FreshServes(o, body, i, file);
    ColumnGood(o.code, o.sum, stripes, Shown(Stored(file, {}), |stripes|, o.sum), i);
    FinishedFileOpens(h, blocks, o.size, o.checksum, o.sum);
    forall j | 0 <= j < |blocks|
      ensures !DamagedBlock(Reader(h, FooterFor(h, blocks, o.size, o.checksum, o.sum), file), {}, j, o.sum)
    {
      FinishedBlockReadsBack(h, blocks, o.size, o.checksum, o.sum, j);
    }
  }

  lemma FreshServes(o: Object, body: seq<Byte>, i: nat, file: seq<Byte>)
    requires IsFileOf(o, body, i, file) && o.size > 0
    ensures Serves(Shown(Stored(file, {}), |StripesOf(o, body)|, o.sum), o.code, o.sum, StripesOf(o, body), i)
  {
    var h := HeaderOf(o, i);
    GeometryAgrees(o.code, body, h);
    FinishedFileServes(h, Column(o.code, StripesOf(o, body), i), o.size, o.checksum, o.sum);
  }
}
