/** The degraded read (crates/djbod-node/src/coordinator.rs:1160-1620) over
    shards served by their nodes (crates/djbod-node/src/local_ops.rs:852-940),
    and the object round trip. */
module ObjectRead {
  import opened Prelude
  import opened Geometry
  import opened Erasure
  import opened Stripe
  import opened ShardFile
  import opened ObjectWrite

  /** What asking a node for a shard comes to: a stream of blocks, a shard that
      cannot be held (missing, damaged, device or node away), or a node that
      answers wrongly, which fails the read. The node reads its file block by
      block while it streams: where one cannot be read, or the connection is
      lost, the stream ends and there is no block. After the last block comes
      the end, `clean` unless the connection is lost before it. */
  datatype Shard = Opens(blocks: seq<Option<ShardBlock>>, clean: bool) | Unreadable | Misbehaves

  datatype GetError =
    | ImpossibleSize | WrongAnswer | TooManyUnreadable | StreamEndedEarly | Damaged(index: nat) | UncleanEnd | ObjectMismatch

  predicate EndsWell(shard: Shard) {
    shard.Opens? ==> shard.clean
  }

  ghost function Openable(shards: seq<Shard>): set<nat> {
    set i: nat | i < |shards| && shards[i].Opens?
  }

  /** The stream has some block for the stripe, good or not. */
  predicate HasBlock(shard: Shard, stripe: nat) {
    shard.Opens? && stripe < |shard.blocks| && shard.blocks[stripe].Some?
  }

  function BlockAt(shard: Shard, stripe: nat): ShardBlock
    requires HasBlock(shard, stripe)
  {
    shard.blocks[stripe].value
  }

  /** Shard `i` has a good block for the stripe. */
  ghost predicate GoodBlock(shards: seq<Shard>, i: nat, stripe: nat, length: nat, sum: Checksum)
    requires i < |shards|
  {
    && HasBlock(shards[i], stripe)
    && |BlockAt(shards[i], stripe).bytes| == length
    && sum(BlockAt(shards[i], stripe).bytes) == BlockAt(shards[i], stripe).checksum
  }

  ghost function GoodAt(shards: seq<Shard>, stripe: nat, length: nat, sum: Checksum): set<nat> {
    set i: nat | i < |shards| && GoodBlock(shards, i, stripe, length, sum)
  }

  // ---------------------------------------------------------- opening shards

  /** `open_shards` on the indices `from .. to`. */
  method OpenShards(shards: seq<Shard>, from: nat, to: nat) returns (r: Result<(seq<nat>, nat), GetError>)
    requires from <= to <= |shards|
    ensures r.Err? <==> exists i :: from <= i < to && shards[i].Misbehaves?
    ensures r.Err? ==> r.error == WrongAnswer
    ensures r.Ok? ==>
              && (forall i: nat :: i in r.value.0 <==> from <= i < to && shards[i].Opens?)
              && Distinct(r.value.0) && |r.value.0| + r.value.1 == to - from
              && (r.value.1 == 0 <==> forall i :: from <= i < to ==> shards[i].Opens?)
  {
    var held: seq<nat>, unreadable := [], 0;
    for i := from to to
      invariant forall j :: from <= j < i ==> !shards[j].Misbehaves?
      invariant forall j: nat :: j in held <==> from <= j < i && shards[j].Opens?
      invariant Distinct(held) && |held| + unreadable == i - from
      invariant unreadable == 0 <==> forall j :: from <= j < i ==> shards[j].Opens?
    {
      match shards[i]
      case Opens(_, _) =>
        assert i !in held;
        held := held + [i];
      case Unreadable => unreadable := unreadable + 1;
      case Misbehaves => return Err(WrongAnswer);
    }
    return Ok((held, unreadable));
  }

  /** The streams a read holds: the data shards until parity was wanted, every
      shard that opens from then on; never fewer than k. */
  ghost predicate SourcesOk(shards: seq<Shard>, scheme: Scheme, sources: seq<nat>, parityOpen: bool) {
    && Distinct(sources) && |sources| >= scheme.k
    && (forall i: nat :: i in sources <==> i < (if parityOpen then |shards| else scheme.k) && i < |shards| && shards[i].Opens?)
  }

  lemma JoinDistinct(a: seq<nat>, b: seq<nat>, k: nat)
    requires Distinct(a) && Distinct(b) && (forall i <- a :: i < k) && (forall i <- b :: i >= k)
    ensures Distinct(a + b)
  {
    forall i, j | 0 <= i < j < |a + b| ensures (a + b)[i] != (a + b)[j] {
      if i < |a| <= j {
        assert a[i] in a && b[j - |a|] in b;
      }
    }
  }

  lemma AllOpenable(shards: seq<Shard>, sources: seq<nat>)
    requires Distinct(sources) && forall i: nat :: i in sources <==> i < |shards| && shards[i].Opens?
    ensures |Openable(shards)| == |sources|
  {
    DistinctCount(sources);
    assert Elements(sources) == Openable(shards);
  }

  /** Before the first byte: the data shards, and parity at once if one of them
      does not open; more than m unreadable shards are the refusal. */
  method OpenFirst(shards: seq<Shard>, scheme: Scheme) returns (r: Result<(seq<nat>, bool), GetError>)
    requires |shards| == scheme.Total()
    ensures r.Ok? ==> SourcesOk(shards, scheme, r.value.0, r.value.1)
    ensures r.Ok? ==> (r.value.1 <==> exists i :: 0 <= i < scheme.k && !shards[i].Opens?)
    ensures r.Ok? ==> forall i :: 0 <= i < (if r.value.1 then |shards| else scheme.k) ==> !shards[i].Misbehaves?
    ensures r.Err? ==>
              || (exists i :: 0 <= i < scheme.k && shards[i].Misbehaves?)
              || (&& (exists i :: 0 <= i < scheme.k && !shards[i].Opens?)
                  && ((exists i :: 0 <= i < |shards| && shards[i].Misbehaves?) || |Openable(shards)| < scheme.k))
    ensures r.Err? ==> r.error == WrongAnswer || r.error == TooManyUnreadable
    ensures r.Err? ==> forall stripe, length, sum :: FailsFor(shards, scheme, stripe, length, sum, r.error)
  {
    var data := OpenShards(shards, 0, scheme.k);
    if data.Err? {
      return Err(data.error);
    }
    var sources, unreadable := data.value.0, data.value.1;
    if unreadable == 0 {
      return Ok((sources, false));
    }
    var parity := OpenShards(shards, scheme.k, |shards|);
    if parity.Err? {
      return Err(parity.error);
    }
    JoinDistinct(sources, parity.value.0, scheme.k);
    sources, unreadable := sources + parity.value.0, unreadable + parity.value.1;
    AllOpenable(shards, sources);
    if unreadable > scheme.m {
      return Err(TooManyUnreadable);
    }
    return Ok((sources, true));
  }

  // ------------------------------------------------------------- one stripe

  ghost predicate AllServe(shards: seq<Shard>, sources: seq<nat>, stripe: nat) {
    forall i <- sources :: i < |shards| && HasBlock(shards[i], stripe)
  }

  /** One block of the stripe from each source, under the source's index. */
  ghost predicate BlocksAt(shards: seq<Shard>, sources: seq<nat>, stripe: nat, received: seq<ShardBlock>) {
    && |received| == |sources| && AllServe(shards, sources, stripe)
    && forall n :: 0 <= n < |sources| ==>
         sources[n] in sources && received[n] == BlockAt(shards[sources[n]], stripe).(index := sources[n])
  }

  /** What each error of a read says of the shards, at stripe `stripe`. */
  ghost predicate FailsFor(shards: seq<Shard>, scheme: Scheme, stripe: nat, length: nat, sum: Checksum, e: GetError) {
    match e
    case WrongAnswer => exists i :: 0 <= i < |shards| && shards[i].Misbehaves?
    case TooManyUnreadable => |Openable(shards)| < scheme.k
    case StreamEndedEarly => exists i :: 0 <= i < |shards| && shards[i].Opens? && !HasBlock(shards[i], stripe)
    case Damaged(i) =>
      i < |shards| && i !in GoodAt(shards, stripe, length, sum) && |GoodAt(shards, stripe, length, sum)| < scheme.k
    case UncleanEnd => exists i :: 0 <= i < |shards| && !EndsWell(shards[i])
    case _ => false
  }

  /** `read_stripe_blocks`. */
  method ReadStripeBlocks(shards: seq<Shard>, sources: seq<nat>, stripe: nat)
    returns (r: Result<seq<ShardBlock>, GetError>)
    requires forall i <- sources :: i < |shards| && shards[i].Opens?
    ensures r.Ok? <==> AllServe(shards, sources, stripe)
    ensures r.Ok? ==> BlocksAt(shards, sources, stripe, r.value)
    ensures r.Err? ==>
              && r.error == StreamEndedEarly
              && exists i :: 0 <= i < |shards| && shards[i].Opens? && !HasBlock(shards[i], stripe)
  {
    var received := [];
    for n := 0 to |sources|
      invariant |received| == n
      invariant forall j :: 0 <= j < n ==>
                  && sources[j] in sources && HasBlock(shards[sources[j]], stripe)
                  && received[j] == BlockAt(shards[sources[j]], stripe).(index := sources[j])
    {
      assert sources[n] in sources;
      if !HasBlock(shards[sources[n]], stripe) {
        return Err(StreamEndedEarly);
      }
      received := received + [BlockAt(shards[sources[n]], stripe).(index := sources[n])];
    }
    return Ok(received);
  }

  /** What decoding sees of the shards: the sources with a good block. */
  lemma UsableAre(shards: seq<Shard>, sources: seq<nat>, stripe: nat, received: seq<ShardBlock>, length: nat, sum: Checksum)
    requires BlocksAt(shards, sources, stripe, received)
    ensures UsableSet(sources, received, length, sum) == GoodAt(shards, stripe, length, sum) * Elements(sources)
  {
    var good := GoodAt(shards, stripe, length, sum) * Elements(sources);
    forall i | i in good ensures i in UsableSet(sources, received, length, sum) {
      var n :| 0 <= n < |sources| && sources[n] == i;
      assert received[n] in received && Good(received[n], length, sum);
    }
    forall i | i in UsableSet(sources, received, length, sum) ensures i in good {
      var b :| b in received && b.index == i && Good(b, length, sum);
      var n :| 0 <= n < |received| && received[n] == b;
    }
  }

  lemma BlocksAccepted(shards: seq<Shard>, scheme: Scheme, sources: seq<nat>, parityOpen: bool, stripe: nat,
                       received: seq<ShardBlock>)
    requires |shards| == scheme.Total() && SourcesOk(shards, scheme, sources, parityOpen)
    requires BlocksAt(shards, sources, stripe, received)
    ensures RequestOk(scheme, sources) && ReceivedOk(sources, received)
  {
    forall n | 0 <= n < |sources| ensures sources[n] < scheme.Total() {
      assert sources[n] in sources;
    }
    forall b | b in received ensures b.index in sources {
      var n :| 0 <= n < |received| && received[n] == b;
    }
  }

  /** Every block of the stripe that passes its checksum is the one written. */
  ghost predicate GenuineAt(shards: seq<Shard>, word: seq<Block>, stripe: nat, length: nat, sum: Checksum) {
    forall i: nat :: i < |shards| && GoodBlock(shards, i, stripe, length, sum) ==>
      i < |word| && BlockAt(shards[i], stripe).bytes == word[i]
  }

  lemma ReceivedGenuine(shards: seq<Shard>, sources: seq<nat>, stripe: nat, received: seq<ShardBlock>, word: seq<Block>,
                        length: nat, sum: Checksum)
    requires BlocksAt(shards, sources, stripe, received) && GenuineAt(shards, word, stripe, length, sum)
    ensures Genuine(received, word, length, sum)
  {
    forall b | b in received && Good(b, length, sum) ensures b.index < |word| && b.bytes == word[b.index] {
      var n :| 0 <= n < |received| && received[n] == b;
      assert GoodBlock(shards, sources[n], stripe, length, sum);
    }
  }

  lemma AllGoodMeans(sources: seq<nat>, good: set<nat>, k: nat)
    requires Distinct(sources) && |sources| >= k
    ensures |good * Elements(sources)| >= k && good * Elements(sources) == Elements(sources) <==> Elements(sources) <= good
  {
    DistinctCount(sources);
    if Elements(sources) <= good {
      assert good * Elements(sources) == Elements(sources);
    }
  }

  /** Decoding from the streams held: the blocks are never refused, too few
      good ones always leave a fault to name, and data is the stripe written. */
  method DecodeFrom(code: Code, sum: Checksum, shards: seq<Shard>, sources: seq<nat>, ghost parityOpen: bool, stripe: nat,
                    received: seq<ShardBlock>, length: nat, ghost data: seq<Byte>)
    returns (d: DecodedStripe)
    requires WellFormed(code) && |shards| == code.scheme.Total() && length > 0
    requires SourcesOk(shards, code.scheme, sources, parityOpen) && BlocksAt(shards, sources, stripe, received)
    ensures var good := GoodAt(shards, stripe, CeilDiv(length, code.scheme.k), sum) * Elements(sources);
            d.Unrecoverable? <==> |good| < code.scheme.k
    ensures d.Intact? <==> Elements(sources) <= GoodAt(shards, stripe, CeilDiv(length, code.scheme.k), sum)
    ensures d.Unrecoverable? ==>
              && d.faults != []
              && forall f <- d.faults ::
                   f.index in sources && f.index !in GoodAt(shards, stripe, CeilDiv(length, code.scheme.k), sum)
    ensures (&& !d.Unrecoverable? && |data| == length && RecoversFromAnyK(code)
             && GenuineAt(shards, StripeWord(code, data), stripe, CeilDiv(length, code.scheme.k), sum)) ==> d.data == data
  {
    BlocksAccepted(shards, code.scheme, sources, parityOpen, stripe, received);
    AllGoodMeans(sources, GoodAt(shards, stripe, CeilDiv(length, code.scheme.k), sum), code.scheme.k);
    UsableAre(shards, sources, stripe, received, CeilDiv(length, code.scheme.k), sum);
    var r := DecodeStripe(code, sum, sources, received, length);
    assert r.Ok?;
    d := r.value;
    if !d.Unrecoverable? && |data| == length && RecoversFromAnyK(code)
       && GenuineAt(shards, StripeWord(code, data), stripe, CeilDiv(length, code.scheme.k), sum) {
      ReceivedGenuine(shards, sources, stripe, received, StripeWord(code, data), CeilDiv(length, code.scheme.k), sum);
    }
  }

  /** Every source is good exactly when every shard that opens is; all of them
      good is enough. */
  lemma IntactIsEnough(shards: seq<Shard>, scheme: Scheme, sources: seq<nat>, stripe: nat, length: nat, sum: Checksum)
    requires Distinct(sources) && |sources| >= scheme.k
    requires Elements(sources) <= GoodAt(shards, stripe, length, sum)
    ensures |GoodAt(shards, stripe, length, sum)| >= scheme.k
  {
    DistinctCount(sources);
    SubsetCount(Elements(sources), GoodAt(shards, stripe, length, sum));
  }

  lemma EveryGoodIsHeld(shards: seq<Shard>, scheme: Scheme, sources: seq<nat>, stripe: nat, length: nat, sum: Checksum)
    requires SourcesOk(shards, scheme, sources, true)
    ensures GoodAt(shards, stripe, length, sum) * Elements(sources) == GoodAt(shards, stripe, length, sum)
  {
  }

  /** The shards `from .. to` are asked for this stripe without failing the
      read: none answers wrongly, and each that opens has a block. */
  ghost predicate AnsweredAt(shards: seq<Shard>, from: nat, to: nat, stripe: nat)
    requires from <= to <= |shards|
  {
    forall i :: from <= i < to ==> !shards[i].Misbehaves? && (shards[i].Opens? ==> HasBlock(shards[i], stripe))
  }

  /** One more set of streams, for parity, from this stripe on. */
  method OpenParity(shards: seq<Shard>, scheme: Scheme, sources: seq<nat>, stripe: nat, received: seq<ShardBlock>)
    returns (r: Result<(seq<nat>, seq<ShardBlock>), GetError>)
    requires |shards| == scheme.Total() && SourcesOk(shards, scheme, sources, false)
    requires BlocksAt(shards, sources, stripe, received)
    ensures r.Ok? ==> SourcesOk(shards, scheme, r.value.0, true) && BlocksAt(shards, r.value.0, stripe, r.value.1)
    ensures r.Ok? <==> AnsweredAt(shards, scheme.k, |shards|, stripe)
    ensures r.Err? ==> forall length, sum :: FailsFor(shards, scheme, stripe, length, sum, r.error)
    ensures r.Ok? ==> forall i :: scheme.k <= i < |shards| ==> !shards[i].Misbehaves?
  {
    var parity := OpenShards(shards, scheme.k, |shards|);
    if parity.Err? {
      return Err(parity.error);
    }
    var blocks := ReadStripeBlocks(shards, parity.value.0, stripe);
    if blocks.Err? {
      return Err(blocks.error);
    }
    JoinSources(shards, scheme, sources, parity.value.0, stripe, received, blocks.value);
    return Ok((sources + parity.value.0, received + blocks.value));
  }

  lemma JoinSources(shards: seq<Shard>, scheme: Scheme, sources: seq<nat>, parity: seq<nat>, stripe: nat,
                    received: seq<ShardBlock>, more: seq<ShardBlock>)
    requires SourcesOk(shards, scheme, sources, false) && BlocksAt(shards, sources, stripe, received)
    requires Distinct(parity) && forall i: nat :: i in parity <==> scheme.k <= i < |shards| && shards[i].Opens?
    requires BlocksAt(shards, parity, stripe, more)
    ensures SourcesOk(shards, scheme, sources + parity, true)
    ensures BlocksAt(shards, sources + parity, stripe, received + more)
  {
    JoinDistinct(sources, parity, scheme.k);
    var all := sources + parity;
    forall i: nat ensures i in all <==> i < |shards| && shards[i].Opens? {
    }
    forall n | 0 <= n < |all| ensures (received + more)[n] == BlockAt(shards[all[n]], stripe).(index := all[n]) {
      assert all[n] in all;
    }
  }

  /** What one stripe needs of the streams: every stream held has its block;
      and either all those blocks are good, or parity answers where it was not
      held yet and at least k of all the shards have a good block. */
  ghost predicate StripeReads(shards: seq<Shard>, scheme: Scheme, sources: seq<nat>, parityOpen: bool, stripe: nat,
                              length: nat, sum: Checksum)
    requires |shards| == scheme.Total()
  {
    && AllServe(shards, sources, stripe)
    && (|| Elements(sources) <= GoodAt(shards, stripe, length, sum)
        || (&& (parityOpen || AnsweredAt(shards, scheme.k, |shards|, stripe))
            && |GoodAt(shards, stripe, length, sum)| >= scheme.k))
  }

  datatype Progress = Progress(sources: seq<nat>, parityOpen: bool, data: seq<Byte>)

  /** One turn of the read loop: decode from the streams held; at the first
      damage open parity and decode again. */
  method ReadStripe(code: Code, sum: Checksum, shards: seq<Shard>, sources: seq<nat>, parityOpen: bool, stripe: nat,
                    length: nat, ghost data: seq<Byte>)
    returns (r: Result<Progress, GetError>)
    requires WellFormed(code) && |shards| == code.scheme.Total() && length > 0
    requires SourcesOk(shards, code.scheme, sources, parityOpen)
    ensures r.Ok? ==> SourcesOk(shards, code.scheme, r.value.sources, r.value.parityOpen)
    ensures r.Ok? <==>
              StripeReads(shards, code.scheme, sources, parityOpen, stripe, CeilDiv(length, code.scheme.k), sum)
    ensures r.Err? ==> FailsFor(shards, code.scheme, stripe, CeilDiv(length, code.scheme.k), sum, r.error)
    ensures r.Ok? ==> (r.value.parityOpen <==>
              parityOpen || !(Elements(sources) <= GoodAt(shards, stripe, CeilDiv(length, code.scheme.k), sum)))
    ensures r.Ok? && r.value.parityOpen && !parityOpen ==>
              forall i :: code.scheme.k <= i < |shards| ==> !shards[i].Misbehaves?
    ensures (&& r.Ok? && |data| == length && RecoversFromAnyK(code)
             && GenuineAt(shards, StripeWord(code, data), stripe, CeilDiv(length, code.scheme.k), sum)) ==>
              r.value.data == data
  {
    var first := ReadStripeBlocks(shards, sources, stripe);
    if first.Err? {
      return Err(first.error);
    }
    var held, wide, received := sources, parityOpen, first.value;
    var decoded := DecodeFrom(code, sum, shards, held, wide, stripe, received, length, data);
    if !wide && !decoded.Intact? {
      var more := OpenParity(shards, code.scheme, held, stripe, received);
      if more.Err? {
        return Err(more.error);
      }
      held, wide, received := more.value.0, true, more.value.1;
      decoded := DecodeFrom(code, sum, shards, held, wide, stripe, received, length, data);
    }
    if wide {
      EveryGoodIsHeld(shards, code.scheme, held, stripe, CeilDiv(length, code.scheme.k), sum);
    } else {
      IntactIsEnough(shards, code.scheme, held, stripe, CeilDiv(length, code.scheme.k), sum);
    }
    match decoded
    case Intact(found) => return Ok(Progress(held, wide, found));
    case Repaired(found, _) => return Ok(Progress(held, wide, found));
    case Unrecoverable(_, _, faults) => return Err(Damaged(faults[0].index));
  }

  // ------------------------------------------------------- the whole object

  /** The shards hold blocks of these stripes: whatever passes its checksum is
      what was written. */
  ghost predicate Holding(code: Code, sum: Checksum, stripes: seq<Block>, shards: seq<Shard>)
    requires code.scheme.k > 0
  {
    forall s :: 0 <= s < |stripes| ==>
      GenuineAt(shards, StripeWord(code, stripes[s]), s, CeilDiv(|stripes[s]|, code.scheme.k), sum)
  }

  /** At least k shards are good in each of the first `n` stripes. */
  ghost predicate Recoverable(code: Code, sum: Checksum, stripes: seq<Block>, shards: seq<Shard>, n: nat)
    requires code.scheme.k > 0 && n <= |stripes|
  {
    forall s :: 0 <= s < n ==>
      |GoodAt(shards, s, CeilDiv(|stripes[s]|, code.scheme.k), sum)| >= code.scheme.k
  }

  /** The bytes of the first `n` stripes, if nothing went undetected. */
  ghost predicate Delivered(code: Code, sum: Checksum, stripes: seq<Block>, shards: seq<Shard>, n: nat, delivered: seq<Byte>)
    requires code.scheme.k > 0 && n <= |stripes|
  {
    RecoversFromAnyK(code) && Holding(code, sum, stripes, shards) ==> delivered == Flatten(stripes[..n])
  }

  lemma DeliverNext(code: Code, sum: Checksum, stripes: seq<Block>, shards: seq<Shard>, n: nat, delivered: seq<Byte>,
                    data: seq<Byte>)
    requires code.scheme.k > 0 && n < |stripes| && Delivered(code, sum, stripes, shards, n, delivered)
    requires RecoversFromAnyK(code) && Holding(code, sum, stripes, shards) ==> data == stripes[n]
    ensures Delivered(code, sum, stripes, shards, n + 1, delivered + data)
  {
    FlattenSnoc(stripes[..n], stripes[n]);
    assert stripes[..n + 1] == stripes[..n] + [stripes[n]];
  }

  lemma DeliverAll(code: Code, sum: Checksum, stripes: seq<Block>, shards: seq<Shard>, delivered: seq<Byte>)
    requires code.scheme.k > 0
    ensures Delivered(code, sum, stripes, shards, 0, [])
    ensures (&& Delivered(code, sum, stripes, shards, |stripes|, delivered) && RecoversFromAnyK(code)
             && Holding(code, sum, stripes, shards)) ==> delivered == Flatten(stripes)
  {
    assert stripes[..|stripes|] == stripes;
  }

  /** Every data shard has a good block for stripe `s`. */
  ghost predicate DataGoodAt(code: Code, sum: Checksum, stripes: seq<Block>, shards: seq<Shard>, s: nat)
    requires code.scheme.k > 0 && |shards| == code.scheme.Total() && s < |stripes|
  {
    forall i :: 0 <= i < code.scheme.k ==>
      GoodBlock(shards, i, s, CeilDiv(|stripes[s]|, code.scheme.k), sum)
  }

  /** The first stripe from `s` on with a data block that is not good, where a
      read turns to parity; the number of stripes if there is none. */
  ghost function FirstDamage(code: Code, sum: Checksum, stripes: seq<Block>, shards: seq<Shard>, s: nat): (f: nat)
    requires code.scheme.k > 0 && |shards| == code.scheme.Total() && s <= |stripes|
    ensures s <= f <= |stripes|
    ensures forall j :: s <= j < f ==> DataGoodAt(code, sum, stripes, shards, j)
    ensures f < |stripes| ==> !DataGoodAt(code, sum, stripes, shards, f)
    decreases |stripes| - s
  {
    if s < |stripes| && DataGoodAt(code, sum, stripes, shards, s) then FirstDamage(code, sum, stripes, shards, s + 1) else s
  }

  /** None of the shards `from .. to` answers wrongly, and each that opens has
      a block, good or not, for each of the stripes `first .. last`. */
  ghost predicate Streaming(shards: seq<Shard>, from: nat, to: nat, first: nat, last: nat)
    requires from <= to <= |shards|
  {
    forall i :: from <= i < to ==>
      !shards[i].Misbehaves? && (shards[i].Opens? ==> forall s :: first <= s < last ==> HasBlock(shards[i], s))
  }

  /** The streams of the shards `from .. to` end cleanly. */
  ghost predicate EndClean(shards: seq<Shard>, from: nat, to: nat)
    requires from <= to <= |shards|
  {
    forall i :: from <= i < to ==> EndsWell(shards[i])
  }

  /** What a read needs of the streams, besides enough good blocks: those of
      the data shards hold out to a clean end, and those of the parity shards
      do from the first damaged stripe on. An empty object needs no streams. */
  ghost predicate StreamsHold(code: Code, sum: Checksum, stripes: seq<Block>, shards: seq<Shard>)
    requires code.scheme.k > 0 && |shards| == code.scheme.Total()
  {
    var f := FirstDamage(code, sum, stripes, shards, 0);
    stripes == []
    || (&& Streaming(shards, 0, code.scheme.k, 0, |stripes|) && EndClean(shards, 0, code.scheme.k)
        && (f < |stripes| ==>
              Streaming(shards, code.scheme.k, |shards|, f, |stripes|) && EndClean(shards, code.scheme.k, |shards|)))
  }

  /** Every stripe has at least k good shards and the streams hold out. */
  ghost predicate Readable(code: Code, sum: Checksum, stripes: seq<Block>, shards: seq<Shard>)
    requires code.scheme.k > 0 && |shards| == code.scheme.Total()
  {
    StreamsHold(code, sum, stripes, shards) && Recoverable(code, sum, stripes, shards, |stripes|)
  }

  /** All data blocks good is enough good blocks. */
  lemma DataIsEnough(code: Code, sum: Checksum, stripes: seq<Block>, shards: seq<Shard>, s: nat)
    requires code.scheme.k > 0 && |shards| == code.scheme.Total() && s < |stripes|
    requires DataGoodAt(code, sum, stripes, shards, s)
    ensures |GoodAt(shards, s, CeilDiv(|stripes[s]|, code.scheme.k), sum)| >= code.scheme.k
  {
    BelowMembers(code.scheme.k);
    SubsetCount(Below(code.scheme.k), GoodAt(shards, s, CeilDiv(|stripes[s]|, code.scheme.k), sum));
  }

  /** How far a read has come before stripe `n`: whether parity is held says
      where the first damage is, and nothing that was asked for failed. */
  ghost predicate ReadUpTo(code: Code, sum: Checksum, stripes: seq<Block>, shards: seq<Shard>, parityOpen: bool, n: nat)
    requires code.scheme.k > 0 && |shards| == code.scheme.Total() && n <= |stripes|
  {
    var f := FirstDamage(code, sum, stripes, shards, 0);
    && Streaming(shards, 0, code.scheme.k, 0, n)
    && (if parityOpen then f <= n && f < |stripes| && Streaming(shards, code.scheme.k, |shards|, f, n) else n <= f)
    && (!parityOpen ==> forall i :: 0 <= i < code.scheme.k ==> shards[i].Opens?)
    && Recoverable(code, sum, stripes, shards, n)
  }

  /** The streams held without parity are the data shards'. */
  lemma HeldIsData(code: Code, sum: Checksum, stripes: seq<Block>, shards: seq<Shard>, sources: seq<nat>, n: nat)
    requires code.scheme.k > 0 && |shards| == code.scheme.Total() && n < |stripes|
    requires SourcesOk(shards, code.scheme, sources, false) && forall i :: 0 <= i < code.scheme.k ==> shards[i].Opens?
    ensures DataGoodAt(code, sum, stripes, shards, n) <==>
              Elements(sources) <= GoodAt(shards, n, CeilDiv(|stripes[n]|, code.scheme.k), sum)
  {
    var good := GoodAt(shards, n, CeilDiv(|stripes[n]|, code.scheme.k), sum);
    forall i: nat | i < code.scheme.k ensures i in Elements(sources) {
    }
    if DataGoodAt(code, sum, stripes, shards, n) {
      forall i | i in Elements(sources) ensures i in good {
      }
    }
    if Elements(sources) <= good {
      forall i | 0 <= i < code.scheme.k ensures GoodBlock(shards, i, n, CeilDiv(|stripes[n]|, code.scheme.k), sum) {
        assert i in good;
      }
    }
  }

  /** What the streams held need of stripe `n` is what the data shards need,
      and the parity shards once they are held. */
  lemma HeldAnswer(code: Code, shards: seq<Shard>, sources: seq<nat>, parityOpen: bool, n: nat)
    requires |shards| == code.scheme.Total() && SourcesOk(shards, code.scheme, sources, parityOpen)
    requires forall i :: 0 <= i < (if parityOpen then |shards| else code.scheme.k) ==> !shards[i].Misbehaves?
    ensures AllServe(shards, sources, n) <==>
              && AnsweredAt(shards, 0, code.scheme.k, n)
              && (parityOpen ==> AnsweredAt(shards, code.scheme.k, |shards|, n))
  {
    if AllServe(shards, sources, n) {
      forall i: nat | i < (if parityOpen then |shards| else code.scheme.k) && shards[i].Opens? ensures HasBlock(shards[i], n) {
        assert i in sources;
      }
    }
  }

  lemma StreamingNext(shards: seq<Shard>, from: nat, to: nat, first: nat, n: nat, last: nat)
    requires from <= to <= |shards| && first <= n < last
    ensures Streaming(shards, from, to, first, n + 1) <==>
              Streaming(shards, from, to, first, n) && AnsweredAt(shards, from, to, n)
    ensures Streaming(shards, from, to, first, last) ==> AnsweredAt(shards, from, to, n)
  {
    if Streaming(shards, from, to, first, last) {
      forall i | from <= i < to && shards[i].Opens? ensures HasBlock(shards[i], n) {
      }
    }
  }

  /** One stripe takes a read one stripe further, or shows that the object
      cannot be read. */
  lemma ReadOn(code: Code, sum: Checksum, stripes: seq<Block>, shards: seq<Shard>, sources: seq<nat>, parityOpen: bool, n: nat)
    requires code.scheme.k > 0 && |shards| == code.scheme.Total() && n < |stripes|
    requires SourcesOk(shards, code.scheme, sources, parityOpen) && ReadUpTo(code, sum, stripes, shards, parityOpen, n)
    ensures var length := CeilDiv(|stripes[n]|, code.scheme.k);
            var wide := parityOpen || !(Elements(sources) <= GoodAt(shards, n, length, sum));
            if StripeReads(shards, code.scheme, sources, parityOpen, n, length, sum)
            then ReadUpTo(code, sum, stripes, shards, wide, n + 1)
            else !Readable(code, sum, stripes, shards)
  {
    var f := FirstDamage(code, sum, stripes, shards, 0);
    HeldAnswer(code, shards, sources, parityOpen, n);
    StreamingNext(shards, 0, code.scheme.k, 0, n, |stripes|);
    RecoverableNext(code, sum, stripes, shards, n);
    if parityOpen {
      StreamingNext(shards, code.scheme.k, |shards|, f, n, |stripes|);
      WideReadOn(code, sum, stripes, shards, sources, n);
    } else {
      HeldIsData(code, sum, stripes, shards, sources, n);
      if DataGoodAt(code, sum, stripes, shards, n) {
        DataIsEnough(code, sum, stripes, shards, n);
      } else {
        assert f == n;
        StreamingNext(shards, code.scheme.k, |shards|, f, n, |stripes|);
      }
    }
  }

  lemma WideReadOn(code: Code, sum: Checksum, stripes: seq<Block>, shards: seq<Shard>, sources: seq<nat>, n: nat)
    requires code.scheme.k > 0 && |shards| == code.scheme.Total() && n < |stripes|
    requires SourcesOk(shards, code.scheme, sources, true)
    ensures StripeReads(shards, code.scheme, sources, true, n, CeilDiv(|stripes[n]|, code.scheme.k), sum) <==>
              && AllServe(shards, sources, n)
              && |GoodAt(shards, n, CeilDiv(|stripes[n]|, code.scheme.k), sum)| >= code.scheme.k
  {
    if Elements(sources) <= GoodAt(shards, n, CeilDiv(|stripes[n]|, code.scheme.k), sum) {
      IntactIsEnough(shards, code.scheme, sources, n, CeilDiv(|stripes[n]|, code.scheme.k), sum);
    }
  }

  /** A data shard that does not open is damage in the first stripe. */
  lemma ClosedIsDamage(code: Code, sum: Checksum, stripes: seq<Block>, shards: seq<Shard>, i: nat)
    requires code.scheme.k > 0 && |shards| == code.scheme.Total() && stripes != []
    requires i < code.scheme.k && !shards[i].Opens?
    ensures FirstDamage(code, sum, stripes, shards, 0) == 0
  {
    assert !GoodBlock(shards, i, 0, CeilDiv(|stripes[0]|, code.scheme.k), sum);
  }

  /** A read that cannot begin is of an object that cannot be read. */
  lemma RefusedAtFirst(code: Code, sum: Checksum, stripes: seq<Block>, shards: seq<Shard>)
    requires code.scheme.k > 0 && |shards| == code.scheme.Total() && stripes != []
    requires || (exists i :: 0 <= i < code.scheme.k && shards[i].Misbehaves?)
             || (&& (exists i :: 0 <= i < code.scheme.k && !shards[i].Opens?)
                 && ((exists i :: 0 <= i < |shards| && shards[i].Misbehaves?) || |Openable(shards)| < code.scheme.k))
    ensures !Readable(code, sum, stripes, shards)
  {
    if (exists i :: 0 <= i < code.scheme.k && !shards[i].Opens?) && |Openable(shards)| < code.scheme.k {
      SubsetCount(GoodAt(shards, 0, CeilDiv(|stripes[0]|, code.scheme.k), sum), Openable(shards));
    } else if exists i :: 0 <= i < code.scheme.k && !shards[i].Opens? {
      var i :| 0 <= i < code.scheme.k && !shards[i].Opens?;
      ClosedIsDamage(code, sum, stripes, shards, i);
    }
  }

  /** A read that begins has come as far as its first stripe. */
  lemma BegunAtFirst(code: Code, sum: Checksum, stripes: seq<Block>, shards: seq<Shard>, parityOpen: bool)
    requires code.scheme.k > 0 && |shards| == code.scheme.Total() && stripes != []
    requires parityOpen <==> exists i :: 0 <= i < code.scheme.k && !shards[i].Opens?
    requires forall i :: 0 <= i < (if parityOpen then |shards| else code.scheme.k) ==> !shards[i].Misbehaves?
    ensures ReadUpTo(code, sum, stripes, shards, parityOpen, 0)
  {
    if parityOpen {
      var i :| 0 <= i < code.scheme.k && !shards[i].Opens?;
      ClosedIsDamage(code, sum, stripes, shards, i);
    }
  }

  /** The length of a stripe, from the sizes alone. */
  method LengthOfStripe(stripeSize: nat, size: nat, stripe: nat, ghost body: seq<Byte>) returns (length: nat)
    requires stripeSize > 0 && |body| == size && stripe < |Stripes(body, stripeSize)|
    ensures length == |Stripes(body, stripeSize)[stripe]|
  {
    StripeLength(body, stripeSize, stripe);
    var left := size - stripeSize * stripe;
    length := if left < stripeSize then left else stripeSize;
  }

  method NumberOfStripes(stripeSize: nat, size: nat, ghost body: seq<Byte>) returns (count: nat)
    requires stripeSize > 0 && |body| == size
    ensures count == |Stripes(body, stripeSize)|
  {
    StripeCount(body, stripeSize);
    count := CeilDiv(size, stripeSize);
  }

  lemma SomeStripe(body: seq<Byte>, stripeSize: nat)
    requires stripeSize > 0
    ensures Stripes(body, stripeSize) != [] <==> body != []
    ensures Flatten(Stripes(body, stripeSize)) == body
    ensures forall s :: 0 <= s < |Stripes(body, stripeSize)| ==> Stripes(body, stripeSize)[s] != []
  {
  }

  lemma RecoverableNext(code: Code, sum: Checksum, stripes: seq<Block>, shards: seq<Shard>, n: nat)
    requires code.scheme.k > 0 && n < |stripes|
    ensures Recoverable(code, sum, stripes, shards, n + 1) <==>
              && Recoverable(code, sum, stripes, shards, n)
              && |GoodAt(shards, n, CeilDiv(|stripes[n]|, code.scheme.k), sum)| >= code.scheme.k
    ensures Recoverable(code, sum, stripes, shards, |stripes|) ==> Recoverable(code, sum, stripes, shards, n + 1)
  {
  }

  /** One turn of the loop on a body of known size. */
  method ReadNext(code: Code, sum: Checksum, stripeSize: nat, size: nat, shards: seq<Shard>, sources: seq<nat>,
                  parityOpen: bool, stripe: nat, ghost body: seq<Byte>)
    returns (r: Result<Progress, GetError>)
    requires WellFormed(code) && |shards| == code.scheme.Total() && stripeSize > 0 && |body| == size
    requires stripe < |Stripes(body, stripeSize)| && SourcesOk(shards, code.scheme, sources, parityOpen)
    requires ReadUpTo(code, sum, Stripes(body, stripeSize), shards, parityOpen, stripe)
    ensures r.Err? ==>
              && !Readable(code, sum, Stripes(body, stripeSize), shards)
              && FailsSomewhere(code, sum, Stripes(body, stripeSize), shards, r.error)
    ensures r.Ok? ==>
              && SourcesOk(shards, code.scheme, r.value.sources, r.value.parityOpen)
              && ReadUpTo(code, sum, Stripes(body, stripeSize), shards, r.value.parityOpen, stripe + 1)
    ensures r.Ok? && RecoversFromAnyK(code) && Holding(code, sum, Stripes(body, stripeSize), shards) ==>
              r.value.data == Stripes(body, stripeSize)[stripe]
  {
    ghost var stripes := Stripes(body, stripeSize);
    SomeStripe(body, stripeSize);
    ReadOn(code, sum, stripes, shards, sources, parityOpen, stripe);
    var length := LengthOfStripe(stripeSize, size, stripe, body);
    r := ReadStripe(code, sum, shards, sources, parityOpen, stripe, length, stripes[stripe]);
  }

  /** Once all stripes are read, the ends of the streams held decide. */
  lemma ReadToTheEnd(code: Code, sum: Checksum, stripes: seq<Block>, shards: seq<Shard>, sources: seq<nat>, parityOpen: bool)
    requires code.scheme.k > 0 && |shards| == code.scheme.Total()
    requires SourcesOk(shards, code.scheme, sources, parityOpen) && ReadUpTo(code, sum, stripes, shards, parityOpen, |stripes|)
    requires stripes != []
    ensures Readable(code, sum, stripes, shards) <==> forall i <- sources :: EndsWell(shards[i])
  {
    if forall i <- sources :: EndsWell(shards[i]) {
      forall i: nat | i < (if parityOpen then |shards| else code.scheme.k) ensures EndsWell(shards[i]) {
        if shards[i].Opens? {
          assert i in sources;
        }
      }
    }
  }

  /** The end of every stream held. */
  method EndStreams(shards: seq<Shard>, sources: seq<nat>) returns (clean: bool)
    requires forall i <- sources :: i < |shards|
    ensures clean <==> forall i <- sources :: EndsWell(shards[i])
  {
    for n := 0 to |sources|
      invariant forall j :: 0 <= j < n ==> sources[j] in sources && EndsWell(shards[sources[j]])
    {
      assert sources[n] in sources;
      if !EndsWell(shards[sources[n]]) {
        return false;
      }
    }
    return true;
  }

  ghost predicate FailsSomewhere(code: Code, sum: Checksum, stripes: seq<Block>, shards: seq<Shard>, e: GetError)
    requires code.scheme.k > 0
  {
    exists s :: 0 <= s < |stripes| && FailsFor(shards, code.scheme, s, CeilDiv(|stripes[s]|, code.scheme.k), sum, e)
  }

  /** All stripes are read; the ends of the streams decide. */
  method EndRead(code: Code, ghost sum: Checksum, ghost stripes: seq<Block>, shards: seq<Shard>, sources: seq<nat>,
                 ghost parityOpen: bool)
    returns (clean: bool)
    requires code.scheme.k > 0 && |shards| == code.scheme.Total()
    requires SourcesOk(shards, code.scheme, sources, parityOpen) && ReadUpTo(code, sum, stripes, shards, parityOpen, |stripes|)
    requires stripes != []
    ensures clean <==> Readable(code, sum, stripes, shards)
    ensures !clean ==> FailsSomewhere(code, sum, stripes, shards, UncleanEnd)
  {
    ReadToTheEnd(code, sum, stripes, shards, sources, parityOpen);
    clean := EndStreams(shards, sources);
    if !clean {
      assert FailsFor(shards, code.scheme, 0, CeilDiv(|stripes[0]|, code.scheme.k), sum, UncleanEnd);
    }
  }

  /** The read loop over all stripes. */
  method ReadStripes(code: Code, sum: Checksum, stripeSize: nat, size: nat, shards: seq<Shard>, sources0: seq<nat>,
                     parityOpen0: bool, ghost body: seq<Byte>)
    returns (r: Result<seq<Byte>, GetError>)
    requires WellFormed(code) && |shards| == code.scheme.Total() && stripeSize > 0 && |body| == size
    requires size > 0 ==>
               && SourcesOk(shards, code.scheme, sources0, parityOpen0)
               && ReadUpTo(code, sum, Stripes(body, stripeSize), shards, parityOpen0, 0)
    ensures r.Ok? <==> Readable(code, sum, Stripes(body, stripeSize), shards)
    ensures r.Err? ==> FailsSomewhere(code, sum, Stripes(body, stripeSize), shards, r.error)
    ensures r.Ok? && RecoversFromAnyK(code) && Holding(code, sum, Stripes(body, stripeSize), shards) ==> r.value == body
  {
    ghost var stripes := Stripes(body, stripeSize);
    SomeStripe(body, stripeSize);
    var count := NumberOfStripes(stripeSize, size, body);
    var sources, parityOpen, delivered: seq<Byte> := sources0, parityOpen0, [];
    DeliverAll(code, sum, stripes, shards, []);
    for stripe := 0 to count
      invariant size > 0 ==>
                  && SourcesOk(shards, code.scheme, sources, parityOpen)
                  && ReadUpTo(code, sum, stripes, shards, parityOpen, stripe)
      invariant Delivered(code, sum, stripes, shards, stripe, delivered)
    {
      var next := ReadNext(code, sum, stripeSize, size, shards, sources, parityOpen, stripe, body);
      if next.Err? {
        return Err(next.error);
      }
      DeliverNext(code, sum, stripes, shards, stripe, delivered, next.value.data);
      sources, parityOpen, delivered := next.value.sources, next.value.parityOpen, delivered + next.value.data;
    }
    DeliverAll(code, sum, stripes, shards, delivered);
    if size > 0 {
      var clean := EndRead(code, sum, stripes, shards, sources, parityOpen);
      if !clean {
        return Err(UncleanEnd);
      }
    }
    return Ok(delivered);
  }

  /** `get_object` from a readable record on. Whatever is delivered has the
      recorded size and checksum. The object is delivered if and only if every
      stripe has at least k good shards and the streams hold out, and then it
      is the body written, whichever shards were asked first. */
  method GetObject(code: Code, sum: Checksum, blockSize: nat, size: nat, objectChecksum: nat, shards: seq<Shard>,
                   ghost body: seq<Byte>)
    returns (r: Result<seq<Byte>, GetError>)
    requires WellFormed(code) && |shards| == code.scheme.Total()
    ensures r.Ok? ==> |r.value| == size && sum(r.value) == objectChecksum
    ensures blockSize == 0 ==> r == Err(ImpossibleSize)
    ensures blockSize > 0 ==> code.scheme.k * blockSize > 0
    ensures blockSize > 0 && |body| == size && sum(body) == objectChecksum && RecoversFromAnyK(code) ==>
              var stripes := Stripes(body, code.scheme.k * blockSize);
              Holding(code, sum, stripes, shards) ==>
                && (r.Ok? ==> r.value == body)
                && (r.Ok? <==> Readable(code, sum, stripes, shards))
                && (r.Err? ==> FailsSomewhere(code, sum, stripes, shards, r.error))
  {
    if blockSize == 0 {
      return Err(ImpossibleSize);
    }
    PositiveProduct(code.scheme.k, blockSize);
    var stripeSize := code.scheme.k * blockSize;
    ghost var written := if |body| == size then body else Zeros(size);
    SomeStripe(written, stripeSize);
    var sources: seq<nat>, parityOpen := [], false;
    if size > 0 {
      var first := OpenFirst(shards, code.scheme);
      if first.Err? {
        RefusedAtFirst(code, sum, Stripes(written, stripeSize), shards);
        return Err(first.error);
      }
      sources, parityOpen := first.value.0, first.value.1;
      BegunAtFirst(code, sum, Stripes(written, stripeSize), shards, parityOpen);
    }
    var delivered := ReadStripes(code, sum, stripeSize, size, shards, sources, parityOpen, written);
    if delivered.Err? {
      return Err(delivered.error);
    }
    if |delivered.value| != size || sum(delivered.value) != objectChecksum {
      return Err(ObjectMismatch);
    }
    return delivered;
  }

  // --------------------------------------------------------- the round trip

  /** The blocks a node streams of an open file: each of the first `count`,
      unless it lies on a bad sector or cannot be read. */
  function Streamed(r: Reader, bad: set<nat>, count: nat): (blocks: seq<Option<ShardBlock>>)
    ensures |blocks| == count
  {
    seq(count, i requires 0 <= i < count =>
      if i in bad then None
      else match ReadBlock(r, i)
        case Err(_) => None
        case Ok(b) => Some(b))
  }

  /** `get_shard`: what a node makes of a request for a whole shard, `bad` the
      blocks of the file that its device fails to read. */
  function Served(file: seq<Byte>, bad: set<nat>, count: nat, sum: Checksum): Shard {
    match Open(file, sum)
    case Err(_) => Unreadable
    case Ok(reader) => if count > reader.footer.blockCount then Misbehaves else Opens(Streamed(reader, bad, count), true)
  }

  /** A finished file is served as the blocks it was made of. */
  lemma FinishedFileServes(h: Header, blocks: seq<Block>, size: U64, checksum: U64, sum: Checksum)
    requires HeaderOk(h) && Stacked(blocks, h.blockLength) && Addressable(h, blocks) && FitsGeometry(h, blocks, size)
    ensures var shard := Served(FileBytes(h, blocks, size, checksum, sum), {}, |blocks|, sum);
            && shard.Opens? && shard.clean && |shard.blocks| == |blocks|
            && forall j :: 0 <= j < |blocks| ==>
                 shard.blocks[j] == Some(ShardBlock(h.shardIndex, blocks[j], sum(blocks[j])))
  {
    FinishedFileOpens(h, blocks, size, checksum, sum);
    forall i | 0 <= i < |blocks|
      ensures ReadBlock(Reader(h, FooterFor(h, blocks, size, checksum, sum), FileBytes(h, blocks, size, checksum, sum)), i)
           == Ok(ShardBlock(h.shardIndex, blocks[i], sum(blocks[i])))
    {
      FinishedBlockReadsBack(h, blocks, size, checksum, sum, i);
    }
  }

  /** What shard `i` of a body serves as long as nothing happens to it. */
  ghost predicate Serves(shard: Shard, code: Code, sum: Checksum, stripes: seq<Block>, i: nat)
    requires code.scheme.k > 0 && i < code.scheme.Total() && Rectangular(code, stripes)
  {
    && shard.Opens? && shard.clean && |shard.blocks| == |stripes|
    && forall j :: 0 <= j < |stripes| ==>
         shard.blocks[j] == Some(ShardBlock(i, Column(code, stripes, i)[j], sum(Column(code, stripes, i)[j])))
  }

  /** The shards that no longer have their block of stripe `s`. */
  ghost function LostAt(code: Code, sum: Checksum, stripes: seq<Block>, shards: seq<Shard>, s: nat): set<nat>
    requires code.scheme.k > 0 && Rectangular(code, stripes) && s < |stripes|
  {
    set i: nat | i < |shards| && !(i < code.scheme.Total() && HasBlock(shards[i], s)
      && BlockAt(shards[i], s) == ShardBlock(i, Column(code, stripes, i)[s], sum(Column(code, stripes, i)[s])))
  }

  /** At most m lost blocks in a stripe leave k good ones. */
  lemma LossLeavesEnough(code: Code, sum: Checksum, stripes: seq<Block>, shards: seq<Shard>, s: nat)
    requires WellFormed(code) && Rectangular(code, stripes) && s < |stripes| && stripes[s] != []
    requires |shards| == code.scheme.Total() && |LostAt(code, sum, stripes, shards, s)| <= code.scheme.m
    ensures |GoodAt(shards, s, CeilDiv(|stripes[s]|, code.scheme.k), sum)| >= code.scheme.k
  {
    var good := GoodAt(shards, s, CeilDiv(|stripes[s]|, code.scheme.k), sum);
    var lost := LostAt(code, sum, stripes, shards, s);
    var all := Below(code.scheme.Total());
    BelowMembers(code.scheme.Total());
    StripeWordShape(code, stripes[s]);
    forall i | i in all - lost ensures i in good {
      assert |Column(code, stripes, i)[s]| == CeilDiv(|stripes[s]|, code.scheme.k);
    }
    DifferenceCount(all, lost);
    SubsetCount(all - lost, good);
  }

  /** The frames one shard's node receives: its block of every row, then the
      end naming the object's size and checksum. */
  function ShardStream(sent: seq<seq<ShardBlock>>, i: nat, size: nat, checksum: U64): seq<Message>
    requires forall j :: 0 <= j < |sent| ==> i < |sent[j]|
  {
    seq(|sent|, j requires 0 <= j < |sent| => Data(j, sent[j][i].bytes, sent[j][i].checksum))
    + [EndOfStream(false, Some(size), Some(checksum))]
  }

  lemma SentRows(code: Code, sum: Checksum, stripes: seq<Block>, i: nat)
    requires code.scheme.k > 0 && Rectangular(code, stripes) && i < code.scheme.Total()
    ensures forall j :: 0 <= j < |stripes| ==>
              && i < |Sent(code, sum, stripes)[j]|
              && Sent(code, sum, stripes)[j][i] ==
                   ShardBlock(i, Column(code, stripes, i)[j], sum(Column(code, stripes, i)[j]))
  {
  }

  /** What a correct coordinator sends is never refused: the stream makes up a
      whole shard, whose blocks are the shard's column. */
  lemma StreamCompletes(code: Code, sum: Checksum, body: seq<Byte>, h: Header, size: U64, checksum: U64)
    requires WellFormed(code) && HeaderOk(h) && h.scheme == code.scheme && h.blockLength > 0
    requires body != [] && |body| == size && code.scheme.k * h.blockLength > 0
    requires Rectangular(code, Stripes(body, code.scheme.k * h.blockLength))
    ensures var stripes := Stripes(body, code.scheme.k * h.blockLength);
            var sent := Sent(code, sum, stripes);
            && (forall j :: 0 <= j < |sent| ==> h.shardIndex < |sent[j]|)
            && var messages := ShardStream(sent, h.shardIndex, size, checksum);
               && Payloads(messages[..|stripes|]) == Column(code, stripes, h.shardIndex)
               && ShardCompleteAt(messages, |stripes|, h, size, sum)
               && messages[|stripes|].objectChecksum == Some(checksum)
  {
    GeometryAgrees(code, body, h);
    var stripes := Stripes(body, code.scheme.k * h.blockLength);
    SentRows(code, sum, stripes, h.shardIndex);
    var messages := ShardStream(Sent(code, sum, stripes), h.shardIndex, size, checksum);
    assert Payloads(messages[..|stripes|]) == Column(code, stripes, h.shardIndex);
  }

  /** The file is the finished shard file of these blocks. */
  ghost predicate IsShardFile(file: seq<Byte>, h: Header, blocks: seq<Block>, size: U64, checksum: U64, sum: Checksum) {
    && HeaderOk(h) && Stacked(blocks, h.blockLength) && blocks != [] && Addressable(h, blocks)
    && file == FileBytes(h, blocks, size, checksum, sum)
  }

  /** Storing one shard: the node takes the stream, and the finished file
      serves the shard's column. */
  method StoreShard(code: Code, sum: Checksum, h: Header, size: U64, checksum: U64, sent: seq<seq<ShardBlock>>,
                    ghost body: seq<Byte>)
    returns (file: seq<Byte>)
    requires WellFormed(code) && HeaderOk(h) && h.scheme == code.scheme && h.blockLength > 0
    requires body != [] && |body| == size && code.scheme.k * h.blockLength > 0
    requires Rectangular(code, Stripes(body, code.scheme.k * h.blockLength))
    requires sent == Sent(code, sum, Stripes(body, code.scheme.k * h.blockLength))
    requires ShardFileLength(code.scheme.k, h.blockLength, size).Some? ==>
               ShardFileLength(code.scheme.k, h.blockLength, size).value < TWO_TO_64
    ensures var stripes := Stripes(body, code.scheme.k * h.blockLength);
            && IsShardFile(file, h, Column(code, stripes, h.shardIndex), size, checksum, sum)
            && Serves(Served(file, {}, |stripes|, sum), code, sum, stripes, h.shardIndex)
  {
    StreamCompletes(code, sum, body, h, size, checksum);
    var messages := ShardStream(sent, h.shardIndex, size, checksum);
    var r := ReceiveShard(h, sum, size, messages);
    ghost var stripes := Stripes(body, code.scheme.k * h.blockLength);
    assert ShardCompleteAt(messages, |stripes|, h, size, sum);
    assert r.Ok?;
    file := r.value;
    FinishedFileServes(h, Column(code, stripes, h.shardIndex), size, checksum, sum);
  }

  /** At most m blocks of each stripe are lost, in whatever way, and no damage
      goes undetected. */
  ghost predicate Survives(code: Code, sum: Checksum, stripes: seq<Block>, shards: seq<Shard>)
    requires code.scheme.k > 0 && Rectangular(code, stripes)
  {
    && |shards| == code.scheme.Total() && Holding(code, sum, stripes, shards)
    && forall s :: 0 <= s < |stripes| ==> |LostAt(code, sum, stripes, shards, s)| <= code.scheme.m
  }

  lemma SurvivorsRecoverable(code: Code, sum: Checksum, stripes: seq<Block>, shards: seq<Shard>)
    requires WellFormed(code) && Rectangular(code, stripes) && Survives(code, sum, stripes, shards)
    requires forall s :: 0 <= s < |stripes| ==> stripes[s] != []
    ensures Recoverable(code, sum, stripes, shards, |stripes|)
  {
    forall s | 0 <= s < |stripes|
      ensures |GoodAt(shards, s, CeilDiv(|stripes[s]|, code.scheme.k), sum)| >= code.scheme.k
    {
      LossLeavesEnough(code, sum, stripes, shards, s);
    }
  }

  /** Every shard serves what was written. */
  ghost predicate Untouched(code: Code, sum: Checksum, stripes: seq<Block>, shards: seq<Shard>)
    requires code.scheme.k > 0 && Rectangular(code, stripes)
  {
    |shards| == code.scheme.Total() && forall j :: 0 <= j < |shards| ==> Serves(shards[j], code, sum, stripes, j)
  }

  /** Shards nothing has happened to survive, and their streams hold out. */
  lemma UntouchedSurvive(code: Code, sum: Checksum, stripes: seq<Block>, shards: seq<Shard>)
    requires WellFormed(code) && Rectangular(code, stripes) && Untouched(code, sum, stripes, shards)
    ensures Survives(code, sum, stripes, shards) && StreamsHold(code, sum, stripes, shards)
  {
    forall s | 0 <= s < |stripes| ensures |LostAt(code, sum, stripes, shards, s)| <= code.scheme.m {
      assert LostAt(code, sum, stripes, shards, s) == {};
    }
    forall s | 0 <= s < |stripes|
      ensures GenuineAt(shards, StripeWord(code, stripes[s]), s, CeilDiv(|stripes[s]|, code.scheme.k), sum)
    {
      forall i: nat | i < |shards| ensures BlockAt(shards[i], s).bytes == StripeWord(code, stripes[s])[i] {
        assert BlockAt(shards[i], s).bytes == Column(code, stripes, i)[s];
      }
    }
  }

  /** Shard `i` after its device fails to read the block of stripe `s`. */
  ghost function WithBadSector(shards: seq<Shard>, i: nat, s: nat): seq<Shard>
    requires i < |shards|
  {
    if HasBlock(shards[i], s) then shards[i := shards[i].(blocks := shards[i].blocks[s := None])] else shards
  }

  /** `less` has some of the blocks of `shards`, and no others. */
  ghost predicate Fewer(less: seq<Shard>, shards: seq<Shard>) {
    && |less| == |shards|
    && forall j: nat, t: nat :: j < |less| && HasBlock(less[j], t) ==>
         HasBlock(shards[j], t) && BlockAt(less[j], t) == BlockAt(shards[j], t)
  }

  /** Of untouched shards, what is lost is what is no longer there. */
  lemma LostIsGone(code: Code, sum: Checksum, stripes: seq<Block>, shards: seq<Shard>, less: seq<Shard>, t: nat)
    requires WellFormed(code) && Rectangular(code, stripes) && Untouched(code, sum, stripes, shards)
    requires Fewer(less, shards) && t < |stripes|
    ensures LostAt(code, sum, stripes, less, t) == set j: nat | j < |less| && !HasBlock(less[j], t)
  {
    forall j: nat | j < |less| && HasBlock(less[j], t)
      ensures BlockAt(less[j], t) == ShardBlock(j, Column(code, stripes, j)[t], sum(Column(code, stripes, j)[t]))
    {
      assert Serves(shards[j], code, sum, stripes, j);
    }
  }

  lemma FewerGenuine(shards: seq<Shard>, less: seq<Shard>, word: seq<Block>, t: nat, length: nat, sum: Checksum)
    requires Fewer(less, shards) && GenuineAt(shards, word, t, length, sum)
    ensures GenuineAt(less, word, t, length, sum)
  {
    forall j: nat | j < |less| && GoodBlock(less, j, t, length, sum) ensures GoodBlock(shards, j, t, length, sum) {
    }
  }

  /** Shards that lost the blocks of one of them at most survive. */
  lemma OneLostSurvives(code: Code, sum: Checksum, stripes: seq<Block>, shards: seq<Shard>, less: seq<Shard>, i: nat)
    requires WellFormed(code) && Rectangular(code, stripes) && Untouched(code, sum, stripes, shards)
    requires Fewer(less, shards) && code.scheme.m >= 1
    requires forall j: nat, t: nat :: j < |less| && j != i && t < |stripes| ==> HasBlock(less[j], t)
    ensures Survives(code, sum, stripes, less)
  {
    UntouchedSurvive(code, sum, stripes, shards);
    forall t | 0 <= t < |stripes|
      ensures GenuineAt(less, StripeWord(code, stripes[t]), t, CeilDiv(|stripes[t]|, code.scheme.k), sum)
    {
      FewerGenuine(shards, less, StripeWord(code, stripes[t]), t, CeilDiv(|stripes[t]|, code.scheme.k), sum);
    }
    forall t | 0 <= t < |stripes| ensures |LostAt(code, sum, stripes, less, t)| <= code.scheme.m {
      LostIsGone(code, sum, stripes, shards, less, t);
      SubsetCount(LostAt(code, sum, stripes, less, t), {i});
    }
  }

  /** Losing at most m blocks of each stripe is not enough for a read: with
      every shard as it was written but for one data block that its device
      fails to read, a single block is lost and nothing is delivered. */
  lemma OneBadSector(code: Code, sum: Checksum, stripes: seq<Block>, shards: seq<Shard>, i: nat, s: nat)
    requires WellFormed(code) && Rectangular(code, stripes) && Untouched(code, sum, stripes, shards)
    requires i < code.scheme.k && s < |stripes| && code.scheme.m >= 1
    ensures var hurt := WithBadSector(shards, i, s);
            && Survives(code, sum, stripes, hurt) && !StreamsHold(code, sum, stripes, hurt)
            && forall t :: 0 <= t < |stripes| ==> LostAt(code, sum, stripes, hurt, t) == if t == s then {i} else {}
  {
    var hurt := WithBadSector(shards, i, s);
    assert Serves(shards[i], code, sum, stripes, i);
    assert Fewer(hurt, shards);
    OneLostSurvives(code, sum, stripes, shards, hurt, i);
    forall t | 0 <= t < |stripes| ensures LostAt(code, sum, stripes, hurt, t) == if t == s then {i} else {} {
      LostIsGone(code, sum, stripes, shards, hurt, t);
    }
    assert hurt[i].Opens? && !HasBlock(hurt[i], s);
  }

  /** The same shard gone altogether is read around. */
  lemma OneShardGone(code: Code, sum: Checksum, stripes: seq<Block>, shards: seq<Shard>, i: nat)
    requires WellFormed(code) && Rectangular(code, stripes) && Untouched(code, sum, stripes, shards)
    requires i < code.scheme.Total() && code.scheme.m >= 1
    ensures var rest := shards[i := Unreadable];
            && Survives(code, sum, stripes, rest) && StreamsHold(code, sum, stripes, rest)
            && forall t :: 0 <= t < |stripes| ==> LostAt(code, sum, stripes, rest, t) == {i}
  {
    var rest := shards[i := Unreadable];
    assert Fewer(rest, shards);
    OneLostSurvives(code, sum, stripes, shards, rest, i);
    forall t | 0 <= t < |stripes| ensures LostAt(code, sum, stripes, rest, t) == {i} {
      LostIsGone(code, sum, stripes, shards, rest, t);
    }
  }

  /** A file that opens but has fewer blocks than the object is a wrong answer, and
      for a data shard fails the read; one that does not open is a missing shard. */
  lemma ShortFileFails(code: Code, sum: Checksum, stripes: seq<Block>, shards: seq<Shard>, i: nat, file: seq<Byte>, bad: set<nat>)
    requires code.scheme.k > 0 && |shards| == code.scheme.Total() && i < code.scheme.k && stripes != []
    requires shards[i] == Served(file, bad, |stripes|, sum)
    ensures Open(file, sum).Ok? && Open(file, sum).value.footer.blockCount < |stripes| ==> !Readable(code, sum, stripes, shards)
    ensures Open(file, sum).Err? ==> shards[i] == Unreadable
  {
  }

  /** Each file serves its shard of the stripes. */
  ghost predicate AllStored(files: seq<seq<Byte>>, code: Code, sum: Checksum, stripes: seq<Block>)
    requires code.scheme.k > 0 && Rectangular(code, stripes)
  {
    && |files| <= code.scheme.Total()
    && forall i :: 0 <= i < |files| ==> Serves(Served(files[i], {}, |stripes|, sum), code, sum, stripes, i)
  }

  lemma OneMoreStored(files: seq<seq<Byte>>, file: seq<Byte>, code: Code, sum: Checksum, stripes: seq<Block>)
    requires code.scheme.k > 0 && Rectangular(code, stripes) && AllStored(files, code, sum, stripes)
    requires |files| < code.scheme.Total() && Serves(Served(file, {}, |stripes|, sum), code, sum, stripes, |files|)
    ensures AllStored(files + [file], code, sum, stripes)
  {
  }

  /** All the shards: `h` with each index in turn. */
  method StoreShards(code: Code, sum: Checksum, h: Header, size: U64, checksum: U64, sent: seq<seq<ShardBlock>>,
                     ghost body: seq<Byte>)
    returns (files: seq<seq<Byte>>)
    requires WellFormed(code) && HeaderOk(h) && h.scheme == code.scheme && h.blockLength > 0
    requires body != [] && |body| == size && code.scheme.k * h.blockLength > 0
    requires Rectangular(code, Stripes(body, code.scheme.k * h.blockLength))
    requires sent == Sent(code, sum, Stripes(body, code.scheme.k * h.blockLength))
    requires ShardFileLength(code.scheme.k, h.blockLength, size).Some? ==>
               ShardFileLength(code.scheme.k, h.blockLength, size).value < TWO_TO_64
    ensures |files| == code.scheme.Total() && AllStored(files, code, sum, Stripes(body, code.scheme.k * h.blockLength))
  {
    files := [];
    ghost var stripes := Stripes(body, code.scheme.k * h.blockLength);
    for i := 0 to code.scheme.Total()
      invariant |files| == i && AllStored(files, code, sum, stripes)
    {
      var file := StoreShard(code, sum, h.(shardIndex := i), size, checksum, sent, body);
      OneMoreStored(files, file, code, sum, stripes);
      files := files + [file];
    }
  }

  /** The object round trip: for every body, framing, scheme and block size, put
      stores every shard, and from any shards left after the loss of at most m
      blocks in each stripe get delivers exactly the body, if and only if the
      streams hold out. */
  method PutThenGet(code: Code, sum: Checksum, blockSize: U64, keyHash: seq<Byte>, versionId: seq<Byte>, size: U64,
                    messages: seq<Message>, ghost n: nat, survivors: seq<Shard>)
    returns (files: seq<seq<Byte>>, r: Result<seq<Byte>, GetError>)
    requires WellFormed(code) && RecoversFromAnyK(code) && blockSize > 0 && code.scheme.k * blockSize > 0
    requires |keyHash| == 32 && |versionId| == 16
    requires ShardFileLength(code.scheme.k, blockSize, size).Some? ==>
               ShardFileLength(code.scheme.k, blockSize, size).value < TWO_TO_64
    requires CompleteAt(messages, n, size, sum)
    requires var stripes := Stripes(Body(messages, n), code.scheme.k * blockSize);
             Rectangular(code, stripes) && Survives(code, sum, stripes, survivors)
    ensures |files| == if size > 0 then code.scheme.Total() else 0
    ensures AllStored(files, code, sum, Stripes(Body(messages, n), code.scheme.k * blockSize))
    ensures r.Ok? ==> r.value == Body(messages, n)
    ensures r.Ok? <==> StreamsHold(code, sum, Stripes(Body(messages, n), code.scheme.k * blockSize), survivors)
  {
    ghost var body := Body(messages, n);
    ghost var stripes := Stripes(body, code.scheme.k * blockSize);
    var checksum, sent := StreamBody(code, sum, blockSize, size, messages);
    assert checksum == Ok(sum(body)) && sent == Sent(code, sum, stripes);
    files := [];
    if size > 0 {
      files := StoreShards(code, sum, Header(code.scheme, 0, blockSize, keyHash, versionId), size, checksum.value, sent, body);
    }
    SomeStripe(body, code.scheme.k * blockSize);
    SurvivorsRecoverable(code, sum, stripes, survivors);
    r := GetObject(code, sum, blockSize, size, checksum.value, survivors, body);
  }
}
