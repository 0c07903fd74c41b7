/** Stripe encoding and decoding (crates/djbod-core/src/stripe.rs). */
module Stripe {
  import opened Prelude
  import opened Geometry
  import opened Erasure

  /** A block with the shard it belongs to and the checksum stored for it. */
  datatype ShardBlock = ShardBlock(index: nat, bytes: Block, checksum: nat)

  datatype StripeError = Empty | TooLarge | Coding(error: CodingError) | UnrequestedBlock(index: nat)

  // ------------------------------------------------- splitting and padding

  function Zeros(n: nat): (z: seq<Byte>)
    ensures |z| == n
  {
    seq(n, _ => 0)
  }

  /** `n` consecutive pieces of `length` bytes. */
  function Split(bytes: seq<Byte>, length: nat, n: nat): (pieces: seq<Block>)
    requires |bytes| == length * n
    ensures |pieces| == n
    decreases n
  {
    if n == 0 then [] else
      assert length * n == length + length * (n - 1) by { ProductStep(length, n); }
      [bytes[..length]] + Split(bytes[length..], length, n - 1)
  }

  lemma ProductStep(a: nat, n: nat)
    requires n > 0
    ensures a * n == a + a * (n - 1) && a * (n - 1) >= 0
  {
  }

  function Flatten(pieces: seq<Block>): seq<Byte> {
    if pieces == [] then [] else pieces[0] + Flatten(pieces[1..])
  }

  lemma {:induction false} FlattenSplit(bytes: seq<Byte>, length: nat, n: nat)
    requires |bytes| == length * n
    ensures Flatten(Split(bytes, length, n)) == bytes
    ensures Uniform(Split(bytes, length, n), length)
    decreases n
  {
    if n > 0 {
      ProductStep(length, n);
      FlattenSplit(bytes[length..], length, n - 1);
    }
  }

  lemma {:induction false} PieceAt(bytes: seq<Byte>, length: nat, n: nat, i: nat)
    requires |bytes| == length * n && i < n
    ensures 0 <= length * i && length * i + length <= |bytes|
    ensures Split(bytes, length, n)[i] == bytes[length * i..length * i + length]
    decreases n
  {
    ProductStep(length, n);
    if i > 0 {
      PieceAt(bytes[length..], length, n - 1, i - 1);
      ProductStep(length, i);
    }
  }

  /** The stripe padded with zeros to k whole blocks. */
  function Padded(data: seq<Byte>, k: nat): (p: seq<Byte>)
    requires k > 0
    ensures |p| == CeilDiv(|data|, k) * k && data <= p
  {
    CeilDivMeans(|data|, k, CeilDiv(|data|, k));
    data + Zeros(CeilDiv(|data|, k) * k - |data|)
  }

  /** The k data blocks of a stripe. */
  function DataBlocks(data: seq<Byte>, k: nat): (blocks: seq<Block>)
    requires k > 0
    ensures |blocks| == k
  {
    Split(Padded(data, k), CeilDiv(|data|, k), k)
  }

  lemma DataBlocksProper(code: Code, data: seq<Byte>)
    requires WellFormed(code) && data != []
    ensures Proper(code, DataBlocks(data, code.scheme.k), CeilDiv(|data|, code.scheme.k))
  {
    var k := code.scheme.k;
    FlattenSplit(Padded(data, k), CeilDiv(|data|, k), k);
    CeilDivMeans(|data|, k, CeilDiv(|data|, k));
  }

  /** Joining the data blocks and cutting the padding gives the stripe back. */
  lemma DataBlocksJoin(data: seq<Byte>, k: nat)
    requires k > 0
    ensures |data| <= |Flatten(DataBlocks(data, k))|
    ensures Flatten(DataBlocks(data, k))[..|data|] == data
  {
    FlattenSplit(Padded(data, k), CeilDiv(|data|, k), k);
  }

  /** All k + m blocks of a stripe. */
  function StripeWord(code: Code, data: seq<Byte>): seq<Block>
    requires code.scheme.k > 0
  {
    Codeword(code, DataBlocks(data, code.scheme.k))
  }

  // --------------------------------------------------------------- encode

  function Labelled(word: seq<Block>, sum: Checksum): (blocks: seq<ShardBlock>)
    ensures |blocks| == |word|
  {
    seq(|word|, i requires 0 <= i < |word| => ShardBlock(i, word[i], sum(word[i])))
  }

  /** One data block as the loop cuts it: a slice, resized with zeros. */
  method CutBlock(data: seq<Byte>, k: nat, length: nat, i: nat) returns (block: Block)
    requires k > 0 && i < k && length == CeilDiv(|data|, k)
    ensures block == DataBlocks(data, k)[i]
  {
    PieceAt(Padded(data, k), length, k, i);
    var start := length * i;
    var end := if start + length < |data| then start + length else |data|;
    block := [];
    if start < |data| {
      block := data[start..end];
    }
    block := block + Zeros(length - |block|);
    assert block == Padded(data, k)[start..start + length];
  }

  /** The data loop of `encode_stripe`. */
  method CutBlocks(data: seq<Byte>, k: nat) returns (blocks: seq<Block>)
    requires k > 0
    ensures blocks == DataBlocks(data, k)
  {
    blocks := [];
    for i := 0 to k
      invariant blocks == DataBlocks(data, k)[..i]
    {
      var block := CutBlock(data, k, CeilDiv(|data|, k), i);
      blocks := blocks + [block];
    }
  }

  /** The checksum loop of `encode_stripe`. */
  method Label(word: seq<Block>, sum: Checksum) returns (blocks: seq<ShardBlock>)
    ensures blocks == Labelled(word, sum)
  {
    blocks := [];
    for i := 0 to |word|
      invariant blocks == Labelled(word, sum)[..i]
    {
      blocks := blocks + [ShardBlock(i, word[i], sum(word[i]))];
    }
  }

  lemma StripeWordShape(code: Code, data: seq<Byte>)
    requires WellFormed(code) && data != []
    ensures |StripeWord(code, data)| == code.scheme.Total()
    ensures Uniform(StripeWord(code, data), CeilDiv(|data|, code.scheme.k))
  {
    DataBlocksProper(code, data);
    CodewordShape(code, DataBlocks(data, code.scheme.k), CeilDiv(|data|, code.scheme.k));
  }

  /** `encode_stripe`: the labelled codeword of the padded stripe, k + m
      blocks of one length; refused only when empty or longer than k blocks. */
  method EncodeStripe(code: Code, sum: Checksum, data: seq<Byte>, blockSize: nat)
    returns (r: Result<seq<ShardBlock>, StripeError>)
    requires WellFormed(code)
    ensures data == [] ==> r == Err(Empty)
    ensures data != [] && |data| > code.scheme.k * blockSize ==> r == Err(TooLarge)
    ensures 0 < |data| <= code.scheme.k * blockSize ==> r == Ok(Labelled(StripeWord(code, data), sum))
  {
    if data == [] {
      return Err(Empty);
    }
    if |data| > code.scheme.k * blockSize {
      return Err(TooLarge);
    }
    var blocks := CutBlocks(data, code.scheme.k);
    DataBlocksProper(code, data);
    var parity := ComputeParity(code, blocks);
    assert parity.Ok?;  // the blocks just cut are never refused
    var labelled := Label(blocks + parity.value, sum);
    return Ok(labelled);
  }

  // --------------------------------------------------------------- decode

  datatype FaultKind = Missing | WrongLength | ChecksumMismatch

  datatype BlockFault = BlockFault(index: nat, kind: FaultKind)

  datatype DecodedStripe =
    | Intact(data: seq<Byte>)
    | Repaired(data: seq<Byte>, faults: seq<BlockFault>)
    | Unrecoverable(usable: nat, needed: nat, faults: seq<BlockFault>)

  /** A block is usable on its length and its stored checksum alone. */
  predicate Good(b: ShardBlock, length: nat, sum: Checksum) {
    |b.bytes| == length && sum(b.bytes) == b.checksum
  }

  ghost predicate RequestOk(scheme: Scheme, requested: seq<nat>) {
    InRange(requested, scheme.Total()) && Distinct(requested)
  }

  ghost predicate ReceivedOk(requested: seq<nat>, received: seq<ShardBlock>) {
    && (forall b <- received :: b.index in requested)
    && (forall i, j :: 0 <= i < j < |received| ==> received[i].index != received[j].index)
  }

  /** The requested shards for which a good block arrived. */
  ghost function UsableSet(requested: seq<nat>, received: seq<ShardBlock>, length: nat, sum: Checksum): set<nat> {
    set b | b in received && b.index in requested && Good(b, length, sum) :: b.index
  }

  method NoteRequested(scheme: Scheme, requested: seq<nat>) returns (r: Result<seq<bool>, CodingError>)
    ensures r.Ok? <==> RequestOk(scheme, requested)
    ensures r.Ok? ==> |r.value| == scheme.Total() && forall i :: 0 <= i < scheme.Total() ==> (r.value[i] <==> i in requested)
  {
    var was: seq<bool> := seq(scheme.Total(), _ => false);
    for n := 0 to |requested|
      invariant |was| == scheme.Total()
      invariant InRange(requested[..n], scheme.Total()) && Distinct(requested[..n])
      invariant forall i :: 0 <= i < scheme.Total() ==> (was[i] <==> i in requested[..n])
    {
      var index := requested[n];
      assert requested[..n + 1] == requested[..n] + [index];
      if index >= scheme.Total() {
        return Err(IndexOutOfRange(index));
      }
      if was[index] {
        return Err(DuplicateIndex(index));
      }
      was := was[index := true];
    }
    assert requested[..|requested|] == requested;
    return Ok(was);
  }

  /** `table` holds each received block at its index, and nothing else. */
  ghost predicate Indexed(table: seq<Option<ShardBlock>>, received: seq<ShardBlock>) {
    && (forall b <- received :: b.index < |table| && table[b.index] == Some(b))
    && (forall i :: 0 <= i < |table| && table[i].Some? ==> table[i].value in received && table[i].value.index == i)
  }

  method IndexReceived(scheme: Scheme, requested: seq<nat>, was: seq<bool>, received: seq<ShardBlock>)
    returns (r: Result<seq<Option<ShardBlock>>, StripeError>)
    requires RequestOk(scheme, requested) && |was| == scheme.Total()
    requires forall i :: 0 <= i < scheme.Total() ==> (was[i] <==> i in requested)
    ensures r.Ok? <==> ReceivedOk(requested, received)
    ensures r.Ok? ==> |r.value| == scheme.Total() && Indexed(r.value, received)
  {
    var table: seq<Option<ShardBlock>> := seq(scheme.Total(), _ => None);
    for n := 0 to |received|
      invariant |table| == scheme.Total()
      invariant ReceivedOk(requested, received[..n]) && Indexed(table, received[..n])
    {
      var b := received[n];
      assert received[..n + 1] == received[..n] + [b] && b in received;
      if b.index >= scheme.Total() {
        return Err(Coding(IndexOutOfRange(b.index)));
      }
      if !was[b.index] {
        return Err(UnrequestedBlock(b.index));
      }
      if table[b.index].Some? {
        var i :| 0 <= i < n && received[..n][i] == table[b.index].value;
        assert received[i].index == received[n].index;
        return Err(Coding(DuplicateIndex(b.index)));
      }
      forall i | 0 <= i < n ensures received[i].index != b.index {
        assert received[..n][i] in received[..n];
      }
      table := table[b.index := Some(b)];
    }
    assert received[..|received|] == received;
    return Ok(table);
  }

  /** What the examination of the first `n` shards has found. */
  ghost predicate Examined(requested: seq<nat>, received: seq<ShardBlock>, length: nat, sum: Checksum, n: nat,
                           usable: seq<Placed>, faults: seq<BlockFault>) {
    && (forall p <- usable :: p.index < n && p.index in requested
          && exists b :: b in received && b.index == p.index && b.bytes == p.bytes && Good(b, length, sum))
    && (forall i, j :: 0 <= i < j < |usable| ==> usable[i].index < usable[j].index)
    && (forall f <- faults :: f.index < n && f.index in requested && f.index !in UsableSet(requested, received, length, sum))
    && (forall i :: 0 <= i < n && i in requested ==>
          Holds(usable, i) || exists f :: f in faults && f.index == i)
  }

  lemma {:induction false} UsableCount(usable: seq<Placed>, s: set<nat>)
    requires forall i, j :: 0 <= i < j < |usable| ==> usable[i].index < usable[j].index
    requires forall p <- usable :: p.index in s
    requires forall x :: x in s ==> Holds(usable, x)
    ensures |usable| == |s|
  {
    var indices := seq(|usable|, i requires 0 <= i < |usable| => usable[i].index);
    DistinctCount(indices);
    forall x ensures x in s <==> x in Elements(indices) {
      if x in s {
        var i :| 0 <= i < |usable| && usable[i].index == x;
        assert indices[i] == x;
      }
      if x in Elements(indices) {
        var i :| 0 <= i < |indices| && indices[i] == x;
        assert usable[i] in usable;
      }
    }
    assert s == Elements(indices);
  }

  lemma ExamineNext(requested: seq<nat>, received: seq<ShardBlock>, table: seq<Option<ShardBlock>>, length: nat,
                    sum: Checksum, n: nat, usable: seq<Placed>, faults: seq<BlockFault>, kind: FaultKind)
    requires n < |table| && Indexed(table, received)
    requires Examined(requested, received, length, sum, n, usable, faults)
    ensures n !in requested ==> Examined(requested, received, length, sum, n + 1, usable, faults)
    ensures n in requested && table[n].Some? && Good(table[n].value, length, sum) ==>
              Examined(requested, received, length, sum, n + 1, usable + [Placed(n, table[n].value.bytes)], faults)
    ensures n in requested && (table[n].None? || !Good(table[n].value, length, sum)) ==>
              Examined(requested, received, length, sum, n + 1, usable, faults + [BlockFault(n, kind)])
  {
    if n in requested && table[n].Some? && Good(table[n].value, length, sum) {
      var more := usable + [Placed(n, table[n].value.bytes)];
      assert more[|usable|].index == n;
      forall i, j | 0 <= i < j < |more| ensures more[i].index < more[j].index {
        if j == |usable| {
          assert usable[i] in usable;
        }
      }
      forall i | 0 <= i < n && i in requested && Holds(usable, i) ensures Holds(more, i) {
        var j :| 0 <= j < |usable| && usable[j].index == i;
        assert more[j].index == i;
      }
    }
    if n in requested && (table[n].None? || !Good(table[n].value, length, sum)) {
      assert BlockFault(n, kind) in faults + [BlockFault(n, kind)];
    }
  }

  /** The fault is what is wrong with the shard's block: it did not come, it has
      another length, or else its checksum does not match. */
  ghost predicate FaultTold(received: seq<ShardBlock>, length: nat, f: BlockFault) {
    && (f.kind == Missing <==> forall b <- received :: b.index != f.index)
    && (f.kind == WrongLength <==> exists b :: b in received && b.index == f.index && |b.bytes| != length)
  }

  ghost predicate FaultsTold(received: seq<ShardBlock>, length: nat, faults: seq<BlockFault>) {
    forall f <- faults :: FaultTold(received, length, f)
  }

  lemma KindTold(received: seq<ShardBlock>, table: seq<Option<ShardBlock>>, length: nat, i: nat, kind: FaultKind)
    requires i < |table| && Indexed(table, received)
    requires kind == if table[i].None? then Missing
                     else if |table[i].value.bytes| != length then WrongLength else ChecksumMismatch
    ensures FaultTold(received, length, BlockFault(i, kind))
  {
  }

  /** Decide, for every requested shard, whether its block is usable. */
  method Examine(scheme: Scheme, ghost requested: seq<nat>, ghost received: seq<ShardBlock>, was: seq<bool>,
                 table: seq<Option<ShardBlock>>, length: nat, sum: Checksum)
    returns (usable: seq<Placed>, faults: seq<BlockFault>)
    requires RequestOk(scheme, requested) && ReceivedOk(requested, received)
    requires |was| == |table| == scheme.Total() && Indexed(table, received)
    requires forall i :: 0 <= i < scheme.Total() ==> (was[i] <==> i in requested)
    ensures Examined(requested, received, length, sum, scheme.Total(), usable, faults) && FaultsTold(received, length, faults)
  {
    usable, faults := [], [];
    for i := 0 to scheme.Total()
      invariant Examined(requested, received, length, sum, i, usable, faults) && FaultsTold(received, length, faults)
    {
      var kind := if table[i].None? then Missing
                  else if |table[i].value.bytes| != length then WrongLength else ChecksumMismatch;
      ExamineNext(requested, received, table, length, sum, i, usable, faults, kind);
      KindTold(received, table, length, i, kind);
      if was[i] {
        if table[i].Some? && Good(table[i].value, length, sum) {
          usable := usable + [Placed(i, table[i].value.bytes)];
        } else {
          faults := faults + [BlockFault(i, kind)];
        }
      }
    }
  }

  /** Every block that passes its checksum is the one written: the second
      hypothesis, about the checksum. */
  ghost predicate Genuine(received: seq<ShardBlock>, word: seq<Block>, length: nat, sum: Checksum) {
    forall b <- received :: Good(b, length, sum) ==> b.index < |word| && b.bytes == word[b.index]
  }

  /** The examination, summed up by the set of usable shards. */
  lemma ExaminedMeans(scheme: Scheme, requested: seq<nat>, received: seq<ShardBlock>, length: nat, sum: Checksum,
                      usable: seq<Placed>, faults: seq<BlockFault>)
    requires RequestOk(scheme, requested)
    requires Examined(requested, received, length, sum, scheme.Total(), usable, faults)
    ensures |usable| == |UsableSet(requested, received, length, sum)|
    ensures faults == [] <==> Elements(requested) == UsableSet(requested, received, length, sum)
    ensures forall i <- requested :: i in UsableSet(requested, received, length, sum) || exists f :: f in faults && f.index == i
    ensures |usable| < |requested| ==> faults != []
  {
    var good := UsableSet(requested, received, length, sum);
    forall p | p in usable ensures p.index in good {
      var b :| b in received && b.index == p.index && Good(b, length, sum);
    }
    forall x | x in good ensures Holds(usable, x) {
      var i :| 0 <= i < |requested| && requested[i] == x;
    }
    UsableCount(usable, good);
    assert good <= Elements(requested);
    forall i | i in requested ensures i in good || exists f :: f in faults && f.index == i {
      var j :| 0 <= j < |requested| && requested[j] == i;
      if Holds(usable, i) {
        var k :| 0 <= k < |usable| && usable[k].index == i;
        assert usable[k] in usable;
      }
    }
    if faults != [] {
      assert faults[0] in faults;
      assert faults[0].index in Elements(requested) - good;
    } else {
      assert Elements(requested) <= good;
    }
    DistinctCount(requested);
  }

  /** The usable blocks can always be handed to the reconstruction. */
  lemma UsableAccepted(code: Code, requested: seq<nat>, received: seq<ShardBlock>, length: nat, sum: Checksum,
                       usable: seq<Placed>, faults: seq<BlockFault>)
    requires WellFormed(code) && length > 0 && |usable| >= code.scheme.k
    requires RequestOk(code.scheme, requested)
    requires Examined(requested, received, length, sum, code.scheme.Total(), usable, faults)
    ensures !Refused(code, usable, DataIndices(code.scheme.k))
    ensures forall p <- usable :: |p.bytes| == length
  {
    forall p | p in usable ensures |p.bytes| == length {
      var b :| b in received && b.index == p.index && b.bytes == p.bytes && Good(b, length, sum);
    }
    forall i | 0 <= i < |usable| ensures |usable[i].bytes| == length {
      assert usable[i] in usable;
    }
  }

  function DataIndices(k: nat): (indices: seq<nat>)
    ensures |indices| == k && InRange(indices, k)
  {
    seq(k, i => i)
  }

  lemma UsableAreBlocks(code: Code, data: seq<Block>, requested: seq<nat>, received: seq<ShardBlock>, length: nat,
                        sum: Checksum, usable: seq<Placed>, faults: seq<BlockFault>)
    requires Examined(requested, received, length, sum, code.scheme.Total(), usable, faults)
    requires Genuine(received, Codeword(code, data), length, sum)
    ensures BlocksOf(code, data, usable)
  {
    forall p | p in usable
      ensures p.index < |Codeword(code, data)| && p.bytes == Codeword(code, data)[p.index]
    {
      var b :| b in received && b.index == p.index && b.bytes == p.bytes && Good(b, length, sum);
    }
  }

  function DecodedData(d: DecodedStripe): seq<Byte>
    requires !d.Unrecoverable?
  {
    d.data
  }

  /** The data blocks rebuilt from the usable ones, joined and cut to length. */
  method Rejoin(code: Code, ghost sum: Checksum, ghost requested: seq<nat>, ghost received: seq<ShardBlock>, dataLen: nat,
                usable: seq<Placed>, ghost faults: seq<BlockFault>)
    returns (data: seq<Byte>)
    requires WellFormed(code) && dataLen > 0 && RequestOk(code.scheme, requested) && ReceivedOk(requested, received)
    requires Examined(requested, received, CeilDiv(dataLen, code.scheme.k), sum, code.scheme.Total(), usable, faults)
    requires |usable| >= code.scheme.k
    ensures forall d ::
              (|d| == dataLen && RecoversFromAnyK(code)
               && Genuine(received, StripeWord(code, d), CeilDiv(dataLen, code.scheme.k), sum)) ==> data == d
  {
    var k := code.scheme.k;
    ghost var length := CeilDiv(dataLen, k);
    CeilDivMeans(dataLen, k, length);
    UsableAccepted(code, requested, received, length, sum, usable, faults);
    var blocks := Reconstruct(code, usable, DataIndices(k));
    var joined := Flatten(blocks.value);
    data := if dataLen <= |joined| then joined[..dataLen] else joined;
    forall d | |d| == dataLen && RecoversFromAnyK(code) && Genuine(received, StripeWord(code, d), length, sum)
      ensures data == d
    {
      DataBlocksProper(code, d);
      UsableAreBlocks(code, DataBlocks(d, k), requested, received, length, sum, usable, faults);
      assert Pick(StripeWord(code, d), DataIndices(k)) == DataBlocks(d, k);
      DataBlocksJoin(d, k);
    }
  }

  /** `decode_stripe`. Misuse aside, the outcome follows the set of usable
      shards alone: too few is unrecoverable, all that were asked for is
      intact, anything between is repaired; and whenever data is delivered it
      is the stripe that was written. */
  method DecodeStripe(code: Code, sum: Checksum, requested: seq<nat>, received: seq<ShardBlock>, dataLen: nat)
    returns (r: Result<DecodedStripe, StripeError>)
    requires WellFormed(code)
    ensures r.Ok? <==> dataLen > 0 && RequestOk(code.scheme, requested) && ReceivedOk(requested, received)
    ensures r.Ok? ==>
              var good := UsableSet(requested, received, CeilDiv(dataLen, code.scheme.k), sum);
              && (r.value.Unrecoverable? <==> |good| < code.scheme.k)
              && (r.value.Intact? <==> |good| >= code.scheme.k && good == Elements(requested))
              && (r.value.Unrecoverable? && |requested| >= code.scheme.k ==> r.value.faults != [])
              && (!r.value.Intact? ==> forall i <- requested :: i in good || exists f :: f in r.value.faults && f.index == i)
              && (!r.value.Intact? ==> forall f <- r.value.faults :: f.index in requested && f.index !in good)
              && (!r.value.Intact? ==> FaultsTold(received, CeilDiv(dataLen, code.scheme.k), r.value.faults))
              && (r.value.Unrecoverable? ==> r.value.usable == |good| && r.value.needed == code.scheme.k)
    ensures forall data ::
              (r.Ok? && !r.value.Unrecoverable? && |data| == dataLen && RecoversFromAnyK(code)
               && Genuine(received, StripeWord(code, data), CeilDiv(dataLen, code.scheme.k), sum)) ==>
              DecodedData(r.value) == data
  {
    if dataLen == 0 {
      return Err(Empty);
    }
    var k := code.scheme.k;
    var length := CeilDiv(dataLen, k);
    CeilDivMeans(dataLen, k, length);
    var was := NoteRequested(code.scheme, requested);
    if was.Err? {
      return Err(Coding(was.error));
    }
    var table := IndexReceived(code.scheme, requested, was.value, received);
    if table.Err? {
      return Err(table.error);
    }
    var usable, faults := Examine(code.scheme, requested, received, was.value, table.value, length, sum);
    ExaminedMeans(code.scheme, requested, received, length, sum, usable, faults);
    if |usable| < k {
      return Ok(Unrecoverable(|usable|, k, faults));
    }
    var data := Rejoin(code, sum, requested, received, dataLen, usable, faults);
    r := Ok(if faults == [] then Intact(data) else Repaired(data, faults));
  }
}
