/** From a client's body stream to finished shard files: the coordinator's
    stripe buffering (crates/djbod-node/src/coordinator.rs:1956-2106) and the
    storing node's receive loop (crates/djbod-node/src/local_ops.rs:627-835). */
module ObjectWrite {
  import opened Prelude
  import opened Geometry
  import opened Erasure
  import opened Stripe
  import opened ShardFile

  // ------------------------------------------------------ a body in stripes

  /** The body in stripes of `size` bytes, the last one possibly short. */
  function Stripes(body: seq<Byte>, size: nat): (stripes: seq<Block>)
    requires size > 0
    ensures Stacked(stripes, size) && Flatten(stripes) == body
  {
    if body == [] then []
    else if |body| <= size then
      assert Flatten([body]) == body + Flatten([body][1..]);
      [body]
    else
      var rest := Stripes(body[size..], size);
      assert ([body[..size]] + rest)[1..] == rest;
      assert rest != [];
      [body[..size]] + rest
  }

  /** There is only one way to cut a body. */
  lemma {:induction false} CutUnique(a: seq<Block>, b: seq<Block>, size: nat)
    requires Stacked(a, size) && Stacked(b, size) && Flatten(a) == Flatten(b)
    ensures a == b
  {
    if a == [] || b == [] {
      CutEmpty(a);
      CutEmpty(b);
    } else {
      FirstPiece(a, size);
      FirstPiece(b, size);
      assert Flatten(a[1..]) == Flatten(a)[|a[0]|..];
      assert Flatten(b[1..]) == Flatten(b)[|b[0]|..];
      CutUnique(a[1..], b[1..], size);
    }
  }

  lemma CutEmpty(a: seq<Block>)
    ensures a != [] && |a[0]| >= 1 ==> Flatten(a) != []
  {
  }

  /** The first piece is as long as it can be. */
  lemma FirstPiece(a: seq<Block>, size: nat)
    requires Stacked(a, size) && a != []
    ensures |a[0]| == (if |Flatten(a)| < size then |Flatten(a)| else size)
    ensures Flatten(a) == a[0] + Flatten(a[1..])
  {
    if |a| == 1 {
      assert a[1..] == [];
    }
  }

  lemma CountFromLength(n: nat, size: nat, total: nat, last: nat)
    requires size > 0 && 1 <= last <= size && total == (n - 1) * size + last
    ensures n == CeilDiv(total, size)
  {
    assert (n - 1) * size == size * n - size;
    CeilDivMeans(total, size, n);
  }

  /** How many stripes, and how long each. */
  lemma StripeCount(body: seq<Byte>, size: nat)
    requires size > 0
    ensures |Stripes(body, size)| == CeilDiv(|body|, size)
    ensures body != [] ==> |Stripes(body, size)[|Stripes(body, size)| - 1]| == |body| - (CeilDiv(|body|, size) - 1) * size
  {
    var stripes := Stripes(body, size);
    if body == [] {
      assert stripes == [];
      CeilDivMeans(0, size, 0);
    } else {
      StackedLength(stripes, size);
      CountFromLength(|stripes|, size, |body|, |stripes[|stripes| - 1]|);
    }
  }

  lemma StripeLength(body: seq<Byte>, size: nat, j: nat)
    requires size > 0 && j < |Stripes(body, size)|
    ensures 0 <= size * j < |body|
    ensures |Stripes(body, size)[j]| == (if |body| - size * j < size then |body| - size * j else size)
  {
    var stripes := Stripes(body, size);
    var n := |stripes|;
    StripeCount(body, size);
    assert (n - 1) * size == size * (n - 1);
    if j < n - 1 {
      StepFurther(size, j, n - 1);
    }
  }

  // ---------------------------------------------------- blocks of one shard

  /** What is sent to the shards, stripe by stripe. */
  function Sent(code: Code, sum: Checksum, stripes: seq<Block>): (sent: seq<seq<ShardBlock>>)
    requires code.scheme.k > 0
    ensures |sent| == |stripes|
  {
    seq(|stripes|, j requires 0 <= j < |stripes| => Labelled(StripeWord(code, stripes[j]), sum))
  }

  ghost predicate Rectangular(code: Code, stripes: seq<Block>) {
    forall j :: 0 <= j < |stripes| ==> code.scheme.k > 0 && |StripeWord(code, stripes[j])| == code.scheme.Total()
  }

  /** The blocks of shard `i`, one a stripe. */
  ghost function Column(code: Code, stripes: seq<Block>, i: nat): (column: seq<Block>)
    requires code.scheme.k > 0 && i < code.scheme.Total() && Rectangular(code, stripes)
    ensures |column| == |stripes|
  {
    seq(|stripes|, j requires 0 <= j < |stripes| => StripeWord(code, stripes[j])[i])
  }

  lemma StripesRectangular(code: Code, stripes: seq<Block>)
    requires WellFormed(code) && forall j :: 0 <= j < |stripes| ==> stripes[j] != []
    ensures Rectangular(code, stripes)
  {
    forall j | 0 <= j < |stripes| ensures |StripeWord(code, stripes[j])| == code.scheme.Total() {
      StripeWordShape(code, stripes[j]);
    }
  }

  lemma ColumnBlock(code: Code, stripes: seq<Block>, blockSize: nat, i: nat, j: nat)
    requires WellFormed(code) && blockSize > 0 && i < code.scheme.Total() && j < |stripes|
    requires Stacked(stripes, code.scheme.k * blockSize) && Rectangular(code, stripes)
    ensures |Column(code, stripes, i)[j]| == CeilDiv(|stripes[j]|, code.scheme.k)
    ensures 1 <= |Column(code, stripes, i)[j]| <= blockSize
    ensures j < |stripes| - 1 ==> |Column(code, stripes, i)[j]| == blockSize
  {
    StripeWordShape(code, stripes[j]);
    CeilAtMost(|stripes[j]|, code.scheme.k, blockSize);
    CeilOfMultiple(code.scheme.k, blockSize);
  }

  lemma ColumnStacked(code: Code, stripes: seq<Block>, blockSize: nat, i: nat)
    requires WellFormed(code) && blockSize > 0 && i < code.scheme.Total()
    requires Stacked(stripes, code.scheme.k * blockSize) && Rectangular(code, stripes)
    ensures Stacked(Column(code, stripes, i), blockSize)
  {
    forall j | 0 <= j < |stripes|
      ensures 1 <= |Column(code, stripes, i)[j]| <= blockSize
      ensures j < |stripes| - 1 ==> |Column(code, stripes, i)[j]| == blockSize
    {
      ColumnBlock(code, stripes, blockSize, i, j);
    }
  }

  /** Geometry agreement: for every body, the blocks sent to each shard are
      those the geometry of an object of that size predicts, and together they
      are the shard's even share of the bytes, rounded up. */
  lemma GeometryAgrees(code: Code, body: seq<Byte>, h: Header)
    requires WellFormed(code) && h.scheme == code.scheme && h.blockLength > 0
    requires body != [] && h.shardIndex < code.scheme.Total()
    ensures code.scheme.k * h.blockLength > 0
    ensures var stripes := Stripes(body, code.scheme.k * h.blockLength);
            && Rectangular(code, stripes)
            && Stacked(Column(code, stripes, h.shardIndex), h.blockLength)
            && FitsGeometry(h, Column(code, stripes, h.shardIndex), |body|)
            && |Flatten(Column(code, stripes, h.shardIndex))| == CeilDiv(|body|, code.scheme.k)
  {
    var k, b := code.scheme.k, h.blockLength;
    PositiveProduct(k, b);
    var stripes := Stripes(body, k * b);
    StripesRectangular(code, stripes);
    ColumnStacked(code, stripes, b, h.shardIndex);
    ColumnGeometry(code, body, stripes, h);
    ShareOf(Column(code, stripes, h.shardIndex), h, |body|);
  }

  lemma ShareOf(column: seq<Block>, h: Header, size: nat)
    requires h.scheme.k > 0 && h.blockLength > 0 && size > 0 && Stacked(column, h.blockLength) && FitsGeometry(h, column, size)
    ensures |Flatten(column)| == CeilDiv(size, h.scheme.k)
  {
    StackedLength(column, h.blockLength);
    ShardHoldsItsShare(h.scheme.k, h.blockLength, size);
  }

  lemma ColumnGeometry(code: Code, body: seq<Byte>, stripes: seq<Block>, h: Header)
    requires WellFormed(code) && h.scheme == code.scheme && h.blockLength > 0 && code.scheme.k * h.blockLength > 0
    requires body != [] && h.shardIndex < code.scheme.Total() && stripes == Stripes(body, code.scheme.k * h.blockLength)
    requires Rectangular(code, stripes)
    ensures FitsGeometry(h, Column(code, stripes, h.shardIndex), |body|)
  {
    var stripe := code.scheme.k * h.blockLength;
    StripeCount(body, stripe);
    LastStripe(stripe, |body|);
    GeometryIs(code.scheme.k, h.blockLength, |body|, stripe, |stripes|, |stripes[|stripes| - 1]|);
    ColumnBlock(code, stripes, h.blockLength, h.shardIndex, |stripes| - 1);
  }

  // ------------------------------------------------ the coordinator's loop

  /** Messages of a body stream, from a client or from a coordinator. */
  datatype Message =
    | Data(sequence: nat, bytes: seq<Byte>, checksum: nat)
    | EndOfStream(failed: bool, objectSize: Option<nat>, objectChecksum: Option<U64>)
    | OtherMessage

  /** The first `n` messages are frames in order, undamaged in transit. */
  ghost predicate Framed(messages: seq<Message>, n: nat, sum: Checksum) {
    n <= |messages| && forall i :: 0 <= i < n ==>
      messages[i].Data? && messages[i].sequence == i && sum(messages[i].bytes) == messages[i].checksum
  }

  function Payload(m: Message): seq<Byte> {
    if m.Data? then m.bytes else []
  }

  function Payloads(messages: seq<Message>): (r: seq<Block>)
    ensures |r| == |messages|
  {
    seq(|messages|, i requires 0 <= i < |messages| => Payload(messages[i]))
  }

  ghost function Body(messages: seq<Message>, n: nat): seq<Byte>
    requires n <= |messages|
  {
    Flatten(Payloads(messages[..n]))
  }

  lemma BodyNext(messages: seq<Message>, n: nat)
    requires n < |messages|
    ensures Body(messages, n + 1) == Body(messages, n) + Payload(messages[n])
  {
    FlattenSnoc(Payloads(messages[..n]), Payload(messages[n]));
    assert Payloads(messages[..n + 1]) == Payloads(messages[..n]) + [Payload(messages[n])];
  }

  /** A whole body of the declared size, ended without an error. */
  ghost predicate CompleteAt(messages: seq<Message>, n: nat, size: nat, sum: Checksum) {
    && n < |messages| && Framed(messages, n, sum)
    && messages[n].EndOfStream? && !messages[n].failed && |Body(messages, n)| == size
  }

  datatype PutError = ProtocolViolation | Abandoned | StreamLost | EncodeFailed

  /** `send_stripe`: one more row of blocks. */
  method SendStripe(code: Code, sum: Checksum, blockSize: nat, stripe: Block, sent: seq<seq<ShardBlock>>,
                    ghost stripes: seq<Block>)
    returns (r: Result<seq<seq<ShardBlock>>, PutError>)
    requires WellFormed(code) && 0 < |stripe| <= code.scheme.k * blockSize && sent == Sent(code, sum, stripes)
    ensures r == Ok(Sent(code, sum, stripes + [stripe]))
  {
    var row := EncodeStripe(code, sum, stripe, blockSize);
    assert row.Ok?;
    assert sent + [row.value] == Sent(code, sum, stripes + [stripe]);
    return Ok(sent + [row.value]);
  }

  /** `stripes` whole stripes and a part of one hold the body so far. */
  ghost predicate Buffered(body: seq<Byte>, stripes: seq<Block>, buffer: Block, size: nat) {
    && (forall j :: 0 <= j < |stripes| ==> |stripes[j]| == size)
    && Flatten(stripes) + buffer == body && |buffer| < size
  }

  lemma BufferedMore(body: seq<Byte>, stripes: seq<Block>, buffer: Block, size: nat, more: Block)
    requires Buffered(body, stripes, buffer, size) && |buffer| + |more| <= size
    ensures |buffer| + |more| < size ==> Buffered(body + more, stripes, buffer + more, size)
    ensures |buffer| + |more| == size ==> Buffered(body + more, stripes + [buffer + more], [], size)
  {
    FlattenSnoc(stripes, buffer + more);
    assert Flatten(stripes) + (buffer + more) == body + more;
    assert Flatten(stripes + [buffer + more]) + [] == Flatten(stripes + [buffer + more]);
  }

  /** At the end, the whole stripes and what is left over are the body's cut. */
  lemma BufferedEnd(body: seq<Byte>, stripes: seq<Block>, buffer: Block, size: nat)
    requires Buffered(body, stripes, buffer, size) && size > 0
    ensures Stripes(body, size) == if buffer == [] then stripes else stripes + [buffer]
  {
    FlattenSnoc(stripes, buffer);
    assert Flatten(stripes) + [] == Flatten(stripes);
    CutUnique(Stripes(body, size), if buffer == [] then stripes else stripes + [buffer], size);
  }

  lemma SliceNext(body: seq<Byte>, bytes: seq<Byte>, at: nat, take: nat)
    requires at + take <= |bytes|
    ensures body + bytes[..at] + bytes[at..at + take] == body + bytes[..at + take]
  {
  }

  /** The inner loop: one frame's bytes through the stripe buffer. */
  method BufferFrame(code: Code, sum: Checksum, blockSize: nat, size: nat, bytes: seq<Byte>, buffer0: Block,
                     sent0: seq<seq<ShardBlock>>, ghost body: seq<Byte>, ghost stripes0: seq<Block>)
    returns (buffer: Block, sent: seq<seq<ShardBlock>>, ghost stripes: seq<Block>)
    requires WellFormed(code) && size == code.scheme.k * blockSize
    requires Buffered(body, stripes0, buffer0, size) && sent0 == Sent(code, sum, stripes0)
    ensures Buffered(body + bytes, stripes, buffer, size) && sent == Sent(code, sum, stripes)
  {
    buffer, sent, stripes := buffer0, sent0, stripes0;
    var at := 0;
    while at < |bytes|
      invariant at <= |bytes|
      invariant Buffered(body + bytes[..at], stripes, buffer, size) && sent == Sent(code, sum, stripes)
    {
      var room := size - |buffer|;
      var take := if room < |bytes| - at then room else |bytes| - at;
      var piece := bytes[at..at + take];
      BufferedMore(body + bytes[..at], stripes, buffer, size, piece);
      SliceNext(body, bytes, at, take);
      buffer := buffer + piece;
      at := at + take;
      if |buffer| == size {
        var more := SendStripe(code, sum, blockSize, buffer, sent, stripes);
        sent, stripes, buffer := more.value, stripes + [buffer], [];
      }
    }
    assert bytes[..at] == bytes;
  }

  /** What is left in the buffer when the body is complete. */
  method SendRest(code: Code, sum: Checksum, blockSize: nat, ghost body: seq<Byte>, buffer: Block, sent0: seq<seq<ShardBlock>>,
                  ghost stripes: seq<Block>)
    returns (sent: seq<seq<ShardBlock>>)
    requires WellFormed(code) && blockSize > 0 && code.scheme.k * blockSize > 0
    requires Buffered(body, stripes, buffer, code.scheme.k * blockSize) && sent0 == Sent(code, sum, stripes)
    ensures sent == Sent(code, sum, Stripes(body, code.scheme.k * blockSize))
  {
    BufferedEnd(body, stripes, buffer, code.scheme.k * blockSize);
    sent := sent0;
    if buffer != [] {
      var more := SendStripe(code, sum, blockSize, buffer, sent, stripes);
      sent := more.value;
    }
  }

  /** What the next message is: a frame of the body, its end, or the failure of
      the put. */
  datatype Verdict = Frame | Complete | Fails(error: PutError)

  ghost predicate NeverComplete(messages: seq<Message>, size: nat, sum: Checksum) {
    forall p: nat :: !CompleteAt(messages, p, size, sum)
  }

  method CheckMessage(messages: seq<Message>, n: nat, received: nat, size: nat, sum: Checksum) returns (verdict: Verdict)
    requires n < |messages| && Framed(messages, n, sum) && received == |Body(messages, n)| <= size
    ensures verdict.Frame? ==> Framed(messages, n + 1, sum) && |Body(messages, n + 1)| <= size
    ensures verdict.Complete? ==>
              CompleteAt(messages, n, size, sum) && forall p: nat :: CompleteAt(messages, p, size, sum) ==> p == n
    ensures verdict.Fails? ==> NeverComplete(messages, size, sum)
    ensures verdict.Fails? ==> (verdict.error == Abandoned <==> messages[n].EndOfStream? && messages[n].failed)
    ensures verdict.Fails? ==> verdict.error == Abandoned || verdict.error == ProtocolViolation
  {
    var message := messages[n];
    OnlyHere(messages, n, size, sum);
    if message.Data? {
      if message.sequence != n || sum(message.bytes) != message.checksum {
        return Fails(ProtocolViolation);
      }
      BodyNext(messages, n);
      if received + |message.bytes| > size {
        OverrunNeverCompletes(messages, n + 1, size, sum);
        return Fails(ProtocolViolation);
      }
      return Frame;
    }
    if !message.EndOfStream? || message.failed || received != size {
      return Fails(if message.EndOfStream? && message.failed then Abandoned else ProtocolViolation);
    }
    return Complete;
  }

  lemma NoneFollows(messages: seq<Message>, size: nat, sum: Checksum)
    requires Framed(messages, |messages|, sum)
    ensures NeverComplete(messages, size, sum)
  {
  }

  /** `stream_body_to_writers`: succeeds exactly on a complete body of the
      declared size, however it is framed, and then has sent every shard the
      blocks of the body's stripes and found the body's checksum. */
  method StreamBody(code: Code, sum: Checksum, blockSize: nat, size: nat, messages: seq<Message>)
    returns (r: Result<U64, PutError>, sent: seq<seq<ShardBlock>>)
    requires WellFormed(code) && blockSize > 0
    ensures code.scheme.k * blockSize > 0
    ensures r.Ok? <==> exists n: nat :: CompleteAt(messages, n, size, sum)
    ensures forall n: nat :: CompleteAt(messages, n, size, sum) ==>
              && r == Ok(sum(Body(messages, n)))
              && sent == Sent(code, sum, Stripes(Body(messages, n), code.scheme.k * blockSize))
  {
    PositiveProduct(code.scheme.k, blockSize);
    var received, body: seq<Byte>, buffer: Block := 0, [], [];
    sent := [];
    ghost var stripes: seq<Block> := [];
    assert Flatten([]) == [] && Payloads(messages[..0]) == [];
    for n := 0 to |messages|
      invariant Framed(messages, n, sum) && body == Body(messages, n) && received == |body| <= size
      invariant Buffered(body, stripes, buffer, code.scheme.k * blockSize) && sent == Sent(code, sum, stripes)
    {
      var verdict := CheckMessage(messages, n, received, size, sum);
      match verdict
      case Frame =>
        BodyNext(messages, n);
        received := received + |messages[n].bytes|;
        body := body + messages[n].bytes;
        buffer, sent, stripes :=
          BufferFrame(code, sum, blockSize, code.scheme.k * blockSize, messages[n].bytes, buffer, sent, Body(messages, n), stripes);
      case Complete =>
        sent := SendRest(code, sum, blockSize, body, buffer, sent, stripes);
        return Ok(sum(body)), sent;
      case Fails(e) => return Err(e), sent;
    }
    NoneFollows(messages, size, sum);
    return Err(StreamLost), sent;
  }

  /** Where the first `n` messages are frames and the next is not one in
      order, the body can only be complete there. */
  lemma OnlyHere(messages: seq<Message>, n: nat, size: nat, sum: Checksum)
    requires n < |messages| && Framed(messages, n, sum)
    ensures !Framed(messages, n + 1, sum) ==> forall p: nat :: CompleteAt(messages, p, size, sum) ==> p == n
  {
    if !Framed(messages, n + 1, sum) {
      forall p: nat | CompleteAt(messages, p, size, sum) ensures p == n {
      }
    }
  }

  lemma OverrunNeverCompletes(messages: seq<Message>, n: nat, size: nat, sum: Checksum)
    requires Framed(messages, n, sum) && |Body(messages, n)| > size
    ensures forall p: nat :: !CompleteAt(messages, p, size, sum)
  {
    forall p: nat | CompleteAt(messages, p, size, sum) ensures false {
      if p >= n {
        BodyGrows(messages, n, p);
      }
    }
  }

  lemma {:induction false} BodyGrows(messages: seq<Message>, n: nat, p: nat)
    requires n <= p <= |messages|
    ensures |Body(messages, n)| <= |Body(messages, p)|
    decreases p
  {
    if n < p {
      BodyGrows(messages, n, p - 1);
      BodyNext(messages, p - 1);
    }
  }

  // --------------------------------------------- the storing node's loop

  /** The first `n` messages are the blocks of a whole shard and the next ends
      the stream with the size the request named. */
  ghost predicate ShardCompleteAt(messages: seq<Message>, n: nat, h: Header, size: nat, sum: Checksum)
    requires HeaderOk(h)
  {
    && n < |messages| && Framed(messages, n, sum)
    && messages[n].EndOfStream? && !messages[n].failed
    && messages[n].objectSize == Some(size) && messages[n].objectChecksum.Some?
    && Stacked(Payloads(messages[..n]), h.blockLength) && FitsGeometry(h, Payloads(messages[..n]), size)
  }

  /** What a writer holding the first `n` blocks would take as the next. */
  ghost predicate Takes(h: Header, messages: seq<Message>, n: nat, sum: Checksum)
    requires n < |messages|
  {
    && messages[n].Data? && messages[n].sequence == n && sum(messages[n].bytes) == messages[n].checksum
    && 1 <= |messages[n].bytes| <= h.blockLength
    && (n > 0 ==> |Payload(messages[n - 1])| == h.blockLength)
  }

  lemma EarlierTaken(messages: seq<Message>, n: nat, p: nat, h: Header, size: nat, sum: Checksum)
    requires HeaderOk(h) && n < p && ShardCompleteAt(messages, p, h, size, sum)
    ensures Takes(h, messages, n, sum)
  {
    var blocks := Payloads(messages[..p]);
    assert blocks[n] == Payload(messages[n]);
    if n > 0 {
      assert blocks[n - 1] == Payload(messages[n - 1]);
    }
  }

  lemma ShardOnlyHere(messages: seq<Message>, n: nat, h: Header, size: nat, sum: Checksum)
    requires HeaderOk(h) && n < |messages| && Framed(messages, n, sum)
    ensures !Takes(h, messages, n, sum) ==> forall p: nat :: ShardCompleteAt(messages, p, h, size, sum) ==> p == n
  {
    if !Takes(h, messages, n, sum) {
      forall p: nat | ShardCompleteAt(messages, p, h, size, sum) ensures p == n {
        if p > n {
          EarlierTaken(messages, n, p, h, size, sum);
        }
      }
    }
  }

  lemma PayloadsNext(messages: seq<Message>, n: nat)
    requires n < |messages|
    ensures Payloads(messages[..n + 1]) == Payloads(messages[..n]) + [Payload(messages[n])]
  {
  }

  lemma FitsAddressable(h: Header, blocks: seq<Block>, size: nat)
    requires HeaderOk(h) && Stacked(blocks, h.blockLength) && FitsGeometry(h, blocks, size)
    requires ShardFileLength(h.scheme.k, h.blockLength, size).value < TWO_TO_64
    ensures Addressable(h, blocks)
  {
    StackedLength(blocks, h.blockLength);
  }

  datatype ReceiveError = BadRequest | BadObjectSize | Violation | SenderGaveUp | ConnectionLost | Refused(error: FileError)

  /** Accepted exactly when the blocks and the end make up a whole shard of an
      object of the announced size, and then the file is the finished one for
      those blocks. */
  ghost predicate Received(messages: seq<Message>, h: Header, size: U64, sum: Checksum,
                           r: Result<seq<Byte>, ReceiveError>)
    requires HeaderOk(h)
  {
    && (r.Ok? ==> exists n: nat :: ShardCompleteAt(messages, n, h, size, sum))
    && (forall n: nat :: ShardCompleteAt(messages, n, h, size, sum) ==>
          && Addressable(h, Payloads(messages[..n]))
          && r == Ok(FileBytes(h, Payloads(messages[..n]), size, messages[n].objectChecksum.value, sum)))
  }

  /** A stream that no position completes is refused. */
  lemma RefusedHere(messages: seq<Message>, n: nat, h: Header, size: U64, sum: Checksum, r: Result<seq<Byte>, ReceiveError>)
    requires HeaderOk(h) && n < |messages| && Framed(messages, n, sum) && r.Err?
    requires !Takes(h, messages, n, sum) && !ShardCompleteAt(messages, n, h, size, sum)
    ensures Received(messages, h, size, sum, r)
  {
    ShardOnlyHere(messages, n, h, size, sum);
  }

  /** The end of the stream: `finish`, or a refusal. */
  method EndShard(writer: ShardFileWriter, size: U64, ghost messages: seq<Message>, ghost n: nat, message: Message)
    returns (r: Result<seq<Byte>, ReceiveError>)
    requires n < |messages| && message == messages[n] && message.EndOfStream?
    requires writer.Valid() && writer.blocks == Payloads(messages[..n]) && Framed(messages, n, writer.sum)
    requires ShardFileLength(writer.header.scheme.k, writer.header.blockLength, size) == Some(writer.reserved)
    requires writer.reserved < TWO_TO_64
    modifies writer
    ensures Received(messages, writer.header, size, writer.sum, r)
  {
    ghost var blocks, h := writer.blocks, writer.header;
    ShardOnlyHere(messages, n, h, size, writer.sum);
    if message.failed {
      return Err(SenderGaveUp);
    }
    if message.objectSize.None? || message.objectChecksum.None? {
      return Err(Violation);
    }
    if message.objectSize.value != size {
      return Err(Violation);
    }
    if FitsGeometry(h, blocks, size) {
      FitsAddressable(h, blocks, size);
      assert ShardCompleteAt(messages, n, h, size, writer.sum);
    }
    var finished := writer.Finish(size, message.objectChecksum.value);
    if finished.Err? {
      return Err(Refused(finished.error));
    }
    return Ok(writer.file);
  }

  /** One block of the stream. */
  method TakeBlock(writer: ShardFileWriter, ghost messages: seq<Message>, ghost n: nat, message: Message)
    returns (r: Result<(), FileError>)
    requires n < |messages| && message == messages[n] && message.Data? && message.sequence == n
    requires writer.Valid() && writer.blocks == Payloads(messages[..n]) && Framed(messages, n, writer.sum)
    modifies writer
    ensures r.Ok? ==> writer.Valid() && writer.blocks == Payloads(messages[..n + 1]) && Framed(messages, n + 1, writer.sum)
    ensures r.Err? ==> !Takes(writer.header, messages, n, writer.sum)
  {
    PayloadsNext(messages, n);
    if n > 0 {
      assert writer.blocks[n - 1] == Payload(messages[n - 1]);
    }
    r := writer.AppendBlock(ShardBlock(writer.header.shardIndex, message.bytes, message.checksum));
  }

  /** The receive loop. */
  method ReceiveBlocks(writer: ShardFileWriter, size: U64, messages: seq<Message>)
    returns (r: Result<seq<Byte>, ReceiveError>)
    requires writer.Valid() && writer.blocks == [] && writer.reserved < TWO_TO_64
    requires ShardFileLength(writer.header.scheme.k, writer.header.blockLength, size) == Some(writer.reserved)
    modifies writer
    ensures Received(messages, writer.header, size, writer.sum, r)
  {
    assert Payloads(messages[..0]) == [];
    for n := 0 to |messages|
      invariant writer.Valid() && writer.blocks == Payloads(messages[..n]) && Framed(messages, n, writer.sum)
    {
      var message := messages[n];
      if message.EndOfStream? {
        r := EndShard(writer, size, messages, n, message);
        return;
      }
      if !message.Data? || message.sequence != n {
        RefusedHere(messages, n, writer.header, size, writer.sum, Err(Violation));
        return Err(Violation);
      }
      var appended := TakeBlock(writer, messages, n, message);
      if appended.Err? {
        RefusedHere(messages, n, writer.header, size, writer.sum, Err(Refused(appended.error)));
        return Err(Refused(appended.error));
      }
    }
    NeverEnded(messages, writer.header, size, writer.sum);
    return Err(ConnectionLost);
  }

  lemma NeverEnded(messages: seq<Message>, h: Header, size: U64, sum: Checksum)
    requires HeaderOk(h) && Framed(messages, |messages|, sum)
    ensures Received(messages, h, size, sum, Err(ConnectionLost))
  {
  }

  /** `put_shard`, from the request to the answer. */
  method ReceiveShard(h: Header, sum: Checksum, size: U64, messages: seq<Message>)
    returns (r: Result<seq<Byte>, ReceiveError>)
    requires |h.keyHash| == 32 && |h.versionId| == 16
    requires HeaderOk(h) && ShardFileLength(h.scheme.k, h.blockLength, size).Some? ==>
               ShardFileLength(h.scheme.k, h.blockLength, size).value < TWO_TO_64
    ensures !HeaderOk(h) ==> r == Err(BadRequest)
    ensures HeaderOk(h) ==> Received(messages, h, size, sum, r)
  {
    var scheme := NewScheme(h.scheme.k, h.scheme.m);
    if scheme.Err? || h.shardIndex >= h.scheme.Total() {
      return Err(BadRequest);
    }
    var length := ShardFileLength(h.scheme.k, h.blockLength, size);
    if length.None? {
      return Err(BadObjectSize);
    }
    LengthPositive(h.scheme.k, h.blockLength, size);
    var writer := new ShardFileWriter(h, sum, length.value);
    r := ReceiveBlocks(writer, size, messages);
  }

  lemma LengthPositive(k: nat, blockLength: nat, size: nat)
    requires k > 0 && ShardFileLength(k, blockLength, size).Some?
    ensures ShardFileLength(k, blockLength, size).value > 0
  {
    ShardHoldsItsShare(k, blockLength, size);
  }
}
