/** The shard file on disk (crates/djbod-core/src/shardfile.rs): header page,
    blocks, footer and trailer, the writer and the reader. */
module ShardFile {
  import opened Prelude
  import opened Geometry
  import opened Erasure
  import opened Stripe

  // -------------------------------------------------------- little endian

  function LittleEndian(v: nat, n: nat): (bytes: seq<Byte>)
    ensures |bytes| == n
    decreases n, v
  {
    if n == 0 then [] else [v % 256] + LittleEndian(v / 256, n - 1)
  }

  function Number(bytes: seq<Byte>): nat {
    if bytes == [] then 0 else bytes[0] + 256 * Number(bytes[1..])
  }

  lemma {:induction false} NumberOf(v: nat, n: nat)
    requires v < Pow256(n)
    ensures Number(LittleEndian(v, n)) == v
    decreases n
  {
    if n > 0 {
      NumberOf(v / 256, n - 1);
      assert LittleEndian(v, n)[1..] == LittleEndian(v / 256, n - 1);
    }
  }

  function Bytes64(v: U64): (bytes: seq<Byte>)
    ensures |bytes| == 8
  {
    LittleEndian(v, 8)
  }

  lemma Number64(v: U64)
    ensures Number(Bytes64(v)) == v
  {
    Pow256Of8();
    NumberOf(v, 8);
  }

  lemma Number32(v: nat)
    requires v < 0x1_0000_0000
    ensures Number(LittleEndian(v, 4)) == v
  {
    assert Pow256(4) == 0x1_0000_0000;
    NumberOf(v, 4);
  }

  /** `write_u32`, `write_u64`, `copy_from_slice`: bytes over a buffer. */
  function Overwrite(buffer: seq<Byte>, offset: nat, bytes: seq<Byte>): (r: seq<Byte>)
    requires offset + |bytes| <= |buffer|
    ensures |r| == |buffer|
  {
    buffer[..offset] + bytes + buffer[offset + |bytes|..]
  }

  method WriteBytes(buffer: array<Byte>, offset: nat, bytes: seq<Byte>)
    requires offset + |bytes| <= buffer.Length
    modifies buffer
    ensures buffer[..] == Overwrite(old(buffer[..]), offset, bytes)
  {
    for i := 0 to |bytes|
      invariant forall j :: offset <= j < offset + i ==> buffer[j] == bytes[j - offset]
      invariant forall j :: 0 <= j < buffer.Length && !(offset <= j < offset + i) ==> buffer[j] == old(buffer[j])
    {
      buffer[offset + i] := bytes[i];
    }
  }

  /** A checksum that lives inside what it covers is taken with its own eight
      bytes read as zero. */
  function ZeroedSum(bytes: seq<Byte>, at: nat, sum: Checksum): U64
    requires at + 8 <= |bytes|
  {
    sum(Overwrite(bytes, at, Zeros(8)))
  }

  // --------------------------------------------------------------- header

  datatype Header = Header(scheme: Scheme, shardIndex: nat, blockLength: U64, keyHash: seq<Byte>, versionId: seq<Byte>)

  const MAGIC: seq<Byte> := [0x44, 0x4A, 0x42, 0x4F, 0x44, 0x2D, 0x53, 0x46]  // DJBOD-SF

  ghost predicate HeaderOk(h: Header) {
    h.scheme.Valid() && h.shardIndex < h.scheme.Total() && |h.keyHash| == 32 && |h.versionId| == 16
  }

  /** Everything before the header's own checksum. */
  function HeaderFront(h: Header): (front: seq<Byte>)
    requires h.scheme.k < 256 && h.scheme.m < 256 && h.shardIndex < 256 && |h.keyHash| == 32 && |h.versionId| == 16
    ensures |front| == 80
  {
    Preamble() + [h.scheme.k, h.scheme.m, h.shardIndex, 0] + Bytes64(h.blockLength) + h.keyHash + h.versionId
  }

  /** Magic, format version, checksum algorithm and flags. */
  function Preamble(): (p: seq<Byte>)
    ensures |p| == 20
  {
    MAGIC + Bytes32(1) + Bytes32(1) + Bytes32(0)
  }

  function Bytes32(v: nat): (bytes: seq<Byte>)
    ensures |bytes| == 4
  {
    LittleEndian(v, 4)
  }

  function HeaderPage(h: Header, sum: Checksum): (page: seq<Byte>)
    requires h.scheme.k < 256 && h.scheme.m < 256 && h.shardIndex < 256 && |h.keyHash| == 32 && |h.versionId| == 16
    ensures |page| == HEADER_LEN
  {
    HeaderFront(h) + Bytes64(sum(HeaderFront(h) + Zeros(4016))) + Zeros(4008)
  }

  /** Write the next field of a page that is zero from there on. */
  method WriteNext(page: array<Byte>, offset: nat, bytes: seq<Byte>, ghost front: seq<Byte>)
    requires offset == |front| && offset + |bytes| <= page.Length && page[..] == front + Zeros(page.Length - offset)
    modifies page
    ensures page[..] == (front + bytes) + Zeros(page.Length - offset - |bytes|)
  {
    WriteBytes(page, offset, bytes);
  }

  /** `ShardFileHeader::encode`: the fields written in place into a zeroed
      page, the checksum last. */
  method EncodeHeader(h: Header, sum: Checksum) returns (page: array<Byte>)
    requires HeaderOk(h)
    ensures fresh(page) && page[..] == HeaderPage(h, sum)
  {
    page := new Byte[HEADER_LEN](_ => 0);
    assert page[..] == [] + Zeros(4096);
    WritePreamble(page);
    WriteFields(page, h);
    ghost var front := HeaderFront(h);
    assert Overwrite(page[..], 80, Zeros(8)) == front + Zeros(4016);
    var checksum := ZeroedSum(page[..], 80, sum);
    WriteNext(page, 80, Bytes64(checksum), front);
  }

  method WritePreamble(page: array<Byte>)
    requires page.Length == HEADER_LEN && page[..] == [] + Zeros(4096)
    modifies page
    ensures page[..] == Preamble() + Zeros(4076)
  {
    WriteNext(page, 0, MAGIC, []);
    assert [] + MAGIC == MAGIC;
    WriteNext(page, 8, Bytes32(1), MAGIC);
    WriteNext(page, 12, Bytes32(1), MAGIC + Bytes32(1));
    WriteNext(page, 16, Bytes32(0), MAGIC + Bytes32(1) + Bytes32(1));
  }

  method WriteFields(page: array<Byte>, h: Header)
    requires HeaderOk(h) && page.Length == HEADER_LEN && page[..] == Preamble() + Zeros(4076)
    modifies page
    ensures page[..] == HeaderFront(h) + Zeros(4016)
  {
    ghost var front := Preamble();
    var bytes: seq<Byte> := [h.scheme.k, h.scheme.m, h.shardIndex];
    WriteNext(page, 20, bytes, front);
    front := front + [h.scheme.k, h.scheme.m, h.shardIndex, 0];
    assert (Preamble() + bytes) + Zeros(4073) == front + Zeros(4072);
    WriteNext(page, 24, Bytes64(h.blockLength), front);
    front := front + Bytes64(h.blockLength);
    WriteNext(page, 32, h.keyHash, front);
    front := front + h.keyHash;
    WriteNext(page, 64, h.versionId, front);
  }

  datatype FileError =
    | TooShort | BadMagic | UnsupportedFormatVersion | UnsupportedChecksumAlgorithm | HeaderChecksumMismatch
    | InvalidScheme(error: SchemeError) | ShardIndexOutOfRange | TrailerInvariant | BadFooterLength
    | FooterChecksumMismatch | InconsistentFooter | BlockOutOfRange | WrongShardIndex | BadBlockLength
    | BlockAfterShortBlock | SuppliedChecksumMismatch | NoBlocks | GeometryMismatch

  lemma {:induction false} NumberBound(bytes: seq<Byte>)
    ensures Number(bytes) < Pow256(|bytes|)
  {
    if bytes != [] {
      NumberBound(bytes[1..]);
    }
  }

  lemma Pow256Of8()
    ensures Pow256(8) == TWO_TO_64
  {
    assert Pow256(4) == 0x1_0000_0000;
    assert Pow256(8) == 256 * 256 * 256 * 256 * Pow256(4);
  }

  function Read64(bytes: seq<Byte>, offset: nat): U64
    requires offset + 8 <= |bytes|
  {
    NumberBound(bytes[offset..offset + 8]);
    Pow256Of8();
    Number(bytes[offset..offset + 8])
  }

  /** `ShardFileHeader::decode`, check by check. */
  function DecodeHeader(page: seq<Byte>, sum: Checksum): Result<Header, FileError> {
    if |page| != HEADER_LEN then Err(TooShort)
    else if page[0..8] != MAGIC then Err(BadMagic)
    else if Number(page[8..12]) != 1 then Err(UnsupportedFormatVersion)
    else if Number(page[12..16]) != 1 then Err(UnsupportedChecksumAlgorithm)
    else if ZeroedSum(page, 80, sum) != Read64(page, 80) then Err(HeaderChecksumMismatch)
    else match NewScheme(page[20], page[21])
      case Err(e) => Err(InvalidScheme(e))
      case Ok(scheme) =>
        if page[22] >= scheme.Total() then Err(ShardIndexOutOfRange)
        else Ok(Header(scheme, page[22], Read64(page, 24), page[32..64], page[64..80]))
  }

  /** A header page reads back as the header it was written for. */
  lemma HeaderRoundTrip(h: Header, sum: Checksum)
    requires HeaderOk(h)
    ensures DecodeHeader(HeaderPage(h, sum), sum) == Ok(h)
  {
    var page, front := HeaderPage(h, sum), HeaderFront(h);
    var checksum := sum(front + Zeros(4016));
    HeaderFields(h, page, front);
    assert page[80..88] == Bytes64(checksum);
    Number64(checksum);
    assert Overwrite(page, 80, Zeros(8)) == front + Zeros(4016);
    Number64(h.blockLength);
  }

  lemma HeaderFields(h: Header, page: seq<Byte>, front: seq<Byte>)
    requires HeaderOk(h) && front == HeaderFront(h) && |page| == HEADER_LEN && page[..80] == front
    ensures page[0..8] == MAGIC && Number(page[8..12]) == 1 && Number(page[12..16]) == 1
    ensures page[20] == h.scheme.k && page[21] == h.scheme.m && page[22] == h.shardIndex
    ensures page[24..32] == Bytes64(h.blockLength) && page[32..64] == h.keyHash && page[64..80] == h.versionId
  {
    assert page[..20] == front[..20] == Preamble();
    PreambleFields(page);
    assert page[20] == front[20] && page[21] == front[21] && page[22] == front[22];
    assert page[24..32] == front[24..32] == Bytes64(h.blockLength);
    assert page[32..64] == front[32..64] == h.keyHash;
    assert page[64..80] == front[64..80] == h.versionId;
  }

  lemma PreambleFields(page: seq<Byte>)
    requires |page| >= 20 && page[..20] == Preamble()
    ensures page[0..8] == MAGIC && Number(page[8..12]) == 1 && Number(page[12..16]) == 1
  {
    assert page[0..8] == Preamble()[0..8] == MAGIC;
    assert page[8..12] == Preamble()[8..12] == Bytes32(1);
    assert page[12..16] == Preamble()[12..16] == Bytes32(1);
    Number32(1);
  }

  // --------------------------------------------------------------- footer

  datatype Footer = Footer(
    blockCount: U64, lastBlockLength: U64, objectSize: U64, objectChecksum: U64, checksums: seq<U64>)

  function Table(checksums: seq<U64>): (bytes: seq<Byte>)
    ensures |bytes| == 8 * |checksums|
  {
    if checksums == [] then [] else Table(checksums[..|checksums| - 1]) + Bytes64(checksums[|checksums| - 1])
  }

  function FooterLength(f: Footer): nat {
    FOOTER_FIXED_LEN + 8 * |f.checksums|
  }

  function FooterFront(f: Footer): (bytes: seq<Byte>)
    ensures |bytes| == 32
  {
    Bytes64(f.blockCount) + Bytes64(f.lastBlockLength) + Bytes64(f.objectSize) + Bytes64(f.objectChecksum)
  }

  /** The table, then the trailer: footer length and footer offset. */
  function FooterBack(f: Footer, offset: U64): (bytes: seq<Byte>)
    requires FooterLength(f) < TWO_TO_64
    ensures |bytes| == 8 * |f.checksums| + TRAILER_LEN
  {
    Table(f.checksums) + Bytes64(FooterLength(f)) + Bytes64(offset)
  }

  /** `encode_with_trailer`. */
  function FooterBytes(f: Footer, offset: U64, sum: Checksum): (bytes: seq<Byte>)
    requires FooterLength(f) < TWO_TO_64
    ensures |bytes| == FooterLength(f) + TRAILER_LEN
  {
    FooterFront(f) + Bytes64(sum(FooterFront(f) + Zeros(8) + FooterBack(f, offset))) + FooterBack(f, offset)
  }

  /** The in-place form: fields and table into a zeroed buffer, the checksum
      last, into the gap left for it. */
  method EncodeFooter(f: Footer, offset: U64, sum: Checksum) returns (bytes: array<Byte>)
    requires FooterLength(f) < TWO_TO_64
    ensures fresh(bytes) && bytes[..] == FooterBytes(f, offset, sum)
  {
    var n := FooterLength(f);
    bytes := new Byte[n + TRAILER_LEN](_ => 0);
    assert bytes[..] == [] + Zeros(n + 16);
    WriteNext(bytes, 0, Bytes64(f.blockCount), []);
    ghost var front := Bytes64(f.blockCount);
    assert [] + front == front;
    WriteNext(bytes, 8, Bytes64(f.lastBlockLength), front);
    front := front + Bytes64(f.lastBlockLength);
    WriteNext(bytes, 16, Bytes64(f.objectSize), front);
    front := front + Bytes64(f.objectSize);
    WriteNext(bytes, 24, Bytes64(f.objectChecksum), front);
    assert front + Bytes64(f.objectChecksum) == FooterFront(f);
    front := FooterFront(f) + Zeros(8);
    assert FooterFront(f) + Zeros(n - 16) == front + Zeros(n - 24);
    WriteTable(bytes, f.checksums, front);
    front := front + Table(f.checksums);
    WriteNext(bytes, n, Bytes64(n), front);
    WriteNext(bytes, n + 8, Bytes64(offset), front + Bytes64(n));
    assert bytes[..] == FooterFront(f) + Zeros(8) + FooterBack(f, offset);
    FinishFooter(bytes, f, offset, sum);
  }

  lemma TableSnoc(checksums: seq<U64>, c: U64)
    ensures Table(checksums + [c]) == Table(checksums) + Bytes64(c)
  {
    assert (checksums + [c])[..|checksums|] == checksums;
  }

  method WriteTable(bytes: array<Byte>, checksums: seq<U64>, ghost front: seq<Byte>)
    requires |front| == 40 && bytes.Length == 56 + 8 * |checksums| && bytes[..] == front + Zeros(bytes.Length - 40)
    modifies bytes
    ensures bytes[..] == (front + Table(checksums)) + Zeros(16)
  {
    ghost var done := front;
    assert Table(checksums[..0]) == [] && front == front + [];
    for i := 0 to |checksums|
      invariant done == front + Table(checksums[..i])
      invariant bytes[..] == done + Zeros(bytes.Length - 40 - 8 * i)
    {
      WriteNext(bytes, 40 + 8 * i, Bytes64(checksums[i]), done);
      TableSnoc(checksums[..i], checksums[i]);
      assert checksums[..i + 1] == checksums[..i] + [checksums[i]];
      assert front + (Table(checksums[..i]) + Bytes64(checksums[i])) == done + Bytes64(checksums[i]);
      done := done + Bytes64(checksums[i]);
    }
    assert checksums[..|checksums|] == checksums;
  }

  /** Replacing the middle of three parts. */
  lemma OverwriteMiddle(a: seq<Byte>, gap: seq<Byte>, b: seq<Byte>, bytes: seq<Byte>)
    requires |gap| == |bytes|
    ensures Overwrite(a + gap + b, |a|, bytes) == a + bytes + b
  {
  }

  method FinishFooter(bytes: array<Byte>, f: Footer, offset: U64, sum: Checksum)
    requires FooterLength(f) < TWO_TO_64 && bytes.Length == FooterLength(f) + 16
    requires bytes[..] == FooterFront(f) + Zeros(8) + FooterBack(f, offset)
    modifies bytes
    ensures bytes[..] == FooterBytes(f, offset, sum)
  {
    OverwriteMiddle(FooterFront(f), Zeros(8), FooterBack(f, offset), Zeros(8));
    var checksum := ZeroedSum(bytes[..], 32, sum);
    OverwriteMiddle(FooterFront(f), Zeros(8), FooterBack(f, offset), Bytes64(checksum));
    WriteBytes(bytes, 32, Bytes64(checksum));
  }

  /** A word written between two parts is read back from there. */
  lemma ReadBack(a: seq<Byte>, v: U64, c: seq<Byte>)
    ensures Read64(a + Bytes64(v) + c, |a|) == v
  {
    assert (a + Bytes64(v) + c)[|a|..|a| + 8] == Bytes64(v);
    Number64(v);
  }

  function ReadTable(bytes: seq<Byte>, n: nat): (checksums: seq<U64>)
    requires 40 + 8 * n <= |bytes|
    ensures |checksums| == n
  {
    if n == 0 then [] else ReadTable(bytes, n - 1) + [Read64(bytes, 40 + 8 * (n - 1))]
  }

  /** `decode_with_trailer`, check by check. */
  function DecodeFooter(bytes: seq<Byte>, sum: Checksum): Result<Footer, FileError>
    requires |bytes| >= TRAILER_LEN
  {
    var n := |bytes| - TRAILER_LEN;
    if n < FOOTER_FIXED_LEN || (n - FOOTER_FIXED_LEN) % 8 != 0 then Err(BadFooterLength)
    else if ZeroedSum(bytes, 32, sum) != Read64(bytes, 32) then Err(FooterChecksumMismatch)
    else
      var entries := (n - FOOTER_FIXED_LEN) / 8;
      if Read64(bytes, 0) != entries then Err(InconsistentFooter)
      else if entries == 0 then Err(NoBlocks)
      else Ok(FooterFields(bytes, entries))
  }

  function FooterFields(bytes: seq<Byte>, entries: U64): Footer
    requires 40 + 8 * entries <= |bytes|
  {
    Footer(entries, Read64(bytes, 8), Read64(bytes, 16),
           Read64(bytes, 24), ReadTable(bytes, entries))
  }

  lemma {:induction false} TableRoundTrip(front: seq<Byte>, checksums: seq<U64>, back: seq<Byte>)
    requires |front| == 40
    ensures ReadTable(front + Table(checksums) + back, |checksums|) == checksums
  {
    if checksums != [] {
      var n := |checksums| - 1;
      var init, last := checksums[..n], checksums[n];
      assert checksums == init + [last];
      TableSnoc(init, last);
      var bytes := front + Table(checksums) + back;
      assert bytes == front + Table(init) + (Bytes64(last) + back);
      TableRoundTrip(front, init, Bytes64(last) + back);
      assert bytes == (front + Table(init)) + Bytes64(last) + back;
      ReadBack(front + Table(init), last, back);
    }
  }

  lemma FooterWords(f: Footer, rest: seq<Byte>)
    ensures var bytes := FooterFront(f) + rest;
            && Read64(bytes, 0) == f.blockCount && Read64(bytes, 8) == f.lastBlockLength
            && Read64(bytes, 16) == f.objectSize && Read64(bytes, 24) == f.objectChecksum
  {
    var bytes := FooterFront(f) + rest;
    var a, b, c, d := Bytes64(f.blockCount), Bytes64(f.lastBlockLength), Bytes64(f.objectSize), Bytes64(f.objectChecksum);
    assert bytes == [] + a + (b + c + d + rest) by { FourParts(a, b, c, d, rest); }
    ReadBack([], f.blockCount, b + c + d + rest);
    assert bytes == a + b + (c + d + rest) by { FourParts(a, b, c, d, rest); }
    ReadBack(a, f.lastBlockLength, c + d + rest);
    assert bytes == (a + b) + c + (d + rest) by { FourParts(a, b, c, d, rest); }
    ReadBack(a + b, f.objectSize, d + rest);
    ReadBack(a + b + c, f.objectChecksum, rest);
  }

  lemma FourParts(a: seq<Byte>, b: seq<Byte>, c: seq<Byte>, d: seq<Byte>, e: seq<Byte>)
    ensures (a + b + c + d) + e == [] + a + (b + c + d + e)
    ensures (a + b + c + d) + e == a + b + (c + d + e)
    ensures (a + b + c + d) + e == (a + b) + c + (d + e)
  {
  }

  /** Three parts end to end, taken apart again. */
  lemma Parts(a: seq<Byte>, b: seq<Byte>, c: seq<Byte>)
    ensures var whole := a + b + c;
            && whole == a + (b + c) && whole[..|a|] == a
            && whole[|a|..|a| + |b|] == b && whole[|a| + |b|..] == c
  {
  }

  lemma FooterSelfSum(front: seq<Byte>, back: seq<Byte>, sum: Checksum)
    requires |front| == 32
    ensures var bytes := front + Bytes64(sum(front + Zeros(8) + back)) + back;
            ZeroedSum(bytes, 32, sum) == Read64(bytes, 32)
  {
    var checksum := sum(front + Zeros(8) + back);
    OverwriteMiddle(front, Bytes64(checksum), back, Zeros(8));
    ReadBack(front, checksum, back);
  }

  lemma FooterTable(f: Footer, lead: seq<Byte>, offset: U64)
    requires FooterLength(f) < TWO_TO_64 && |lead| == 40
    ensures ReadTable(lead + FooterBack(f, offset), |f.checksums|) == f.checksums
  {
    var table, length, at := Table(f.checksums), Bytes64(FooterLength(f)), Bytes64(offset);
    Parts(table, length, at);
    assert lead + (table + (length + at)) == lead + table + (length + at);
    TableRoundTrip(lead, f.checksums, length + at);
  }

  /** What decoding looks at, once each field has been read. */
  lemma DecodeAccepts(bytes: seq<Byte>, entries: U64, sum: Checksum)
    requires entries > 0 && |bytes| == FOOTER_FIXED_LEN + 8 * entries + TRAILER_LEN
    requires ZeroedSum(bytes, 32, sum) == Read64(bytes, 32) && Read64(bytes, 0) == entries
    ensures DecodeFooter(bytes, sum) == Ok(FooterFields(bytes, entries))
  {
  }

  lemma FieldsAre(bytes: seq<Byte>, f: Footer)
    requires f.blockCount == |f.checksums| && 40 + 8 * |f.checksums| <= |bytes|
    requires Read64(bytes, 8) == f.lastBlockLength && Read64(bytes, 16) == f.objectSize
    requires Read64(bytes, 24) == f.objectChecksum && ReadTable(bytes, |f.checksums|) == f.checksums
    ensures FooterFields(bytes, |f.checksums|) == f
  {
  }

  lemma FooterReads(f: Footer, offset: U64, sum: Checksum)
    requires FooterLength(f) < TWO_TO_64
    ensures var bytes := FooterBytes(f, offset, sum);
            && Read64(bytes, 0) == f.blockCount && Read64(bytes, 8) == f.lastBlockLength
            && Read64(bytes, 16) == f.objectSize && Read64(bytes, 24) == f.objectChecksum
  {
    var front, back := FooterFront(f), FooterBack(f, offset);
    var checksum := Bytes64(sum(front + Zeros(8) + back));
    Parts(front, checksum, back);
    FooterWords(f, checksum + back);
  }

  lemma FooterReadsTable(f: Footer, offset: U64, sum: Checksum)
    requires FooterLength(f) < TWO_TO_64
    ensures ReadTable(FooterBytes(f, offset, sum), |f.checksums|) == f.checksums
  {
    var front, back := FooterFront(f), FooterBack(f, offset);
    FooterTable(f, front + Bytes64(sum(front + Zeros(8) + back)), offset);
  }

  /** A footer reads back as written. */
  lemma FooterRoundTrip(f: Footer, offset: U64, sum: Checksum)
    requires FooterLength(f) < TWO_TO_64 && f.blockCount == |f.checksums| > 0
    ensures DecodeFooter(FooterBytes(f, offset, sum), sum) == Ok(f)
  {
    FooterReads(f, offset, sum);
    FooterReadsTable(f, offset, sum);
    FooterSelfSum(FooterFront(f), FooterBack(f, offset), sum);
    var bytes := FooterBytes(f, offset, sum);
    DecodeAccepts(bytes, |f.checksums|, sum);
    FieldsAre(bytes, f);
  }

  lemma TrailerFields(f: Footer, offset: U64, sum: Checksum)
    requires FooterLength(f) < TWO_TO_64
    ensures var bytes := FooterBytes(f, offset, sum);
            Read64(bytes, |bytes| - 16) == FooterLength(f) && Read64(bytes, |bytes| - 8) == offset
  {
    var bytes := FooterBytes(f, offset, sum);
    var lead := bytes[..|bytes| - 16];
    var length, at := Bytes64(FooterLength(f)), Bytes64(offset);
    assert bytes == lead + length + at;
    ReadBack(lead, FooterLength(f), at);
    assert bytes == (lead + length) + at + [];
    ReadBack(lead + length, offset, []);
  }

  // ------------------------------------------------------ blocks in a file

  /** Blocks a file may hold so far: every one but the last is whole. */
  ghost predicate Stacked(blocks: seq<Block>, blockLength: nat) {
    && (forall i :: 0 <= i < |blocks| ==> 1 <= |blocks[i]| <= blockLength)
    && (forall i :: 0 <= i < |blocks| - 1 ==> |blocks[i]| == blockLength)
  }

  lemma {:induction false} FlattenSnoc(blocks: seq<Block>, b: Block)
    ensures Flatten(blocks + [b]) == Flatten(blocks) + b
  {
    if blocks == [] {
      assert [b][1..] == [] && Flatten([b]) == b + [];
      assert [] + [b] == [b];
    } else {
      FlattenSnoc(blocks[1..], b);
      assert (blocks + [b])[1..] == blocks[1..] + [b];
    }
  }

  lemma {:induction false} StackedLength(blocks: seq<Block>, blockLength: nat)
    requires Stacked(blocks, blockLength) && blocks != []
    ensures |Flatten(blocks)| == (|blocks| - 1) * blockLength + |blocks[|blocks| - 1]|
  {
    if |blocks| == 1 {
      assert blocks[1..] == [] && Flatten(blocks) == blocks[0] + [];
    } else {
      StackedLength(blocks[1..], blockLength);
      assert (|blocks| - 1) * blockLength == blockLength + (|blocks| - 2) * blockLength;
    }
  }

  lemma SliceOfRest(head: seq<Byte>, rest: seq<Byte>, at: nat, n: nat)
    requires at + n <= |rest|
    ensures (head + rest)[|head| + at..|head| + at + n] == rest[at..at + n]
  {
  }

  lemma OneLengthOn(length: nat, i: nat)
    requires i > 0
    ensures i * length == length + (i - 1) * length && (i - 1) * length >= 0
  {
  }

  /** Block `i` sits at `i` whole block lengths. */
  lemma {:induction false} BlockPosition(blocks: seq<Block>, blockLength: nat, i: nat)
    requires Stacked(blocks, blockLength) && i < |blocks|
    ensures 0 <= i * blockLength && i * blockLength + |blocks[i]| <= |Flatten(blocks)|
    ensures Flatten(blocks)[i * blockLength..i * blockLength + |blocks[i]|] == blocks[i]
  {
    assert Flatten(blocks) == blocks[0] + Flatten(blocks[1..]);
    if i > 0 {
      BlockPosition(blocks[1..], blockLength, i - 1);
      OneLengthOn(blockLength, i);
      SliceOfRest(blocks[0], Flatten(blocks[1..]), (i - 1) * blockLength, |blocks[i]|);
    }
  }

  function Sums(blocks: seq<Block>, sum: Checksum): (checksums: seq<U64>)
    ensures |checksums| == |blocks|
  {
    seq(|blocks|, i requires 0 <= i < |blocks| => sum(blocks[i]))
  }

  /** The blocks are what an object of `size` bytes leaves on one shard. */
  ghost predicate FitsGeometry(h: Header, blocks: seq<Block>, size: nat)
    requires h.scheme.k > 0
  {
    && blocks != []
    && GeometryOf(h.scheme.k, h.blockLength, size) == Some(ShardGeometry(|blocks|, |blocks[|blocks| - 1]|))
  }

  /** A finished file fits in 64 bits. */
  ghost predicate Addressable(h: Header, blocks: seq<Block>) {
    HEADER_LEN + |Flatten(blocks)| + FOOTER_FIXED_LEN + 8 * |blocks| + TRAILER_LEN < TWO_TO_64
  }

  ghost function FooterFor(h: Header, blocks: seq<Block>, size: U64, checksum: U64, sum: Checksum): Footer
    requires blocks != [] && |blocks| < TWO_TO_64 && |blocks[|blocks| - 1]| < TWO_TO_64
  {
    Footer(|blocks|, |blocks[|blocks| - 1]|, size, checksum, Sums(blocks, sum))
  }

  /** The whole of a finished shard file. */
  ghost function FileBytes(h: Header, blocks: seq<Block>, size: U64, checksum: U64, sum: Checksum): seq<Byte>
    requires HeaderOk(h) && Stacked(blocks, h.blockLength) && blocks != [] && Addressable(h, blocks)
  {
    StackedLength(blocks, h.blockLength);
    HeaderPage(h, sum) + Flatten(blocks)
    + FooterBytes(FooterFor(h, blocks, size, checksum, sum), HEADER_LEN + |Flatten(blocks)|, sum)
  }

  // --------------------------------------------------------------- reader

  datatype Reader = Reader(header: Header, footer: Footer, file: seq<Byte>)

  predicate GeometryMatches(h: Header, f: Footer)
    requires h.scheme.k > 0
  {
    GeometryOf(h.scheme.k, h.blockLength, f.objectSize) == Some(ShardGeometry(f.blockCount, f.lastBlockLength))
  }

  /** `ShardFileReader::open`, check by check, on the bytes of the file. */
  function Open(file: seq<Byte>, sum: Checksum): Result<Reader, FileError> {
    var n := |file|;
    if n < HEADER_LEN + 1 + FOOTER_FIXED_LEN + 8 + TRAILER_LEN then Err(TooShort)
    else
      var footerLength, footerOffset := Read64(file, n - 16), Read64(file, n - 8);
      if footerOffset + footerLength + TRAILER_LEN != n then Err(TrailerInvariant)
      else if footerLength < FOOTER_FIXED_LEN || (footerLength - FOOTER_FIXED_LEN) % 8 != 0 then Err(BadFooterLength)
      else match DecodeFooter(file[footerOffset..], sum)
        case Err(e) => Err(e)
        case Ok(footer) =>
          match DecodeHeader(file[..HEADER_LEN], sum)
          case Err(e) => Err(e)
          case Ok(header) =>
            if footer.lastBlockLength == 0 || footer.lastBlockLength > header.blockLength then Err(InconsistentFooter)
            else if HEADER_LEN + (footer.blockCount - 1) * header.blockLength + footer.lastBlockLength != footerOffset then
              Err(InconsistentFooter)
            else if !GeometryMatches(header, footer) then Err(GeometryMismatch)
            else Ok(Reader(header, footer, file))
  }

  /** `block_length`. */
  function StoredLength(r: Reader, i: nat): Result<nat, FileError> {
    if i >= r.footer.blockCount then Err(BlockOutOfRange)
    else if i == r.footer.blockCount - 1 then Ok(r.footer.lastBlockLength)
    else Ok(r.header.blockLength)
  }

  /** `read_block`. A read past the end of the file is the file being short. */
  function ReadBlock(r: Reader, i: nat): Result<ShardBlock, FileError> {
    match StoredLength(r, i)
    case Err(e) => Err(e)
    case Ok(length) =>
      var at := HEADER_LEN + i * r.header.blockLength;
      if at < 0 || at + length > |r.file| || i >= |r.footer.checksums| then Err(TooShort)
      else Ok(ShardBlock(r.header.shardIndex, r.file[at..at + length], r.footer.checksums[i]))
  }

  /** The header page passes its checksum, taken with the checksum's own bytes
      zeroed, and opens as this format does. */
  ghost predicate HeaderChecked(page: seq<Byte>, sum: Checksum) {
    && |page| == HEADER_LEN && page[0..8] == MAGIC && Number(page[8..12]) == 1 && Number(page[12..16]) == 1
    && ZeroedSum(page, 80, sum) == Read64(page, 80)
  }

  ghost predicate FooterChecked(bytes: seq<Byte>, sum: Checksum) {
    |bytes| >= 40 && ZeroedSum(bytes, 32, sum) == Read64(bytes, 32)
  }

  lemma DecodedHeader(page: seq<Byte>, sum: Checksum)
    requires DecodeHeader(page, sum).Ok?
    ensures HeaderChecked(page, sum) && HeaderOk(DecodeHeader(page, sum).value)
  {
  }

  lemma DecodedFooter(bytes: seq<Byte>, sum: Checksum)
    requires |bytes| >= TRAILER_LEN && DecodeFooter(bytes, sum).Ok?
    ensures var f := DecodeFooter(bytes, sum).value;
            && FooterChecked(bytes, sum) && f.blockCount > 0 && |f.checksums| == f.blockCount
            && |bytes| == FOOTER_FIXED_LEN + 8 * f.blockCount + TRAILER_LEN
  {
  }

  /** How the parts of an open file lie in it. */
  ghost predicate PartsAgree(file: seq<Byte>, r: Reader, at: nat, sum: Checksum) {
    && r.file == file && HEADER_LEN <= |file| && at + TRAILER_LEN <= |file|
    && DecodeHeader(file[..HEADER_LEN], sum) == Ok(r.header) && DecodeFooter(file[at..], sum) == Ok(r.footer)
    && 0 < r.footer.lastBlockLength <= r.header.blockLength
    && HEADER_LEN + (r.footer.blockCount - 1) * r.header.blockLength + r.footer.lastBlockLength == at
    && r.header.scheme.k > 0 && GeometryMatches(r.header, r.footer)
  }

  lemma OpenedParts(file: seq<Byte>, sum: Checksum)
    requires Open(file, sum).Ok?
    ensures |file| >= 8 && PartsAgree(file, Open(file, sum).value, Read64(file, |file| - 8), sum)
  {
  }

  /** What an open file promises: its two ends pass their checksums, header, blocks,
      footer and trailer fill it exactly, and it holds the blocks an object of
      the recorded size leaves on a shard. */
  lemma OpenedIsSound(file: seq<Byte>, sum: Checksum)
    requires Open(file, sum).Ok?
    ensures var h, f := Open(file, sum).value.header, Open(file, sum).value.footer;
            && HeaderOk(h) && GeometryMatches(h, f) && f.blockCount > 0 && |f.checksums| == f.blockCount
            && 0 < f.lastBlockLength <= h.blockLength
            && var at := HEADER_LEN + (f.blockCount - 1) * h.blockLength + f.lastBlockLength;
               && |file| == at + FOOTER_FIXED_LEN + 8 * f.blockCount + TRAILER_LEN
               && HeaderChecked(file[..HEADER_LEN], sum) && 0 <= at <= |file| && FooterChecked(file[at..], sum)
  {
    OpenedParts(file, sum);
    DecodedHeader(file[..HEADER_LEN], sum);
    DecodedFooter(file[Read64(file, |file| - 8)..], sum);
  }

  lemma FileParts(h: Header, blocks: seq<Block>, size: U64, checksum: U64, sum: Checksum)
    requires HeaderOk(h) && Stacked(blocks, h.blockLength) && blocks != [] && Addressable(h, blocks)
    ensures |blocks[|blocks| - 1]| < TWO_TO_64
    ensures var file, body := FileBytes(h, blocks, size, checksum, sum), Flatten(blocks);
            && |file| == HEADER_LEN + |body| + 40 + 8 * |blocks| + 16
            && file[..HEADER_LEN] == HeaderPage(h, sum)
            && file[HEADER_LEN..HEADER_LEN + |body|] == body
            && file[HEADER_LEN + |body|..] ==
                 FooterBytes(FooterFor(h, blocks, size, checksum, sum), HEADER_LEN + |body|, sum)
  {
    StackedLength(blocks, h.blockLength);
    var body := Flatten(blocks);
    Parts(HeaderPage(h, sum), body, FooterBytes(FooterFor(h, blocks, size, checksum, sum), HEADER_LEN + |body|, sum));
  }

  /** Words at the end of a file are words at the end of its last part. */
  lemma ReadInTail(file: seq<Byte>, tail: seq<Byte>, at: nat, back: nat)
    requires at <= |file| && file[at..] == tail && 8 <= back <= |tail|
    ensures Read64(file, |file| - back) == Read64(tail, |tail| - back)
  {
    assert file[|file| - back..|file| - back + 8] == tail[|tail| - back..|tail| - back + 8];
  }

  /** What `open` looks at, once each part has been read. */
  lemma OpenAccepts(file: seq<Byte>, h: Header, f: Footer, offset: nat, sum: Checksum)
    requires |file| == offset + FooterLength(f) + 16 && offset > HEADER_LEN && f.checksums != [] && h.scheme.k > 0
    requires Read64(file, |file| - 16) == FooterLength(f) && Read64(file, |file| - 8) == offset
    requires DecodeFooter(file[offset..], sum) == Ok(f) && DecodeHeader(file[..HEADER_LEN], sum) == Ok(h)
    requires 1 <= f.lastBlockLength <= h.blockLength
    requires HEADER_LEN + (f.blockCount - 1) * h.blockLength + f.lastBlockLength == offset
    requires GeometryMatches(h, f)
    ensures Open(file, sum) == Ok(Reader(h, f, file))
  {
  }

  /** A finished file passes every check `open` makes. */
  lemma FinishedFileOpens(h: Header, blocks: seq<Block>, size: U64, checksum: U64, sum: Checksum)
    requires HeaderOk(h) && Stacked(blocks, h.blockLength) && Addressable(h, blocks) && FitsGeometry(h, blocks, size)
    ensures |blocks[|blocks| - 1]| < TWO_TO_64
    ensures var file := FileBytes(h, blocks, size, checksum, sum);
            Open(file, sum) == Ok(Reader(h, FooterFor(h, blocks, size, checksum, sum), file))
  {
    FileParts(h, blocks, size, checksum, sum);
    StackedLength(blocks, h.blockLength);
    var file := FileBytes(h, blocks, size, checksum, sum);
    var footer := FooterFor(h, blocks, size, checksum, sum);
    TailReads(file, footer, HEADER_LEN + |Flatten(blocks)|, sum);
    HeaderRoundTrip(h, sum);
    OpenAccepts(file, h, footer, HEADER_LEN + |Flatten(blocks)|, sum);
  }

  lemma TailReads(file: seq<Byte>, f: Footer, offset: U64, sum: Checksum)
    requires FooterLength(f) < TWO_TO_64 && f.blockCount == |f.checksums| > 0
    requires offset <= |file| && file[offset..] == FooterBytes(f, offset, sum)
    ensures Read64(file, |file| - 16) == FooterLength(f) && Read64(file, |file| - 8) == offset
    ensures DecodeFooter(file[offset..], sum) == Ok(f)
  {
    var tail := FooterBytes(f, offset, sum);
    TrailerFields(f, offset, sum);
    ReadInTail(file, tail, offset, 16);
    ReadInTail(file, tail, offset, 8);
    FooterRoundTrip(f, offset, sum);
  }

  lemma SliceOfSlice(file: seq<Byte>, from: nat, body: seq<Byte>, at: nat, n: nat)
    requires from + |body| <= |file| && file[from..from + |body|] == body && at + n <= |body|
    ensures file[from + at..from + at + n] == body[at..at + n]
  {
    var slice := file[from + at..from + at + n];
    forall k | 0 <= k < n ensures slice[k] == body[at + k] {
      assert file[from..from + |body|][at + k] == file[from + at + k];
    }
  }

  lemma ReadsAt(r: Reader, i: nat, at: nat, bytes: Block)
    requires i < |r.footer.checksums| && StoredLength(r, i) == Ok(|bytes|) && at == HEADER_LEN + i * r.header.blockLength
    requires at + |bytes| <= |r.file| && r.file[at..at + |bytes|] == bytes
    ensures ReadBlock(r, i) == Ok(ShardBlock(r.header.shardIndex, bytes, r.footer.checksums[i]))
  {
  }

  /** And every block reads back with its checksum. */
  lemma FinishedBlockReadsBack(h: Header, blocks: seq<Block>, size: U64, checksum: U64, sum: Checksum, i: nat)
    requires HeaderOk(h) && Stacked(blocks, h.blockLength) && Addressable(h, blocks) && blocks != [] && i < |blocks|
    ensures |blocks[|blocks| - 1]| < TWO_TO_64
    ensures ReadBlock(Reader(h, FooterFor(h, blocks, size, checksum, sum), FileBytes(h, blocks, size, checksum, sum)), i)
            == Ok(ShardBlock(h.shardIndex, blocks[i], sum(blocks[i])))
  {
    FileParts(h, blocks, size, checksum, sum);
    BlockPosition(blocks, h.blockLength, i);
    var file := FileBytes(h, blocks, size, checksum, sum);
    SliceOfSlice(file, HEADER_LEN, Flatten(blocks), i * h.blockLength, |blocks[i]|);
    ReadsAt(Reader(h, FooterFor(h, blocks, size, checksum, sum), file), i, HEADER_LEN + i * h.blockLength, blocks[i]);
  }

  /** The finished length is the length reserved before the first block. */
  lemma FinishedLength(h: Header, blocks: seq<Block>, size: U64, checksum: U64, sum: Checksum)
    requires HeaderOk(h) && Stacked(blocks, h.blockLength) && Addressable(h, blocks) && FitsGeometry(h, blocks, size)
    ensures ShardFileLength(h.scheme.k, h.blockLength, size) == Some(|FileBytes(h, blocks, size, checksum, sum)|)
  {
    FileParts(h, blocks, size, checksum, sum);
    StackedLength(blocks, h.blockLength);
  }

  /** Header and blocks with the footer after them are the finished file. */
  lemma FinishedContents(h: Header, blocks: seq<Block>, size: U64, checksum: U64, sum: Checksum, written: seq<Byte>)
    requires HeaderOk(h) && Stacked(blocks, h.blockLength) && Addressable(h, blocks) && FitsGeometry(h, blocks, size)
    requires written == HeaderPage(h, sum) + Flatten(blocks)
    ensures |blocks[|blocks| - 1]| < TWO_TO_64
    ensures |written| == HEADER_LEN + (|blocks| - 1) * h.blockLength + |blocks[|blocks| - 1]| < TWO_TO_64
    ensures FooterLength(FooterFor(h, blocks, size, checksum, sum)) < TWO_TO_64
    ensures written + FooterBytes(FooterFor(h, blocks, size, checksum, sum), |written|, sum)
            == FileBytes(h, blocks, size, checksum, sum)
    ensures ShardFileLength(h.scheme.k, h.blockLength, size) == Some(|FileBytes(h, blocks, size, checksum, sum)|)
  {
    StackedLength(blocks, h.blockLength);
    FinishedLength(h, blocks, size, checksum, sum);
  }

  // --------------------------------------------------------------- writer

  /** What `append_block` demands of the next block. */
  predicate Appendable(h: Header, shortWritten: bool, b: ShardBlock, sum: Checksum) {
    b.index == h.shardIndex && !shortWritten && 1 <= |b.bytes| <= h.blockLength && sum(b.bytes) == b.checksum
  }

  lemma StackedSnoc(blocks: seq<Block>, b: Block, blockLength: nat, sum: Checksum)
    requires Stacked(blocks, blockLength) && 1 <= |b| <= blockLength
    requires blocks != [] ==> |blocks[|blocks| - 1]| == blockLength
    ensures Stacked(blocks + [b], blockLength)
    ensures Flatten(blocks + [b]) == Flatten(blocks) + b
    ensures Sums(blocks + [b], sum) == Sums(blocks, sum) + [sum(b)]
  {
    FlattenSnoc(blocks, b);
  }

  lemma HeaderThenBlocks(page: seq<Byte>, body: seq<Byte>, b: Block)
    ensures page + (body + b) == page + body + b
  {
  }

  lemma WholeFile(file: seq<Byte>, n: nat)
    requires n <= |file|
    ensures n == |file| ==> file[..n] == file
  {
  }

  class ShardFileWriter {
    const header: Header
    const sum: Checksum
    /** The length `fallocate` reserved, 0 without a reservation. */
    const reserved: nat
    var file: seq<Byte>
    var position: nat
    var checksums: seq<U64>
    var lastBlockLength: nat
    var shortBlockWritten: bool
    ghost var blocks: seq<Block>

    ghost predicate Valid()
      reads this
    {
      && HeaderOk(header) && Stacked(blocks, header.blockLength)
      && position <= |file| && |file| == (if position < reserved then reserved else position)
      && file[..position] == HeaderPage(header, sum) + Flatten(blocks)
      && checksums == Sums(blocks, sum)
      && (blocks != [] ==> lastBlockLength == |blocks[|blocks| - 1]|)
      && (shortBlockWritten <==> blocks != [] && |blocks[|blocks| - 1]| < header.blockLength)
    }

    /** `create_with_reservation`. */
    constructor (header: Header, sum: Checksum, reserved: nat)
      requires HeaderOk(header)
      ensures Valid() && blocks == [] && this.header == header && this.sum == sum && this.reserved == reserved
    {
      this.header, this.sum, this.reserved := header, sum, reserved;
      var page := EncodeHeader(header, sum);
      file := page[..] + Zeros(if HEADER_LEN < reserved then reserved - HEADER_LEN else 0);
      position := HEADER_LEN;
      checksums, lastBlockLength, shortBlockWritten, blocks := [], 0, false, [];
    }

    /** Write at the current position, over a reservation or past the end. */
    method WriteAll(bytes: seq<Byte>)
      requires position <= |file|
      modifies this`file, this`position
      ensures position == old(position) + |bytes|
      ensures |file| == (if old(|file|) < position then position else old(|file|))
      ensures file[..position] == old(file[..position]) + bytes
    {
      file := file[..position] + bytes + (if position + |bytes| <= |file| then file[position + |bytes|..] else []);
      position := position + |bytes|;
    }

    /** `append_block`. */
    method AppendBlock(b: ShardBlock) returns (r: Result<(), FileError>)
      requires Valid()
      modifies this
      ensures Valid()
      ensures r.Ok? <==> Appendable(header, old(shortBlockWritten), b, sum)
      ensures blocks == if r.Ok? then old(blocks) + [b.bytes] else old(blocks)
      ensures r.Err? ==> unchanged(this)
    {
      if b.index != header.shardIndex {
        return Err(WrongShardIndex);
      }
      if shortBlockWritten {
        return Err(BlockAfterShortBlock);
      }
      if |b.bytes| == 0 || |b.bytes| > header.blockLength {
        return Err(BadBlockLength);
      }
      var computed := sum(b.bytes);
      if computed != b.checksum {
        return Err(SuppliedChecksumMismatch);
      }
      StackedSnoc(blocks, b.bytes, header.blockLength, sum);
      HeaderThenBlocks(HeaderPage(header, sum), Flatten(blocks), b.bytes);
      WriteAll(b.bytes);
      checksums := checksums + [computed];
      lastBlockLength := |b.bytes|;
      shortBlockWritten := |b.bytes| < header.blockLength;
      blocks := blocks + [b.bytes];
      return Ok(());
    }

    /** Footer and trailer after the last block. */
    method WriteFooter(footer: Footer, ghost h: Header, ghost stacked: seq<Block>)
      requires Valid() && h == header && stacked == blocks && Addressable(h, stacked)
      requires FitsGeometry(h, stacked, footer.objectSize)
      requires |stacked[|stacked| - 1]| < TWO_TO_64
      requires footer == FooterFor(h, stacked, footer.objectSize, footer.objectChecksum, sum)
      requires ShardFileLength(h.scheme.k, h.blockLength, footer.objectSize) == Some(reserved) || reserved == 0
      modifies this`file, this`position
      ensures file == FileBytes(h, stacked, footer.objectSize, footer.objectChecksum, sum)
      ensures reserved > 0 ==> |file| == reserved
    {
      FinishedContents(h, stacked, footer.objectSize, footer.objectChecksum, sum, file[..position]);
      var offset := HEADER_LEN + (footer.blockCount - 1) * header.blockLength + footer.lastBlockLength;
      var bytes := EncodeFooter(footer, offset, sum);
      WriteAll(bytes[..]);
      WholeFile(file, position);
    }

    /** `finish`: refused exactly when the blocks are not what an object of
        this size leaves on a shard; otherwise the file is the finished one,
        of exactly the reserved length. */
    method Finish(objectSize: U64, objectChecksum: U64) returns (r: Result<Footer, FileError>)
      requires Valid() && (FitsGeometry(header, blocks, objectSize) ==> Addressable(header, blocks))
      requires ShardFileLength(header.scheme.k, header.blockLength, objectSize) == Some(reserved) || reserved == 0
      modifies this
      ensures blocks == old(blocks)
      ensures r.Ok? <==> FitsGeometry(header, blocks, objectSize)
      ensures r.Ok? ==> file == FileBytes(header, blocks, objectSize, objectChecksum, sum)
      ensures r.Ok? && reserved > 0 ==> |file| == reserved
    {
      if checksums == [] {
        return Err(NoBlocks);
      }
      if GeometryOf(header.scheme.k, header.blockLength, objectSize) != Some(ShardGeometry(|checksums|, lastBlockLength)) {
        return Err(GeometryMismatch);
      }
      FinishedContents(header, blocks, objectSize, objectChecksum, sum, file[..position]);
      var footer := Footer(|checksums|, lastBlockLength, objectSize, objectChecksum, checksums);
      WriteFooter(footer, header, blocks);
      return Ok(footer);
    }
  }
}
