/** Key hashes: 32 bytes, the number they make up, and the directory name in
    hex (crates/djbod-core/src/keyhash.rs:13-60). */
module KeyHash {
  import opened Prelude
  import opened ByteOrder

  /** The number the bytes spell, most significant first. */
  function Number(bytes: seq<Byte>): nat {
    if bytes == [] then 0 else Number(bytes[..|bytes| - 1]) * 256 + bytes[|bytes| - 1]
  }

  /** The last `n` bytes of a number. */
  function Bytes(v: nat, n: nat): (bytes: seq<Byte>)
    ensures |bytes| == n
  {
    if n == 0 then [] else Bytes(v / 256, n - 1) + [v % 256]
  }

  lemma {:induction false} NumberOfBytes(v: nat, n: nat)
    requires v < Pow256(n)
    ensures Number(Bytes(v, n)) == v
  {
    if n > 0 {
      NumberOfBytes(v / 256, n - 1);
      assert Bytes(v, n)[..n - 1] == Bytes(v / 256, n - 1);
    }
  }

  /** Hashes compare as the numbers they spell. */
  lemma {:induction false} NumberOrder(a: seq<Byte>, b: seq<Byte>)
    requires |a| == |b|
    ensures Less(a, b) <==> Number(a) < Number(b)
    ensures a == b <==> Number(a) == Number(b)
  {
    if a != [] {
      var n := |a| - 1;
      NumberOrder(a[..n], b[..n]);
      assert a == a[..n] + [a[n]] && b == b[..n] + [b[n]];
      if a[..n] == b[..n] {
        LessAfterPrefix(a[..n], [a[n]], [b[n]]);
      } else {
        LessByPrefix(a[..n], b[..n], [a[n]], [b[n]]);
      }
    }
  }

  // ------------------------------------------------------------------- hex

  /** A hex digit, lower case. */
  function HexDigit(d: nat): Byte
    requires d < 16
  {
    if d < 10 then 48 + d else 87 + d
  }

  function HexByte(b: Byte): (text: seq<Byte>)
    ensures |text| == 2
  {
    [HexDigit(b / 16), HexDigit(b % 16)]
  }

  /** `to_hex`. */
  function Hex(bytes: seq<Byte>): (text: seq<Byte>)
    ensures |text| == 2 * |bytes|
  {
    if bytes == [] then [] else Hex(bytes[..|bytes| - 1]) + HexByte(bytes[|bytes| - 1])
  }

  lemma HexByteOrder(a: Byte, b: Byte)
    ensures Less(HexByte(a), HexByte(b)) <==> a < b
    ensures HexByte(a) == HexByte(b) <==> a == b
  {
    var x, y := HexByte(a), HexByte(b);
    if a / 16 == b / 16 {
      assert x[..1] == y[..1] == [HexDigit(a / 16)];
      assert x == x[..1] + [x[1]] && y == y[..1] + [y[1]];
      LessAfterPrefix(x[..1], [x[1]], [y[1]]);
    } else {
      assert x == [x[0]] + [x[1]] && y == [y[0]] + [y[1]];
      LessByPrefix([x[0]], [y[0]], [x[1]], [y[1]]);
    }
  }

  /** Directory names sort as the hashes they spell. */
  lemma {:induction false} HexOrder(a: seq<Byte>, b: seq<Byte>)
    requires |a| == |b|
    ensures Less(Hex(a), Hex(b)) <==> Less(a, b)
    ensures Hex(a) == Hex(b) <==> a == b
  {
    if a != [] {
      var n := |a| - 1;
      HexOrder(a[..n], b[..n]);
      HexByteOrder(a[n], b[n]);
      assert a == a[..n] + [a[n]] && b == b[..n] + [b[n]];
      if a[..n] == b[..n] {
        LessAfterPrefix(a[..n], [a[n]], [b[n]]);
        LessAfterPrefix(Hex(a[..n]), HexByte(a[n]), HexByte(b[n]));
      } else {
        LessByPrefix(a[..n], b[..n], [a[n]], [b[n]]);
        LessByPrefix(Hex(a[..n]), Hex(b[..n]), HexByte(a[n]), HexByte(b[n]));
        assert Hex(a)[..2 * n] == Hex(a[..n]) && Hex(b)[..2 * n] == Hex(b[..n]);
      }
    }
  }

  // ----------------------------------------------------- a hash as a number

  const HASH_LEN := 32

  /** The directory name of the hash that spells `v`. */
  function DirectoryName(v: nat): (text: seq<Byte>)
    ensures |text| == 64
  {
    Hex(Bytes(v, HASH_LEN))
  }

  predicate IsHash(v: nat) {
    v < Pow256(HASH_LEN)
  }

  /** Directory names sort as the numbers: the order of a device's walk is the
      order of the merge. */
  lemma DirectoryOrder(v: nat, w: nat)
    requires IsHash(v) && IsHash(w)
    ensures Less(DirectoryName(v), DirectoryName(w)) <==> v < w
    ensures DirectoryName(v) == DirectoryName(w) <==> v == w
  {
    NumberOfBytes(v, HASH_LEN);
    NumberOfBytes(w, HASH_LEN);
    NumberOrder(Bytes(v, HASH_LEN), Bytes(w, HASH_LEN));
    HexOrder(Bytes(v, HASH_LEN), Bytes(w, HASH_LEN));
  }
}
