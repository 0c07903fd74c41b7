/** How an object of a given size falls into stripes and blocks
    (crates/djbod-core/src/shardfile.rs:94-130, crates/djbod-core/src/stripe.rs:105-111).
    Sizes are unbounded here; the code's are 64-bit. */
module Geometry {
  import opened Prelude

  /** `div_ceil`. */
  function CeilDiv(a: nat, b: nat): nat
    requires b > 0
  {
    (a + b - 1) / b
  }

  lemma QuotientBounds(a: nat, b: nat)
    requires b > 0
    ensures b * (a / b) <= a < b * (a / b) + b
  {
  }

  /** One step further is at least one step's length further. */
  lemma StepFurther(b: nat, p: int, q: int)
    requires p < q
    ensures b * p + b <= b * q
  {
    var d := q - p - 1;
    assert b * d >= 0;
    assert b * q == b * p + b + b * d;
  }

  /** Two numbers of steps of length `b` that bracket the same point agree. */
  lemma BracketsAgree(a: int, b: nat, p: int, q: int)
    requires b * p <= a < b * p + b && b * q <= a < b * q + b
    ensures p == q
  {
    if p < q {
      StepFurther(b, p, q);
    } else if q < p {
      StepFurther(b, q, p);
    }
  }

  /** The ceiling is the one number of `b`-sized pieces that reaches `a` and
      would not with one fewer. */
  lemma CeilDivMeans(a: nat, b: nat, q: int)
    requires b > 0
    ensures q == CeilDiv(a, b) <==> b * q - b < a <= b * q
  {
    QuotientBounds(a + b - 1, b);
    if b * q - b < a <= b * q {
      BracketsAgree(a + b - 1, b, q, CeilDiv(a, b));
    }
  }

  datatype ShardGeometry = ShardGeometry(blockCount: nat, lastBlockLength: nat)

  /** `shard_geometry`. */
  function GeometryOf(k: nat, blockLength: nat, size: nat): Option<ShardGeometry>
    requires k > 0
  {
    if size == 0 || blockLength == 0 then None
    else
      PositiveProduct(k, blockLength);
      var stripeBytes := k * blockLength;
      var count := CeilDiv(size, stripeBytes);
      CeilDivMeans(size, stripeBytes, count);
      LastStripe(stripeBytes, size);
      Some(ShardGeometry(count, CeilDiv(size - (count - 1) * stripeBytes, k)))
  }

  lemma PositiveProduct(a: nat, b: nat)
    requires a > 0 && b > 0
    ensures a * b > 0 && a * b >= a && a * b >= b
  {
  }

  /** All stripes but the last are full, and the last holds something. */
  lemma LastStripe(stripe: nat, size: nat)
    requires stripe > 0 && size > 0
    ensures CeilDiv(size, stripe) >= 1
    ensures 1 <= size - (CeilDiv(size, stripe) - 1) * stripe <= stripe
  {
    var c := CeilDiv(size, stripe);
    CeilDivMeans(size, stripe, c);
    assert (c - 1) * stripe == stripe * c - stripe;
    if c < 1 {
      StepFurther(stripe, c, 1);
    }
  }

  /** The geometry, read off the number of stripes and the last one's length. */
  lemma GeometryIs(k: nat, blockLength: nat, size: nat, stripe: nat, count: nat, last: nat)
    requires k > 0 && blockLength > 0 && size > 0 && stripe == k * blockLength && stripe > 0
    requires count == CeilDiv(size, stripe) && last == size - (count - 1) * stripe
    ensures GeometryOf(k, blockLength, size) == Some(ShardGeometry(count, CeilDiv(last, k)))
  {
  }

  lemma CeilOfMultiple(k: nat, b: nat)
    requires k > 0 && b > 0
    ensures CeilDiv(k * b, k) == b
  {
    CeilDivMeans(k * b, k, b);
  }

  /** Whole blocks in front only shift the ceiling. */
  lemma CeilShifted(k: nat, whole: nat, rest: nat)
    requires k > 0
    ensures CeilDiv(k * whole + rest, k) == whole + CeilDiv(rest, k)
  {
    var q := CeilDiv(rest, k);
    CeilDivMeans(rest, k, q);
    assert k * (whole + q) == k * whole + k * q;
    CeilDivMeans(k * whole + rest, k, whole + q);
  }

  lemma CeilAtMost(a: nat, k: nat, b: nat)
    requires k > 0 && 0 < a <= k * b
    ensures 1 <= CeilDiv(a, k) <= b
  {
    var q := CeilDiv(a, k);
    CeilDivMeans(a, k, q);
    if q > b {
      StepFurther(k, b, q);
    }
    if q < 1 {
      StepFurther(k, q, 1);
    }
  }

  /** The bytes one shard stores for an object are exactly its even share,
      rounded up, and the last block is never empty nor longer than a block. */
  lemma ShardHoldsItsShare(k: nat, blockLength: nat, size: nat)
    requires k > 0 && blockLength > 0 && size > 0
    ensures GeometryOf(k, blockLength, size).Some?
    ensures var g := GeometryOf(k, blockLength, size).value;
            && g.blockCount >= 1 && 1 <= g.lastBlockLength <= blockLength
            && (g.blockCount - 1) * blockLength + g.lastBlockLength == CeilDiv(size, k)
  {
    PositiveProduct(k, blockLength);
    var stripe := k * blockLength;
    var c := CeilDiv(size, stripe);
    LastStripe(stripe, size);
    var last := size - (c - 1) * stripe;
    CeilAtMost(last, k, blockLength);
    assert (c - 1) * (k * blockLength) == k * ((c - 1) * blockLength);
    CeilShifted(k, (c - 1) * blockLength, last);
  }

  const HEADER_LEN := 4096
  const FOOTER_FIXED_LEN := 40
  const TRAILER_LEN := 16

  /** `shard_file_length`. */
  function ShardFileLength(k: nat, blockLength: nat, size: nat): Option<int>
    requires k > 0
  {
    match GeometryOf(k, blockLength, size)
    case None => None
    case Some(g) =>
      Some(HEADER_LEN + (g.blockCount - 1) * blockLength + g.lastBlockLength
           + FOOTER_FIXED_LEN + 8 * g.blockCount + TRAILER_LEN)
  }
}
