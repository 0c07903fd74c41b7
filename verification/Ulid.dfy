/** Version identifiers: the text form (crates/djbod-core/src/version.rs) and
    the generator (crates/djbod-node/src/ulid.rs), after the ULID
    specification's Crockford base32 encoding and monotonicity rule. A
    `VersionId` is its 128-bit value. */
module Ulid {
  import opened Prelude
  import opened ByteOrder

  const TEXT_LEN := 26
  const TWO_TO_128 := 0x1_0000_0000_0000_0000_0000_0000_0000_0000
  const TWO_TO_80 := 0x1_0000_0000_0000_0000_0000
  const TWO_TO_48 := 0x1_0000_0000_0000
  const ALPHABET := "0123456789ABCDEFGHJKMNPQRSTVWXYZ"

  type VersionId = v: nat | v < TWO_TO_128
  type Digit = d: int | 0 <= d < 32

  // ------------------------------------------------------------- numerals

  function Pow32(n: nat): nat {
    if n == 0 then 1 else 32 * Pow32(n - 1)
  }

  /** `v >> 5n`. */
  function Shift(v: nat, n: nat): nat {
    if n == 0 then v else Shift(v / 32, n - 1)
  }

  /** The number a base-32 numeral spells, most significant digit first. */
  function Value(digits: seq<Digit>): nat {
    if digits == [] then 0 else Value(digits[..|digits| - 1]) * 32 + digits[|digits| - 1]
  }

  /** The last `n` base-32 digits of `v`, most significant first. */
  function Digits(v: nat, n: nat): (digits: seq<Digit>)
    ensures |digits| == n
  {
    if n == 0 then [] else Digits(v / 32, n - 1) + [v % 32]
  }

  lemma {:induction false} DigitAt(v: nat, n: nat, i: nat)
    requires i < n
    ensures Digits(v, n)[i] == Shift(v, n - 1 - i) % 32
  {
    if i < n - 1 {
      DigitAt(v / 32, n - 1, i);
    }
  }

  lemma {:induction false} ValueOfDigits(v: nat, n: nat)
    requires v < Pow32(n)
    ensures Value(Digits(v, n)) == v
  {
    if n > 0 {
      ValueOfDigits(v / 32, n - 1);
      assert Digits(v, n)[..n - 1] == Digits(v / 32, n - 1);
    }
  }

  lemma {:induction false} DigitsOfValue(digits: seq<Digit>)
    ensures Value(digits) < Pow32(|digits|)
    ensures Digits(Value(digits), |digits|) == digits
  {
    if digits != [] {
      var init := digits[..|digits| - 1];
      DigitsOfValue(init);
      assert digits == init + [digits[|digits| - 1]];
    }
  }

  /** Numerals of one width sort as the numbers they spell. */
  lemma {:induction false} NumeralOrder(a: seq<Digit>, b: seq<Digit>)
    requires |a| == |b|
    ensures Less(a, b) <==> Value(a) < Value(b)
    ensures a == b <==> Value(a) == Value(b)
  {
    if a != [] {
      var n := |a| - 1;
      NumeralOrder(a[..n], b[..n]);
      assert a == a[..n] + [a[n]] && b == b[..n] + [b[n]];
      if a[..n] == b[..n] {
        LessAfterPrefix(a[..n], [a[n]], [b[n]]);
      } else {
        LessByPrefix(a[..n], b[..n], [a[n]], [b[n]]);
      }
    }
  }

  // ----------------------------------------------------------------- text

  function Letter(d: Digit): Byte {
    ALPHABET[d] as int
  }

  function UpperByte(c: Byte): Byte {
    if 'a' as int <= c <= 'z' as int then c - 32 else c
  }

  function Upper(text: seq<Byte>): (r: seq<Byte>)
    ensures |r| == |text|
  {
    seq(|text|, i requires 0 <= i < |text| => UpperByte(text[i]))
  }

  function Spelled(digits: seq<Digit>): (text: seq<Byte>)
    ensures |text| == |digits|
  {
    seq(|digits|, i requires 0 <= i < |digits| => Letter(digits[i]))
  }

  /** The alphabet is in increasing byte order, upper case throughout. */
  lemma LettersIncrease(d: Digit, e: Digit)
    ensures d < e <==> Letter(d) < Letter(e)
    ensures d == e <==> Letter(d) == Letter(e)
    ensures UpperByte(Letter(d)) == Letter(d)
  {
    LetterCode(d);
    LetterCode(e);
  }

  lemma LetterCode(d: Digit)
    ensures Letter(d) ==
              if d < 10 then 48 + d else if d < 18 then 55 + d else if d < 20 then 56 + d
              else if d < 22 then 57 + d else if d < 27 then 58 + d else 59 + d
  {
    if d < 10 {
    } else if d < 18 {
    } else if d < 20 {
    } else if d < 22 {
    } else if d < 27 {
    } else {
    }
  }

  /** `decode_char`: the alphabet position of a letter in either case. */
  method DecodeChar(c: Byte) returns (r: Option<Digit>)
    ensures r.Some? ==> Letter(r.value) == UpperByte(c)
    ensures r.None? ==> forall d: Digit :: Letter(d) != UpperByte(c)
  {
    for value := 0 to 32
      invariant forall d: Digit :: d < value ==> Letter(d) != UpperByte(c)
    {
      if Letter(value) == UpperByte(c) {
        return Some(value);
      }
    }
    return None;
  }

  /** `to_text`: the text is the 26-digit base-32 numeral of the value. */
  method ToText(v: VersionId) returns (text: seq<Byte>)
    ensures text == Text(v)
  {
    text := [];
    for i := 0 to TEXT_LEN
      invariant |text| == i && forall j :: 0 <= j < i ==> text[j] == Text(v)[j]
    {
      DigitAt(v, TEXT_LEN, i);
      text := text + [Letter(Shift(v, TEXT_LEN - 1 - i) % 32)];
    }
  }

  function Text(v: VersionId): (text: seq<Byte>)
    ensures |text| == TEXT_LEN
  {
    Spelled(Digits(v, TEXT_LEN))
  }

  /** A text `from_text` accepts: 26 letters of the alphabet, the first at
      most `7`. */
  ghost predicate Readable(text: seq<Byte>) {
    && |text| == TEXT_LEN
    && '0' as int <= text[0] <= '7' as int
    && (forall c <- text :: exists d: Digit :: Letter(d) == UpperByte(c))
  }

  lemma CapacityOfText()
    ensures Pow32(TEXT_LEN) == 4 * TWO_TO_128
    ensures Pow32(TEXT_LEN - 1) * 8 == TWO_TO_128
  {
    assert Pow32(5) == 33554432;
    assert Pow32(10) == 32 * 32 * 32 * 32 * 32 * Pow32(5);
    assert Pow32(15) == 32 * 32 * 32 * 32 * 32 * Pow32(10);
    assert Pow32(20) == 32 * 32 * 32 * 32 * 32 * Pow32(15);
    assert Pow32(25) == 32 * 32 * 32 * 32 * 32 * Pow32(20);
  }

  /** The leading digit alone says whether a numeral fits in eight units of
      its place. */
  lemma {:induction false} LeadingDigit(digits: seq<Digit>)
    requires digits != []
    ensures digits[0] < 8 <==> Value(digits) < 8 * Pow32(|digits| - 1)
  {
    if |digits| == 1 {
      assert digits[..0] == [];
    } else {
      LeadingDigit(digits[..|digits| - 1]);
    }
  }

  lemma {:induction false} Pow32Grows(m: nat, n: nat)
    requires m <= n
    ensures 1 <= Pow32(m) <= Pow32(n)
  {
    if n > m {
      Pow32Grows(m, n - 1);
    } else if n > 0 {
      Pow32Grows(n - 1, n - 1);
    }
  }

  /** No prefix of an accepted text overflows 128 bits. */
  lemma PrefixFits(digits: seq<Digit>)
    requires 0 < |digits| <= TEXT_LEN && digits[0] < 8
    ensures Value(digits) < TWO_TO_128
  {
    LeadingDigit(digits);
    Pow32Grows(|digits| - 1, TEXT_LEN - 1);
    CapacityOfText();
  }

  lemma SpelledOrder(a: seq<Digit>, b: seq<Digit>)
    requires |a| == |b|
    ensures Less(a, b) <==> Less(Spelled(a), Spelled(b))
    ensures a == b <==> Spelled(a) == Spelled(b)
  {
    forall i | 0 <= i < |a|
      ensures a[i] < b[i] <==> Spelled(a)[i] < Spelled(b)[i]
      ensures a[i] == b[i] <==> Spelled(a)[i] == Spelled(b)[i]
    {
      LettersIncrease(a[i], b[i]);
    }
    CodedOrder(a, b, Spelled(a), Spelled(b));
  }

  /** The text form is an order isomorphism: texts sort as values, and no two
      values share a text. */
  lemma TextOrder(v: VersionId, w: VersionId)
    ensures v < w <==> Less(Text(v), Text(w))
    ensures v == w <==> Text(v) == Text(w)
  {
    CapacityOfText();
    ValueOfDigits(v, TEXT_LEN);
    ValueOfDigits(w, TEXT_LEN);
    NumeralOrder(Digits(v, TEXT_LEN), Digits(w, TEXT_LEN));
    SpelledOrder(Digits(v, TEXT_LEN), Digits(w, TEXT_LEN));
  }

  /** Every value's text is one the parser accepts, already upper case. */
  lemma TextIsReadable(v: VersionId)
    ensures Readable(Text(v)) && Upper(Text(v)) == Text(v)
  {
    var digits := Digits(v, TEXT_LEN);
    forall i | 0 <= i < TEXT_LEN ensures UpperByte(Text(v)[i]) == Text(v)[i] {
      LettersIncrease(digits[i], digits[i]);
    }
    CapacityOfText();
    ValueOfDigits(v, TEXT_LEN);
    LeadingDigit(digits);
    LetterCode(digits[0]);
    forall c | c in Text(v) ensures exists d: Digit :: Letter(d) == UpperByte(c) {
      var i :| 0 <= i < TEXT_LEN && Text(v)[i] == c;
      assert Letter(digits[i]) == UpperByte(c);
    }
  }

  /** One more digit of a text whose first is small stays within 128 bits. */
  lemma DigitStep(text: seq<Byte>, digits: seq<Digit>, d: Digit)
    requires |digits| < TEXT_LEN == |text| && '0' as int <= text[0] <= '7' as int
    requires Letter(d) == UpperByte(text[|digits|]) && (digits != [] ==> Letter(digits[0]) == UpperByte(text[0]))
    ensures (Value(digits) * 32) % TWO_TO_128 + d == Value(digits + [d]) < TWO_TO_128
  {
    var more := digits + [d];
    assert more[..|digits|] == digits;
    SmallFirst(text[0], more[0]);
    PrefixFits(more);
    WrapNever(Value(digits) * 32);
  }

  lemma SmallFirst(c: Byte, d: Digit)
    requires '0' as int <= c <= '7' as int && Letter(d) == UpperByte(c)
    ensures d < 8
  {
    LetterCode(d);
  }

  lemma WrapNever(x: nat)
    requires x < TWO_TO_128
    ensures x % TWO_TO_128 == x
  {
  }

  /** The digits of a text, or the first character that is none. The shift
      wraps at 128 bits as the code's does; it never has to. */
  method ReadDigits(text: seq<Byte>) returns (r: Option<VersionId>, ghost digits: seq<Digit>)
    requires |text| == TEXT_LEN && '0' as int <= text[0] <= '7' as int
    ensures r.Some? ==> |digits| == TEXT_LEN && r.value == Value(digits)
    ensures r.Some? ==> forall j :: 0 <= j < TEXT_LEN ==> Letter(digits[j]) == UpperByte(text[j])
    ensures r.None? ==> exists i :: 0 <= i < |text| && forall d: Digit :: Letter(d) != UpperByte(text[i])
  {
    var value: VersionId := 0;
    digits := [];
    for i := 0 to TEXT_LEN
      invariant |digits| == i && value == Value(digits)
      invariant forall j :: 0 <= j < i ==> Letter(digits[j]) == UpperByte(text[j])
    {
      var d := DecodeChar(text[i]);
      if d.None? {
        return None, digits;
      }
      DigitStep(text, digits, d.value);
      digits := digits + [d.value];
      value := (value * 32) % TWO_TO_128 + d.value;
    }
    return Some(value), digits;
  }

  lemma SpelledText(text: seq<Byte>, digits: seq<Digit>, value: VersionId)
    requires |text| == |digits| == TEXT_LEN && value == Value(digits)
    requires forall j :: 0 <= j < TEXT_LEN ==> Letter(digits[j]) == UpperByte(text[j])
    ensures Text(value) == Upper(text)
    ensures forall v: VersionId :: v == value <==> Text(v) == Upper(text)
  {
    DigitsOfValue(digits);
    assert Text(value) == Upper(text);
    forall v: VersionId ensures v == value <==> Text(v) == Upper(text) {
      TextOrder(v, value);
    }
  }

  lemma OnlyReadable(text: seq<Byte>)
    ensures forall v: VersionId :: Text(v) == Upper(text) ==> Readable(text)
  {
    forall v: VersionId | Text(v) == Upper(text) ensures Readable(text) {
      TextIsReadable(v);
      UpperIsReadable(text);
    }
  }

  /** `from_text`: it returns exactly the value whose text is the argument in
      upper case, and refuses exactly the texts no value has. */
  method FromText(text: seq<Byte>) returns (r: Option<VersionId>)
    ensures forall v: VersionId :: r == Some(v) <==> Text(v) == Upper(text)
    ensures r.Some? <==> Readable(text)
  {
    OnlyReadable(text);
    if |text| != TEXT_LEN || !('0' as int <= text[0] <= '7' as int) {
      return None;
    }
    ghost var digits;
    r, digits := ReadDigits(text);
    if r.None? {
      ghost var i :| 0 <= i < |text| && forall d: Digit :: Letter(d) != UpperByte(text[i]);
      assert text[i] in text;
      return;
    }
    SpelledText(text, digits, r.value);
  }

  lemma UpperIsReadable(text: seq<Byte>)
    requires Readable(Upper(text))
    ensures Readable(text)
  {
    forall c | c in text ensures exists d: Digit :: Letter(d) == UpperByte(c) {
      var i :| 0 <= i < |text| && text[i] == c;
      assert Upper(text)[i] in Upper(text);
      var d: Digit :| Letter(d) == UpperByte(Upper(text)[i]);
      assert UpperByte(UpperByte(c)) == UpperByte(c);
    }
  }

  // ------------------------------------------------------------ generator

  /** The state the generator keeps: the last milliseconds and random part. */
  datatype Last = Last(ms: nat, random: nat)

  /** One call's inputs: the clock, and the ten random bytes it would draw. */
  datatype Reading = Reading(clock: nat, drawn: nat)

  ghost predicate Bounded(last: Last) {
    last.ms < TWO_TO_48 && last.random < TWO_TO_80
  }

  function Compose(last: Last): nat {
    last.ms * TWO_TO_80 + last.random
  }

  /** The upper 48 bits of an identifier. */
  function Millis(id: nat): nat {
    id / TWO_TO_80
  }

  /** The lower 80. */
  function Random(id: nat): nat {
    id % TWO_TO_80
  }

  lemma ComposeParts(last: Last)
    requires Bounded(last)
    ensures Millis(Compose(last)) == last.ms && Random(Compose(last)) == last.random
  {
  }

  function Later(a: nat, b: nat): nat {
    if a > b then a else b
  }

  function Advance(last: Last, r: Reading): Last {
    var now := r.clock % TWO_TO_48;
    if now > last.ms then Last(now, r.drawn % TWO_TO_80)
    else Last(last.ms, (last.random + 1) % TWO_TO_80)
  }

  /** The one case that does not advance: the clock has not moved past the
      last millisecond and the 80-bit part is all ones. */
  predicate Exhausted(last: Last, r: Reading) {
    r.clock % TWO_TO_48 <= last.ms && last.random == TWO_TO_80 - 1
  }

  /** A call's identifier is greater than the one before it, whatever the
      clock does, if and only if the random part is not exhausted. */
  lemma AdvanceIncreases(last: Last, r: Reading)
    requires Bounded(last)
    ensures Bounded(Advance(last, r))
    ensures Compose(Advance(last, r)) < TWO_TO_128
    ensures Compose(last) < Compose(Advance(last, r)) <==> !Exhausted(last, r)
  {
  }

  class VersionGenerator {
    var last: Last

    constructor ()
      ensures last == Last(0, 0)
    {
      last := Last(0, 0);
    }

    /** `next`. */
    method Next(r: Reading) returns (id: VersionId)
      requires Bounded(last)
      modifies this
      ensures Bounded(last) && last == Advance(old(last), r) && id == Compose(last)
      ensures Compose(old(last)) < id <==> !Exhausted(old(last), r)
      ensures Millis(id) == Later(r.clock % TWO_TO_48, Millis(Compose(old(last))))
      ensures Random(id) == if r.clock % TWO_TO_48 > Millis(Compose(old(last))) then r.drawn % TWO_TO_80
                            else (Random(Compose(old(last))) + 1) % TWO_TO_80
    {
      AdvanceIncreases(last, r);
      ComposeParts(last);
      var now := r.clock % TWO_TO_48;
      var random := if now > last.ms then r.drawn % TWO_TO_80 else (last.random + 1) % TWO_TO_80;
      var ms := if now > last.ms then now else last.ms;
      last := Last(ms, random);
      id := ms * TWO_TO_80 + random;
      ComposeParts(last);
    }
  }

  /** The state after the first `n` of a series of calls. */
  function StateAfter(last: Last, readings: seq<Reading>, n: nat): Last
    requires n <= |readings|
  {
    if n == 0 then last else Advance(StateAfter(last, readings, n - 1), readings[n - 1])
  }

  lemma {:induction false} StateStaysBounded(last: Last, readings: seq<Reading>, n: nat)
    requires Bounded(last) && n <= |readings|
    ensures Bounded(StateAfter(last, readings, n))
  {
    if n > 0 {
      StateStaysBounded(last, readings, n - 1);
      AdvanceIncreases(StateAfter(last, readings, n - 1), readings[n - 1]);
    }
  }

  ghost predicate NeverExhausted(last: Last, readings: seq<Reading>) {
    forall i :: 0 <= i < |readings| ==> !Exhausted(StateAfter(last, readings, i), readings[i])
  }

  /** The identifier the `n`-th call returns; for 0, the one before them all. */
  function Issued(last: Last, readings: seq<Reading>, n: nat): nat
    requires n <= |readings|
  {
    Compose(StateAfter(last, readings, n))
  }

  ghost predicate StrictlyIncreasing(last: Last, readings: seq<Reading>) {
    forall i, j :: 0 <= i < j <= |readings| ==> Issued(last, readings, i) < Issued(last, readings, j)
  }

  /** The time in an identifier is the latest the clock has shown so far. */
  lemma {:induction false} IssuedTime(last: Last, readings: seq<Reading>, n: nat)
    requires Bounded(last) && n <= |readings|
    ensures forall i :: 0 <= i < n ==> readings[i].clock % TWO_TO_48 <= Millis(Issued(last, readings, n))
    ensures last.ms <= Millis(Issued(last, readings, n))
    ensures || Millis(Issued(last, readings, n)) == last.ms
            || exists i :: 0 <= i < n && Millis(Issued(last, readings, n)) == readings[i].clock % TWO_TO_48
  {
    StateStaysBounded(last, readings, n);
    ComposeParts(StateAfter(last, readings, n));
    if n > 0 {
      IssuedTime(last, readings, n - 1);
      StateStaysBounded(last, readings, n - 1);
      ComposeParts(StateAfter(last, readings, n - 1));
    }
  }

  lemma IssuedStep(last: Last, readings: seq<Reading>, i: nat)
    requires Bounded(last) && i < |readings|
    ensures Issued(last, readings, i) < Issued(last, readings, i + 1)
            <==> !Exhausted(StateAfter(last, readings, i), readings[i])
  {
    StateStaysBounded(last, readings, i);
    AdvanceIncreases(StateAfter(last, readings, i), readings[i]);
  }

  ghost predicate StepsUp(values: seq<int>) {
    forall i :: 0 <= i < |values| - 1 ==> values[i] < values[i + 1]
  }

  lemma {:induction false} StepsUpThroughout(values: seq<int>, i: nat, j: nat)
    requires StepsUp(values) && i < j < |values|
    ensures values[i] < values[j]
    decreases j
  {
    if i < j - 1 {
      StepsUpThroughout(values, i, j - 1);
    }
    assert values[j - 1] < values[j - 1 + 1];
  }

  /** Over any series of clock readings, backward steps included, the
      identifiers strictly increase if and only if the random part is never
      exhausted within a millisecond. */
  lemma GeneratorOrder(last: Last, readings: seq<Reading>)
    requires Bounded(last)
    ensures NeverExhausted(last, readings) <==> StrictlyIncreasing(last, readings)
  {
    var n := |readings|;
    var values := seq(n + 1, i requires 0 <= i <= n => Issued(last, readings, i));
    forall i | 0 <= i < n
      ensures values[i] < values[i + 1] <==> !Exhausted(StateAfter(last, readings, i), readings[i])
    {
      IssuedStep(last, readings, i);
    }
    if NeverExhausted(last, readings) {
      assert StepsUp(values);
      forall i, j | 0 <= i < j <= n ensures Issued(last, readings, i) < Issued(last, readings, j) {
        StepsUpThroughout(values, i, j);
      }
    }
    if StrictlyIncreasing(last, readings) {
      forall i | 0 <= i < n ensures !Exhausted(StateAfter(last, readings, i), readings[i]) {
        assert Issued(last, readings, i) < Issued(last, readings, i + 1);
        assert values[i] < values[i + 1];
      }
    }
  }
}
