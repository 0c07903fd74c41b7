/** The erasure code wrapper (crates/djbod-core/src/erasure.rs). The
    Reed-Solomon library itself is a value of type `Library`, of which only
    the shapes of its answers and, as a named hypothesis, its any-k recovery
    are used. */
module Erasure {
  import opened Prelude

  type Block = seq<Byte>

  const MAX_TOTAL_SHARDS := 64

  datatype SchemeError = NoDataShards | TooManyDataShards | TooManyParityShards | TooManyShards

  datatype Scheme = Scheme(k: nat, m: nat) {
    function Total(): nat { k + m }

    ghost predicate Valid() {
      1 <= k <= MAX_DATA_SHARDS && m <= MAX_PARITY_SHARDS
    }
  }

  /** `Scheme::new`; the last refusal is unreachable under the other limits. */
  function NewScheme(k: nat, m: nat): (r: Result<Scheme, SchemeError>)
    ensures r.Ok? <==> Scheme(k, m).Valid()
    ensures r.Ok? ==> r.value == Scheme(k, m)
    ensures r != Err(TooManyShards)
  {
    if k == 0 then Err(NoDataShards)
    else if k > MAX_DATA_SHARDS then Err(TooManyDataShards)
    else if m > MAX_PARITY_SHARDS then Err(TooManyParityShards)
    else if k + m > MAX_TOTAL_SHARDS then Err(TooManyShards)
    else Ok(Scheme(k, m))
  }

  /** The library's three calls: parity from data, every shard from enough of
      them, and the data shards alone from enough of them. */
  datatype Library = Library(
    encode: seq<Block> -> seq<Block>,
    fill: seq<Option<Block>> -> seq<Block>,
    fillData: seq<Option<Block>> -> seq<Block>)

  /** The library refuses m = 0, so a scheme without parity has none. */
  datatype Code = Code(scheme: Scheme, library: Option<Library>)

  ghost predicate Uniform(blocks: seq<Block>, length: nat) {
    forall b <- blocks :: |b| == length
  }

  /** k data blocks of one positive length. */
  ghost predicate Proper(code: Code, data: seq<Block>, length: nat) {
    |data| == code.scheme.k && length > 0 && Uniform(data, length)
  }

  function Parity(code: Code, data: seq<Block>): seq<Block> {
    if code.library.None? then [] else code.library.value.encode(data)
  }

  function Codeword(code: Code, data: seq<Block>): seq<Block> {
    data + Parity(code, data)
  }

  /** The shapes the library keeps. */
  ghost predicate WellFormed(code: Code) {
    && code.scheme.Valid()
    && (code.library.None? <==> code.scheme.m == 0)
    && (code.library.Some? ==>
          && (forall data, length {:trigger Proper(code, data, length)} :: Proper(code, data, length) ==>
                |code.library.value.encode(data)| == code.scheme.m && Uniform(code.library.value.encode(data), length))
          && (forall slots :: |code.library.value.fill(slots)| == |slots|)
          && (forall slots :: |code.library.value.fillData(slots)| == |slots|))
  }

  function Present(slots: seq<Option<Block>>): nat {
    if slots == [] then 0 else Present(slots[..|slots| - 1]) + (if slots[|slots| - 1].Some? then 1 else 0)
  }

  /** Every block present is the codeword's own. */
  ghost predicate Consistent(slots: seq<Option<Block>>, word: seq<Block>) {
    |slots| == |word| && forall i :: 0 <= i < |slots| && slots[i].Some? ==> slots[i].value == word[i]
  }

  /** The library's promise, taken as a hypothesis: any k shards of a codeword
      give back all of it. */
  ghost predicate RecoversFromAnyK(code: Code) {
    code.library.Some? ==>
      forall data, length, slots {:trigger Proper(code, data, length), Consistent(slots, Codeword(code, data))} ::
        Proper(code, data, length) && Consistent(slots, Codeword(code, data)) && Present(slots) >= code.scheme.k ==>
          && code.library.value.fill(slots) == Codeword(code, data)
          && code.scheme.k <= |code.library.value.fillData(slots)|
          && code.library.value.fillData(slots)[..code.scheme.k] == data
  }

  datatype CodingError =
    | WrongDataBlockCount | UnequalBlockLengths | EmptyBlocks
    | IndexOutOfRange(index: nat) | DuplicateIndex(index: nat) | TooFewShardsPresent

  /** `compute_parity`: the parity of k equal, non-empty blocks, refused for
      anything else. */
  method ComputeParity(code: Code, data: seq<Block>) returns (r: Result<seq<Block>, CodingError>)
    requires WellFormed(code)
    ensures r.Ok? <==> exists length :: Proper(code, data, length)
    ensures r.Ok? ==> r.value == Parity(code, data) && |r.value| == code.scheme.m
    ensures r.Ok? ==> Uniform(r.value, |data[0]|)
  {
    if |data| != code.scheme.k {
      return Err(WrongDataBlockCount);
    }
    var length := |data[0]|;
    if length == 0 {
      assert data[0] in data;
      return Err(EmptyBlocks);
    }
    for i := 0 to |data|
      invariant forall j :: 0 <= j < i ==> |data[j]| == length
    {
      if |data[i]| != length {
        assert data[i] in data && data[0] in data;
        return Err(UnequalBlockLengths);
      }
    }
    assert Proper(code, data, length);
    return Ok(Parity(code, data));
  }

  // -------------------------------------------------------- reconstruction

  /** A block together with the shard it belongs to. */
  datatype Placed = Placed(index: nat, bytes: Block)

  ghost predicate IndicesOk(code: Code, present: seq<Placed>) {
    && (forall p <- present :: p.index < code.scheme.Total())
    && (forall i, j :: 0 <= i < j < |present| ==> present[i].index != present[j].index)
  }

  ghost predicate OneLength(present: seq<Placed>) {
    forall i, j :: 0 <= i < |present| && 0 <= j < |present| ==> |present[i].bytes| == |present[j].bytes|
  }

  ghost predicate Holds(present: seq<Placed>, index: nat) {
    exists i :: 0 <= i < |present| && present[i].index == index
  }

  /** The slots vector is the present blocks laid out by index. */
  ghost predicate LaidOut(slots: seq<Option<Block>>, present: seq<Placed>) {
    && (forall p <- present :: p.index < |slots| && slots[p.index] == Some(p.bytes))
    && (forall i :: 0 <= i < |slots| && slots[i].Some? ==> Holds(present, i))
  }

  lemma {:induction false} PresentAfterUpdate(slots: seq<Option<Block>>, i: nat, b: Block)
    requires i < |slots| && slots[i].None?
    ensures Present(slots[i := Some(b)]) == Present(slots) + 1
  {
    var n := |slots| - 1;
    if i < n {
      PresentAfterUpdate(slots[..n], i, b);
      assert slots[i := Some(b)][..n] == slots[..n][i := Some(b)];
    } else {
      assert slots[i := Some(b)][..n] == slots[..n];
    }
  }

  lemma {:induction false} PresentOfEmpty(n: nat)
    ensures Present(seq(n, _ => None)) == 0
  {
    if n > 0 {
      PresentOfEmpty(n - 1);
      var all: seq<Option<Block>> := seq(n, _ => None);
      assert all[..n - 1] == seq(n - 1, _ => None);
    }
  }

  /** With as many blocks present as there are slots, no slot is empty. */
  lemma {:induction false} FullSlots(slots: seq<Option<Block>>)
    ensures Present(slots) <= |slots|
    ensures Present(slots) == |slots| ==> forall i :: 0 <= i < |slots| ==> slots[i].Some?
  {
    if slots != [] {
      FullSlots(slots[..|slots| - 1]);
    }
  }

  /** What the library demands before it answers, so that the code's `expect`
      on its answer cannot fail. */
  ghost predicate Fillable(code: Code, slots: seq<Option<Block>>) {
    && code.library.Some? && |slots| == code.scheme.Total() && Present(slots) >= code.scheme.k
    && exists length :: length > 0 && AllOfLength(slots, length)
  }

  ghost predicate AllOfLength(slots: seq<Option<Block>>, length: nat) {
    forall i :: 0 <= i < |slots| && slots[i].Some? ==> |slots[i].value| == length
  }

  ghost predicate InRange(indices: seq<nat>, n: nat) {
    forall i :: 0 <= i < |indices| ==> indices[i] < n
  }

  /** The slots so far: the first `n` present blocks, laid out and counted. */
  ghost predicate LaidSoFar(code: Code, slots: seq<Option<Block>>, present: seq<Placed>, n: nat) {
    && n <= |present| && |slots| == code.scheme.Total()
    && IndicesOk(code, present[..n]) && OneLength(present[..n])
    && LaidOut(slots, present[..n]) && Present(slots) == n
  }

  lemma LaidOutNext(slots: seq<Option<Block>>, before: seq<Placed>, p: Placed)
    requires LaidOut(slots, before) && p.index < |slots| && slots[p.index].None?
    ensures LaidOut(slots[p.index := Some(p.bytes)], before + [p])
  {
    var next, after := slots[p.index := Some(p.bytes)], before + [p];
    assert after[|before|].index == p.index;
    forall i | 0 <= i < |before| ensures before[i].index != p.index {
      assert before[i] in before;
    }
    forall i | 0 <= i < |next| && next[i].Some? ensures Holds(after, i) {
      if i != p.index {
        var j :| 0 <= j < |before| && before[j].index == i;
        assert after[j].index == i;
      }
    }
  }

  lemma IndicesNext(code: Code, slots: seq<Option<Block>>, before: seq<Placed>, p: Placed)
    requires IndicesOk(code, before) && LaidOut(slots, before) && p.index < |slots| == code.scheme.Total()
    requires slots[p.index].None?
    ensures IndicesOk(code, before + [p])
  {
    forall i | 0 <= i < |before| ensures before[i].index != p.index {
      assert before[i] in before;
    }
  }

  lemma LayNext(code: Code, slots: seq<Option<Block>>, present: seq<Placed>, n: nat)
    requires n < |present| && LaidSoFar(code, slots, present, n)
    requires present[n].index < |slots| && slots[present[n].index].None?
    requires n > 0 ==> |present[n].bytes| == |present[0].bytes|
    ensures LaidSoFar(code, slots[present[n].index := Some(present[n].bytes)], present, n + 1)
  {
    var p, before := present[n], present[..n];
    assert present[..n + 1] == before + [p];
    PresentAfterUpdate(slots, p.index, p.bytes);
    LaidOutNext(slots, before, p);
    IndicesNext(code, slots, before, p);
    assert OneLength(before + [p]) by {
      assert n > 0 ==> before[0] == present[0];
    }
  }

  /** Lay the present blocks out by index, or say what is wrong with them. */
  method LayOut(code: Code, present: seq<Placed>) returns (r: Result<seq<Option<Block>>, CodingError>)
    ensures r.Ok? <==> IndicesOk(code, present) && OneLength(present)
    ensures r.Ok? ==> |r.value| == code.scheme.Total() && LaidOut(r.value, present) && Present(r.value) == |present|
  {
    var slots: seq<Option<Block>> := seq(code.scheme.Total(), _ => None);
    PresentOfEmpty(code.scheme.Total());
    for n := 0 to |present|
      invariant LaidSoFar(code, slots, present, n)
    {
      var p := present[n];
      if p.index >= code.scheme.Total() {
        assert p in present;
        return Err(IndexOutOfRange(p.index));
      }
      if slots[p.index].Some? {
        assert Holds(present[..n], p.index);
        return Err(DuplicateIndex(p.index));
      }
      if n > 0 && |p.bytes| != |present[0].bytes| {
        return Err(UnequalBlockLengths);
      }
      LayNext(code, slots, present, n);
      slots := slots[p.index := Some(p.bytes)];
    }
    assert present[..|present|] == present;
    return Ok(slots);
  }

  /** Everything `reconstruct` refuses. */
  ghost predicate Refused(code: Code, present: seq<Placed>, wanted: seq<nat>) {
    || !IndicesOk(code, present) || !OneLength(present)
    || (exists w :: w in wanted && w >= code.scheme.Total())
    || ((exists w :: w in wanted && !Holds(present, w))
        && (|present| < code.scheme.k || (present != [] && present[0].bytes == [])))
  }

  /** The blocks of `word` that `wanted` names, in its order. */
  function Pick(word: seq<Block>, wanted: seq<nat>): (r: seq<Block>)
    requires InRange(wanted, |word|)
    ensures |r| == |wanted|
  {
    seq(|wanted|, i requires 0 <= i < |wanted| => word[wanted[i]])
  }

  /** `present` are blocks of the codeword of `data`. */
  ghost predicate BlocksOf(code: Code, data: seq<Block>, present: seq<Placed>) {
    forall p <- present :: p.index < |Codeword(code, data)| && p.bytes == Codeword(code, data)[p.index]
  }

  lemma SlotsConsistent(code: Code, data: seq<Block>, present: seq<Placed>, slots: seq<Option<Block>>)
    requires BlocksOf(code, data, present) && LaidOut(slots, present) && |slots| == |Codeword(code, data)|
    ensures Consistent(slots, Codeword(code, data))
  {
    forall i | 0 <= i < |slots| && slots[i].Some? ensures slots[i].value == Codeword(code, data)[i] {
      var j :| 0 <= j < |present| && present[j].index == i;
      assert present[j] in present;
    }
  }

  lemma CodewordShape(code: Code, data: seq<Block>, length: nat)
    requires WellFormed(code) && Proper(code, data, length)
    ensures |Codeword(code, data)| == code.scheme.Total() && Uniform(Codeword(code, data), length)
  {
  }

  /** Fill the empty slots through the library, as far as `wanted` needs. */
  method FillSlots(code: Code, slots: seq<Option<Block>>, wanted: seq<nat>) returns (full: seq<Block>)
    requires WellFormed(code) && Fillable(code, slots)
    requires InRange(wanted, code.scheme.Total())
    ensures |full| == code.scheme.Total()
    ensures forall data, length ::
              (RecoversFromAnyK(code) && Proper(code, data, length) && Consistent(slots, Codeword(code, data))) ==>
              InRange(wanted, |Codeword(code, data)|) && Pick(full, wanted) == Pick(Codeword(code, data), wanted)
  {
    var onlyData := true;
    for i := 0 to |wanted|
      invariant onlyData <==> forall j :: 0 <= j < i ==> wanted[j] < code.scheme.k
    {
      if wanted[i] >= code.scheme.k {
        onlyData := false;
      }
    }
    full := if onlyData then code.library.value.fillData(slots) else code.library.value.fill(slots);
    forall data, length | RecoversFromAnyK(code) && Proper(code, data, length) && Consistent(slots, Codeword(code, data))
      ensures InRange(wanted, |Codeword(code, data)|) && Pick(full, wanted) == Pick(Codeword(code, data), wanted)
    {
      CodewordShape(code, data, length);
      if onlyData {
        forall i | 0 <= i < |wanted| ensures full[wanted[i]] == Codeword(code, data)[wanted[i]] {
          assert full[..code.scheme.k][wanted[i]] == full[wanted[i]];
        }
      }
    }
  }

  /** `reconstruct`: refused exactly on misuse, and otherwise, for blocks of
      one codeword, the wanted blocks of that codeword. Every `expect` in the
      code is a fact proved on the way: with no parity k present blocks fill
      every slot, and the library is only asked what it can answer. */
  method Reconstruct(code: Code, present: seq<Placed>, wanted: seq<nat>) returns (r: Result<seq<Block>, CodingError>)
    requires WellFormed(code)
    ensures r.Err? <==> Refused(code, present, wanted)
    ensures r.Ok? ==> |r.value| == |wanted|
    ensures forall data, length ::
              (r.Ok? && RecoversFromAnyK(code) && Proper(code, data, length) && BlocksOf(code, data, present)) ==>
              InRange(wanted, |Codeword(code, data)|) && r.value == Pick(Codeword(code, data), wanted)
  {
    var laid := LayOut(code, present);
    if laid.Err? {
      return Err(laid.error);
    }
    var slots := laid.value;
    var missing := false;
    for i := 0 to |wanted|
      invariant forall j :: 0 <= j < i ==> wanted[j] < code.scheme.Total()
      invariant missing <==> exists j :: 0 <= j < i && slots[wanted[j]].None?
    {
      if wanted[i] >= code.scheme.Total() {
        assert wanted[i] in wanted;
        return Err(IndexOutOfRange(wanted[i]));
      }
      if slots[wanted[i]].None? {
        missing := true;
      }
    }
    assert missing <==> exists w :: w in wanted && !Holds(present, w) by {
      MissingMeans(slots, present, wanted);
    }
    if !missing {
      r := Ok(seq(|wanted|, i requires 0 <= i < |wanted| => slots[wanted[i]].value));
      forall data, length | RecoversFromAnyK(code) && Proper(code, data, length) && BlocksOf(code, data, present)
        ensures InRange(wanted, |Codeword(code, data)|) && r.value == Pick(Codeword(code, data), wanted)
      {
        CodewordShape(code, data, length);
        SlotsConsistent(code, data, present, slots);
      }
      return;
    }
    if |present| < code.scheme.k {
      return Err(TooFewShardsPresent);
    }
    if present[0].bytes == [] {
      return Err(EmptyBlocks);
    }
    FullSlots(slots);
    assert Fillable(code, slots) by {
      SlotLengths(slots, present);
    }
    var full := FillSlots(code, slots, wanted);
    r := Ok(Pick(full, wanted));
    forall data, length | RecoversFromAnyK(code) && Proper(code, data, length) && BlocksOf(code, data, present)
      ensures InRange(wanted, |Codeword(code, data)|) && r.value == Pick(Codeword(code, data), wanted)
    {
      CodewordShape(code, data, length);
      SlotsConsistent(code, data, present, slots);
    }
  }

  lemma MissingMeans(slots: seq<Option<Block>>, present: seq<Placed>, wanted: seq<nat>)
    requires LaidOut(slots, present) && InRange(wanted, |slots|)
    ensures (exists j :: 0 <= j < |wanted| && slots[wanted[j]].None?) <==> exists w :: w in wanted && !Holds(present, w)
  {
    forall w | w in wanted ensures slots[w].Some? <==> Holds(present, w) {
      if Holds(present, w) {
        var i :| 0 <= i < |present| && present[i].index == w;
        assert present[i] in present;
      }
    }
  }

  lemma SlotLengths(slots: seq<Option<Block>>, present: seq<Placed>)
    requires LaidOut(slots, present) && OneLength(present) && present != []
    ensures AllOfLength(slots, |present[0].bytes|)
  {
    forall i | 0 <= i < |slots| && slots[i].Some? ensures |slots[i].value| == |present[0].bytes| {
      var j :| 0 <= j < |present| && present[j].index == i;
      assert present[j] in present;
    }
  }
}
