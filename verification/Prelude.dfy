/** Small shared vocabulary: optional values, results, and counting facts
    about sequences without repetitions. */
module Prelude {

  datatype Option<+T> = None | Some(value: T)

  datatype Result<+T, +E> = Ok(value: T) | Err(error: E)

  type Byte = n: int | 0 <= n < 256

  const TWO_TO_64 := 0x1_0000_0000_0000_0000

  type U64 = v: nat | v < TWO_TO_64

  /** The number of values of `n` bytes. */
  function Pow256(n: nat): nat {
    if n == 0 then 1 else 256 * Pow256(n - 1)
  }

  /** The limits of a coding scheme. */
  const MAX_DATA_SHARDS := 32
  const MAX_PARITY_SHARDS := 8

  /** The most a page of keys or records may hold, in bytes. */
  const MAX_LIST_PAGE_BYTES := 8 * 1024 * 1024

  /** XXH3-64, any function from bytes to 64 bits. */
  type Checksum = seq<Byte> -> U64

  ghost predicate Distinct<T>(s: seq<T>) {
    forall i, j :: 0 <= i < j < |s| ==> s[i] != s[j]
  }

  function Elements<T>(s: seq<T>): set<T> {
    set x | x in s
  }

  /** A sequence without repetitions has as many members as positions. */
  lemma {:induction false} DistinctCount<T>(s: seq<T>)
    requires Distinct(s)
    ensures |Elements(s)| == |s|
  {
    if s == [] {
      assert Elements(s) == {};
    } else {
      var rest := s[..|s| - 1];
      DistinctCount(rest);
      assert s == rest + [s[|s| - 1]];
      assert Elements(s) == Elements(rest) + {s[|s| - 1]};
      assert s[|s| - 1] !in Elements(rest);
    }
  }

  /** Growing a seen-list by one member keeps it free of repetitions exactly
      when the member is new. */
  lemma DistinctSnoc<T>(s: seq<T>, x: T)
    ensures Distinct(s + [x]) <==> Distinct(s) && x !in s
  {
    var t := s + [x];
    if Distinct(t) {
      forall i, j | 0 <= i < j < |s| ensures s[i] != s[j] {
        assert t[i] == s[i] && t[j] == s[j];
      }
      forall i | 0 <= i < |s| ensures s[i] != x {
        assert t[i] == s[i] && t[|s|] == x;
      }
    }
  }

  /** A subset is no larger than the set it lies in. */
  lemma {:induction false} SubsetCount<T>(a: set<T>, b: set<T>)
    requires a <= b
    ensures |a| <= |b|
  {
    assert b == a + (b - a);
  }

  /** Taking away at most `|b|` members leaves at least the difference. */
  lemma {:induction false} DifferenceCount<T>(a: set<T>, b: set<T>)
    ensures |a - b| >= |a| - |b|
  {
    assert a == (a - b) + (a * b);
    SubsetCount(a * b, b);
  }

  /** The numbers below `n`. */
  function Below(n: nat): set<nat> {
    if n == 0 then {} else Below(n - 1) + {n - 1}
  }

  lemma {:induction false} BelowMembers(n: nat)
    ensures forall i: nat :: i in Below(n) <==> i < n
    ensures |Below(n)| == n
  {
    if n > 0 {
      BelowMembers(n - 1);
      assert n - 1 !in Below(n - 1);
    }
  }

  lemma SomeMember<T>(s: seq<T>)
    ensures s == [] || exists x :: x in s
  {
    if s != [] {
      assert s[0] in s;
    }
  }

  /** Two sequences of one length, related member by member. */
  ghost predicate Paired<A, B>(related: (A, B) -> bool, a: seq<A>, b: seq<B>) {
    |a| == |b| && forall n :: 0 <= n < |a| ==> related(a[n], b[n])
  }

  lemma PairedSnoc<A, B>(related: (A, B) -> bool, a: seq<A>, b: seq<B>, n: nat, y: B)
    requires n < |a| && Paired(related, a[..n], b) && related(a[n], y)
    ensures Paired(related, a[..n + 1], b + [y])
  {
    forall j | 0 <= j < n + 1 ensures related(a[..n + 1][j], (b + [y])[j]) {
      if j < n {
        assert related(a[..n][j], b[j]);
      }
    }
  }

  /** `t` is what is left of `s` after dropping some positions. */
  ghost predicate Subsequence<T>(t: seq<T>, s: seq<T>)
    decreases |s|
  {
    if t == [] then true
    else if s == [] then false
    else if t[|t| - 1] == s[|s| - 1] && Subsequence(t[..|t| - 1], s[..|s| - 1]) then true
    else Subsequence(t, s[..|s| - 1])
  }

  lemma {:induction false} SubsequenceMembers<T>(t: seq<T>, s: seq<T>)
    requires Subsequence(t, s)
    ensures forall x :: x in t ==> x in s
    decreases |s|
  {
    if t != [] {
      var shorter := s[..|s| - 1];
      if t[|t| - 1] == s[|s| - 1] && Subsequence(t[..|t| - 1], shorter) {
        SubsequenceMembers(t[..|t| - 1], shorter);
        assert t == t[..|t| - 1] + [t[|t| - 1]];
      } else {
        SubsequenceMembers(t, shorter);
      }
    }
  }

  lemma {:induction false} SubsequenceDistinct<T>(t: seq<T>, s: seq<T>)
    requires Subsequence(t, s) && Distinct(s)
    ensures Distinct(t)
    decreases |s|
  {
    if t != [] {
      var shorter, last := s[..|s| - 1], s[|s| - 1];
      assert s == shorter + [last];
      DistinctSnoc(shorter, last);
      if t[|t| - 1] == last && Subsequence(t[..|t| - 1], shorter) {
        SubsequenceDistinct(t[..|t| - 1], shorter);
        SubsequenceMembers(t[..|t| - 1], shorter);
        assert t == t[..|t| - 1] + [t[|t| - 1]];
        DistinctSnoc(t[..|t| - 1], last);
      } else {
        SubsequenceDistinct(t, shorter);
      }
    }
  }

  lemma {:induction false} SubsequenceAppend<T>(t: seq<T>, s: seq<T>, extra: seq<T>)
    requires Subsequence(t, s)
    ensures Subsequence(t, s + extra)
    ensures Subsequence(t + extra, s + extra)
    decreases |extra|
  {
    if extra == [] {
      assert s + extra == s && t + extra == t;
    } else {
      var init, last := extra[..|extra| - 1], extra[|extra| - 1];
      SubsequenceAppend(t, s, init);
      assert (s + extra)[..|s + extra| - 1] == s + init;
      assert (t + extra)[..|t + extra| - 1] == t + init;
      if t != [] && t[|t| - 1] == last {
        SubsequenceWeaken(t, s + init, last);
        assert s + extra == (s + init) + [last];
      }
    }
  }

  lemma SubsequenceWeaken<T>(t: seq<T>, s: seq<T>, x: T)
    requires Subsequence(t, s)
    ensures Subsequence(t, s + [x])
  {
    assert (s + [x])[..|s + [x]| - 1] == s;
  }

  lemma {:induction false} SubsequenceFront<T>(t: seq<T>, s: seq<T>)
    requires s != [] && Subsequence(t, s[1..])
    ensures Subsequence(t, s) && Subsequence([s[0]] + t, s)
    decreases |s|
  {
    var front := [s[0]] + t;
    if t == [] {
      FrontAlone(s);
      assert front == [s[0]];
    } else {
      assert front[|front| - 1] == t[|t| - 1] && front[..|front| - 1] == [s[0]] + t[..|t| - 1];
      assert s[1..][..|s| - 2] == s[..|s| - 1][1..];
      if t[|t| - 1] == s[|s| - 1] && Subsequence(t[..|t| - 1], s[1..][..|s| - 2]) {
        SubsequenceFront(t[..|t| - 1], s[..|s| - 1]);
      } else {
        SubsequenceFront(t, s[..|s| - 1]);
      }
    }
  }

  lemma {:induction false} FrontAlone<T>(s: seq<T>)
    requires s != []
    ensures Subsequence([s[0]], s)
  {
    if |s| > 1 {
      FrontAlone(s[..|s| - 1]);
    }
    assert [s[0]][..0] == [];
  }

  /** What is left keeps its order. */
  lemma {:induction false} SubsequenceOrder<T>(t: seq<T>, s: seq<T>, i: nat, j: nat)
    requires Subsequence(t, s) && i < j < |t|
    ensures exists a, b :: 0 <= a < b < |s| && s[a] == t[i] && s[b] == t[j]
    decreases |s|
  {
    var shorter := s[..|s| - 1];
    if t[|t| - 1] == s[|s| - 1] && Subsequence(t[..|t| - 1], shorter) {
      if j < |t| - 1 {
        SubsequenceOrder(t[..|t| - 1], shorter, i, j);
      } else {
        SubsequenceMembers(t[..|t| - 1], shorter);
        assert t[..|t| - 1][i] in shorter;
        var a :| 0 <= a < |shorter| && shorter[a] == t[i];
        assert s[a] == t[i] && s[|s| - 1] == t[j];
      }
    } else {
      SubsequenceOrder(t, shorter, i, j);
    }
  }
}
