/** Byte strings in lexicographic order, the order of keys, directory names
    and version texts. */
module ByteOrder {

  /** Lexicographic order, a proper prefix being less. */
  predicate Less(a: seq<int>, b: seq<int>) {
    if b == [] then false
    else if a == [] then true
    else if a[0] != b[0] then a[0] < b[0]
    else Less(a[1..], b[1..])
  }

  predicate AtMost(a: seq<int>, b: seq<int>) {
    a == b || Less(a, b)
  }

  lemma {:induction false} Irreflexive(a: seq<int>)
    ensures !Less(a, a)
  {
    if a != [] {
      Irreflexive(a[1..]);
    }
  }

  lemma {:induction false} Total(a: seq<int>, b: seq<int>)
    ensures a == b || Less(a, b) || Less(b, a)
  {
    if a != [] && b != [] && a[0] == b[0] {
      Total(a[1..], b[1..]);
      assert a == [a[0]] + a[1..] && b == [b[0]] + b[1..];
    }
  }

  lemma {:induction false} Transitive(a: seq<int>, b: seq<int>, c: seq<int>)
    requires Less(a, b) && Less(b, c)
    ensures Less(a, c)
  {
    if a != [] && a[0] == b[0] == c[0] {
      Transitive(a[1..], b[1..], c[1..]);
    }
  }

  lemma Asymmetric(a: seq<int>, b: seq<int>)
    requires Less(a, b)
    ensures !Less(b, a) && a != b
  {
    Irreflexive(a);
    if Less(b, a) {
      Transitive(a, b, a);
    }
  }

  /** A common first part does not matter. */
  lemma {:induction false} LessAfterPrefix(p: seq<int>, a: seq<int>, b: seq<int>)
    ensures Less(p + a, p + b) <==> Less(a, b)
  {
    if p == [] {
      assert p + a == a && p + b == b;
    } else {
      LessAfterPrefix(p[1..], a, b);
      assert (p + a)[1..] == p[1..] + a && (p + b)[1..] == p[1..] + b;
    }
  }

  /** Among equally long first parts the first difference decides. */
  lemma {:induction false} LessByPrefix(a: seq<int>, b: seq<int>, x: seq<int>, y: seq<int>)
    requires |a| == |b| && a != b
    ensures Less(a + x, b + y) <==> Less(a, b)
  {
    assert (a + x)[1..] == a[1..] + x && (b + y)[1..] == b[1..] + y;
    if a[0] == b[0] {
      assert a == [a[0]] + a[1..] && b == [b[0]] + b[1..];
      LessByPrefix(a[1..], b[1..], x, y);
    }
  }

  /** Replacing every place by a code that keeps order and difference keeps
      the order of the whole. */
  lemma {:induction false} CodedOrder(a: seq<int>, b: seq<int>, x: seq<int>, y: seq<int>)
    requires |a| == |b| == |x| == |y|
    requires forall i :: 0 <= i < |a| ==> (a[i] < b[i] <==> x[i] < y[i])
    requires forall i :: 0 <= i < |a| ==> (a[i] == b[i] <==> x[i] == y[i])
    ensures Less(a, b) <==> Less(x, y)
  {
    if a != [] && a[0] == b[0] {
      CodedOrder(a[1..], b[1..], x[1..], y[1..]);
    }
  }
}
