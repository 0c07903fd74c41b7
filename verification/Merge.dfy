/** The inventory's merge of every device's record stream
    (crates/djbod-node/src/coordinator.rs:4020-4162): each version once, in
    order, judged from its copies. */
module Merge {
  import opened Prelude
  import opened Records
  import opened Scrub

  /** Where a version stands in the order of the streams. */
  datatype Place = Place(keyHash: nat, version: nat)

  predicate Before(a: Place, b: Place) {
    a.keyHash < b.keyHash || (a.keyHash == b.keyHash && a.version < b.version)
  }

  /** A record as a stream yields it. */
  datatype Streamed = Streamed(record: Record, shardPresent: bool)

  function At(s: Streamed): Place {
    Place(s.record.body.keyHash, s.record.body.version)
  }

  /** One device's stream: records in order, and then its end or a failure. */
  datatype Source = Source(device: nat, items: seq<Streamed>, fails: bool)

  ghost predicate Increasing(items: seq<Streamed>) {
    forall i, j :: 0 <= i < j < |items| ==> Before(At(items[i]), At(items[j]))
  }

  ghost predicate SourcesOk(sources: seq<Source>) {
    && (forall s <- sources :: Increasing(s.items))
    && (forall s <- sources, x <- s.items :: PlacementOk(x.record.shards, x.record.Total()))
    && (forall i, j :: 0 <= i < j < |sources| ==> sources[i].device != sources[j].device)
  }

  // --------------------------------------------------- the flat counterpart

  /** The source has the version at `p`. */
  ghost predicate Has(s: Source, p: Place) {
    exists x :: x in s.items && At(x) == p
  }

  ghost function ItemAt(s: Source, p: Place): (x: Streamed)
    requires Has(s, p)
    ensures x in s.items && At(x) == p
  {
    var x :| x in s.items && At(x) == p;
    x
  }

  /** One copy from each source that has the version, in source order. */
  ghost function CopiesAt(sources: seq<Source>, p: Place): seq<Located> {
    if sources == [] then []
    else
      var before, last := CopiesAt(sources[..|sources| - 1], p), sources[|sources| - 1];
      if Has(last, p) then before + [Located(last.device, ItemAt(last, p).record)] else before
  }

  /** The flags that come with them. */
  ghost function FlagsAt(sources: seq<Source>, p: Place): map<nat, bool> {
    if sources == [] then map[]
    else
      var before, last := FlagsAt(sources[..|sources| - 1], p), sources[|sources| - 1];
      if Has(last, p) then before[last.device := ItemAt(last, p).shardPresent] else before
  }

  /** The devices not read when the version at `p` is judged: those never opened,
      and those whose stream failed before reaching `p`. */
  ghost function UnreadAt(sources: seq<Source>, unopened: set<nat>, p: Place): set<nat> {
    unopened + (set s | s in sources && s.fails && (forall x <- s.items :: Before(At(x), p)) :: s.device)
  }

  ghost function Places(sources: seq<Source>): set<Place> {
    set s, x | s in sources && x in s.items :: At(x)
  }

  function Known(sources: seq<Source>): set<nat> {
    set s | s in sources :: s.device
  }

  // ------------------------------------------------------------- the heads

  /** What is left of a stream once everything up to `last` has been taken. */
  ghost function Left(items: seq<Streamed>, last: Option<Place>): seq<Streamed> {
    if items == [] then []
    else
      var before, x := Left(items[..|items| - 1], last), items[|items| - 1];
      if last.None? || Before(last.value, At(x)) then before + [x] else before
  }

  lemma {:induction false} LeftMembers(items: seq<Streamed>, last: Option<Place>, x: Streamed)
    ensures x in Left(items, last) <==> x in items && (last.None? || Before(last.value, At(x)))
  {
    if items != [] {
      var before := items[..|items| - 1];
      assert items == before + [items[|items| - 1]];
      LeftMembers(before, last, x);
    }
  }

  lemma {:induction false} LeftAll(items: seq<Streamed>)
    ensures Left(items, None) == items
  {
    if items != [] {
      LeftAll(items[..|items| - 1]);
      assert items == items[..|items| - 1] + [items[|items| - 1]];
    }
  }

  lemma {:induction false} LeftIncreasing(items: seq<Streamed>, last: Option<Place>)
    requires Increasing(items)
    ensures Increasing(Left(items, last))
  {
    if items != [] {
      var before, x := items[..|items| - 1], items[|items| - 1];
      assert items == before + [x];
      LeftIncreasing(before, last);
      forall y | y in Left(before, last) ensures Before(At(y), At(x)) {
        LeftMembers(before, last, y);
        var n :| 0 <= n < |before| && before[n] == y;
        assert items[n] == y;
      }
    }
  }

  /** One record more at the end of a stream. */
  lemma LeftLast(before: seq<Streamed>, x: Streamed, last: Option<Place>)
    ensures Left(before + [x], last) == Left(before, last) + (if last.None? || Before(last.value, At(x)) then [x] else [])
  {
    assert (before + [x])[..|before|] == before;
  }

  ghost function Popped(left: seq<Streamed>, p: Place): seq<Streamed> {
    if left != [] && At(left[0]) == p then left[1..] else left
  }

  /** Popping commutes with one record more at the end, past everything left. */
  lemma PoppedLast(left: seq<Streamed>, x: Streamed, p: Place)
    requires left != [] ==> Before(At(left[0]), At(x)) && !Before(At(left[0]), p)
    ensures left != [] || At(x) != p ==> Popped(left + [x], p) == Popped(left, p) + [x]
    ensures left == [] && At(x) == p ==> Popped(left + [x], p) == []
    ensures left != [] ==> Before(p, At(x))
  {
    if left != [] && At(left[0]) == p {
      assert (left + [x])[1..] == left[1..] + [x];
    }
  }

  /** Taking a version off: only a stream whose head it is changes, by its head. */
  lemma {:induction false} LeftNext(items: seq<Streamed>, last: Option<Place>, p: Place)
    requires Increasing(items) && (last.Some? ==> Before(last.value, p))
    requires forall x <- Left(items, last) :: !Before(At(x), p)
    ensures Left(items, Some(p)) == Popped(Left(items, last), p)
  {
    if items != [] {
      var before, x := items[..|items| - 1], items[|items| - 1];
      assert items == before + [x];
      LeftLast(before, x, last);
      LeftLast(before, x, Some(p));
      LeftNext(before, last, p);
      FirstOfLeft(items, last);
      var left := Left(before, last);
      if last.None? || Before(last.value, At(x)) {
        assert x in Left(items, last);
        if left != [] {
          assert left[0] in Left(items, last);
        }
        PoppedLast(left, x, p);
      } else if left != [] {
        assert left[0] in left;
        LeftMembers(before, last, left[0]);
      }
    }
  }

  /** What was left before the final record precedes it. */
  lemma FirstOfLeft(items: seq<Streamed>, last: Option<Place>)
    requires Increasing(items) && items != []
    ensures var left := Left(items[..|items| - 1], last);
            left != [] ==> Before(At(left[0]), At(items[|items| - 1]))
  {
    var before := items[..|items| - 1];
    var left := Left(before, last);
    if left != [] {
      assert left[0] in left;
      LeftMembers(before, last, left[0]);
      var n :| 0 <= n < |before| && before[n] == left[0];
      assert items[n] == left[0];
    }
  }

  /** A stream part way: its head, if it has one, and what comes after it. */
  datatype Stream = Stream(source: Source, head: Option<Streamed>, rest: seq<Streamed>)

  function Tail(st: Stream): seq<Streamed> {
    (if st.head.Some? then [st.head.value] else []) + st.rest
  }

  /** The stream stands at its first record past `last`. */
  ghost predicate StreamOk(st: Stream, last: Option<Place>) {
    && Increasing(st.source.items) && Tail(st) == Left(st.source.items, last) && (st.head.None? ==> st.rest == [])
  }

  ghost predicate Synced(sources: seq<Source>, last: Option<Place>, streams: seq<Stream>) {
    |streams| == |sources| && forall i :: 0 <= i < |streams| ==> streams[i].source == sources[i] && StreamOk(streams[i], last)
  }

  /** The stream failed, and nothing was left of it. */
  ghost predicate Gone(source: Source, last: Option<Place>) {
    source.fails && Left(source.items, last) == []
  }

  /** Unread so far: never opened, or gone. */
  ghost predicate UnreadSoFar(sources: seq<Source>, unopened: set<nat>, last: Option<Place>, unread: set<nat>) {
    forall d :: d in unread <==>
      d in unopened || exists i :: 0 <= i < |sources| && Gone(sources[i], last) && sources[i].device == d
  }

  predicate HeadAt(st: Stream, p: Place) {
    st.head.Some? && At(st.head.value) == p
  }

  predicate NotBefore(st: Stream, p: Place) {
    st.head.Some? ==> !Before(At(st.head.value), p)
  }

  /** No head comes before `p`, and some head is there. */
  ghost predicate Smallest(streams: seq<Stream>, p: Place) {
    && (exists i :: 0 <= i < |streams| && HeadAt(streams[i], p))
    && (forall i :: 0 <= i < |streams| ==> NotBefore(streams[i], p))
  }

  method FindSmallest(streams: seq<Stream>) returns (p: Option<Place>)
    ensures p.None? <==> forall i :: 0 <= i < |streams| ==> streams[i].head.None?
    ensures p.Some? ==> Smallest(streams, p.value)
  {
    p := None;
    for n := 0 to |streams|
      invariant p.None? ==> forall i :: 0 <= i < n ==> streams[i].head.None?
      invariant p.Some? ==>
                  && (exists i :: 0 <= i < n && HeadAt(streams[i], p.value))
                  && (forall i :: 0 <= i < n ==> NotBefore(streams[i], p.value))
    {
      if streams[n].head.Some? && (p.None? || Before(At(streams[n].head.value), p.value)) {
        p := Some(At(streams[n].head.value));
        assert HeadAt(streams[n], p.value);
      }
    }
  }

  ghost predicate Later(last: Option<Place>, p: Place) {
    last.Some? ==> Before(last.value, p)
  }

  /** Nothing left of a stream comes before a place its head does not. */
  lemma NoneBefore(st: Stream, last: Option<Place>, p: Place)
    requires StreamOk(st, last) && NotBefore(st, p)
    ensures forall x <- Left(st.source.items, last) :: !Before(At(x), p)
    ensures forall x <- Left(st.source.items, last) :: At(x) == p ==> st.head == Some(x)
  {
    LeftIncreasing(st.source.items, last);
    var left := Left(st.source.items, last);
    forall n | 0 <= n < |left| ensures !Before(At(left[n]), p) && (At(left[n]) == p ==> st.head == Some(left[n])) {
      if n == 0 {
        assert Tail(st)[0] == left[0];
      } else {
        assert Before(At(left[0]), At(left[n])) && Tail(st)[0] == left[0];
      }
    }
  }

  lemma HeadIsItem(st: Stream, last: Option<Place>)
    requires StreamOk(st, last) && st.head.Some?
    ensures st.head.value in st.source.items
  {
    assert Tail(st)[0] == st.head.value && st.head.value in Left(st.source.items, last);
    LeftMembers(st.source.items, last, st.head.value);
  }

  /** A head at the smallest place is the stream's copy of that version, and
      only such a stream has one. */
  lemma HeadIs(st: Stream, last: Option<Place>, p: Place)
    requires StreamOk(st, last) && Later(last, p) && NotBefore(st, p)
    ensures Has(st.source, p) <==> HeadAt(st, p)
    ensures Has(st.source, p) ==> ItemAt(st.source, p) == st.head.value
    ensures forall x <- Left(st.source.items, last) :: !Before(At(x), p)
  {
    NoneBefore(st, last, p);
    if Has(st.source, p) {
      LeftMembers(st.source.items, last, ItemAt(st.source, p));
    }
    if HeadAt(st, p) {
      HeadIsItem(st, last);
    }
  }

  /** The group at the smallest place. */
  method TakeGroup(ghost sources: seq<Source>, ghost last: Option<Place>, streams: seq<Stream>, p: Place)
    returns (group: seq<Located>, present: map<nat, bool>)
    requires Synced(sources, last, streams) && Smallest(streams, p) && Later(last, p)
    ensures group == CopiesAt(sources, p) && present == FlagsAt(sources, p)
  {
    group, present := [], map[];
    for n := 0 to |streams|
      invariant group == CopiesAt(sources[..n], p) && present == FlagsAt(sources[..n], p)
    {
      assert sources[..n + 1][..n] == sources[..n];
      HeadIs(streams[n], last, p);
      if HeadAt(streams[n], p) {
        group := group + [Located(streams[n].source.device, streams[n].head.value.record)];
        present := present[streams[n].source.device := streams[n].head.value.shardPresent];
      }
    }
    assert sources[..|sources|] == sources;
  }

  /** One stream after its version was or was not taken. */
  lemma Advanced(st: Stream, last: Option<Place>, p: Place)
    requires StreamOk(st, last) && Later(last, p) && NotBefore(st, p)
    ensures HeadAt(st, p) ==> Left(st.source.items, Some(p)) == st.rest
    ensures !HeadAt(st, p) ==> StreamOk(st, Some(p))
  {
    HeadIs(st, last, p);
    LeftNext(st.source.items, last, p);
    var left := Left(st.source.items, last);
    if st.head.Some? {
      assert left[0] == st.head.value && left[1..] == st.rest;
    }
  }

  /** `next` on a stream whose head was taken: the next record, or its end, or
      a failure. A stream whose head was not taken is left alone. */
  method Pull(st: Stream, ghost last: Option<Place>, p: Place) returns (next: Stream, failed: bool)
    requires StreamOk(st, last) && Later(last, p) && NotBefore(st, p)
    ensures StreamOk(next, Some(p)) && next.source == st.source
    ensures failed <==> st.source.fails && HeadAt(st, p) && st.rest == []
  {
    Advanced(st, last, p);
    if !HeadAt(st, p) {
      return st, false;
    }
    if st.rest == [] {
      return Stream(st.source, None, []), st.source.fails;
    }
    next, failed := Stream(st.source, Some(st.rest[0]), st.rest[1..]), false;
    assert Tail(next) == st.rest;
  }

  /** All streams moved past `p`; one that fails makes its device unread. */
  method PullAll(ghost sources: seq<Source>, ghost last: Option<Place>, streams: seq<Stream>, unread0: set<nat>, p: Place)
    returns (next: seq<Stream>, unread: set<nat>)
    requires Synced(sources, last, streams) && Smallest(streams, p) && Later(last, p)
    ensures Synced(sources, Some(p), next)
    ensures forall d :: d in unread <==> d in unread0 || exists i :: 0 <= i < |streams| && Fails(streams[i], p) && streams[i].source.device == d
  {
    next, unread := [], unread0;
    for n := 0 to |streams|
      invariant |next| == n && forall i :: 0 <= i < n ==> next[i].source == sources[i] && StreamOk(next[i], Some(p))
      invariant forall d :: d in unread <==> d in unread0 || exists i :: 0 <= i < n && Fails(streams[i], p) && streams[i].source.device == d
    {
      var pulled, failed := Pull(streams[n], last, p);
      next := next + [pulled];
      if failed {
        unread := unread + {streams[n].source.device};
      }
    }
  }

  predicate Fails(st: Stream, p: Place) {
    st.source.fails && HeadAt(st, p) && st.rest == []
  }

  /** A stream is gone past `p` if it was gone before, or failed after its last
      record, the one taken. */
  lemma GoneAfter(st: Stream, last: Option<Place>, p: Place)
    requires StreamOk(st, last) && Later(last, p) && NotBefore(st, p)
    ensures Gone(st.source, Some(p)) <==> Gone(st.source, last) || Fails(st, p)
  {
    Advanced(st, last, p);
  }

  lemma UnreadAfter(sources: seq<Source>, unopened: set<nat>, last: Option<Place>, streams: seq<Stream>, p: Place,
                    unread: set<nat>, now: set<nat>)
    requires Synced(sources, last, streams) && Smallest(streams, p) && Later(last, p)
    requires UnreadSoFar(sources, unopened, last, unread)
    requires forall d :: d in now <==> d in unread || exists i :: 0 <= i < |streams| && Fails(streams[i], p) && streams[i].source.device == d
    ensures UnreadSoFar(sources, unopened, Some(p), now)
  {
    forall i | 0 <= i < |sources| ensures Gone(sources[i], Some(p)) <==> Gone(sources[i], last) || Fails(streams[i], p) {
      GoneAfter(streams[i], last, p);
    }
  }

  // -------------------------------------------------------------- the merge

  /** A version as the merge judged it. */
  datatype Visit = Visit(place: Place, copies: seq<Located>, present: map<nat, bool>, unread: set<nat>, state: ObjectState)

  /** `classify_group`'s answer for the copies. */
  ghost predicate Judged(v: Visit, known: set<nat>) {
    && (v.state == Inconsistent <==> !exists r :: GroupAgrees(v.copies, r, v.unread, known))
    && (v.state != Inconsistent ==> exists r ::
          && GroupAgrees(v.copies, r, v.unread, known)
          && StateMeans(r, ShardsRead(r, v.present, v.unread, known), v.state))
  }

  /** The version's copies, flags and unread devices are those of the flat
      definition. */
  ghost predicate VisitOk(sources: seq<Source>, unopened: set<nat>, v: Visit) {
    && v.copies == CopiesAt(sources, v.place) && v.present == FlagsAt(sources, v.place)
    && v.unread == UnreadAt(sources, unopened, v.place) && Judged(v, Known(sources))
  }

  /** Visits in increasing order, each right, of every version up to `last`. */
  ghost predicate VisitedTo(sources: seq<Source>, unopened: set<nat>, visits: seq<Visit>, last: Option<Place>) {
    VisitsOk(sources, unopened, visits) && VisitedPlaces(sources, visits, last)
  }

  ghost predicate VisitsOk(sources: seq<Source>, unopened: set<nat>, visits: seq<Visit>) {
    forall i :: 0 <= i < |visits| ==> VisitOk(sources, unopened, visits[i])
  }

  ghost predicate VisitedPlaces(sources: seq<Source>, visits: seq<Visit>, last: Option<Place>) {
    && (forall i, j :: 0 <= i < j < |visits| ==> Before(visits[i].place, visits[j].place))
    && (forall p <- Places(sources) ::
          (exists i :: 0 <= i < |visits| && visits[i].place == p) <==> last.Some? && !Before(last.value, p))
    && (forall i :: 0 <= i < |visits| ==> visits[i].place in Places(sources) && last.Some? && !Before(last.value, visits[i].place))
  }

  lemma {:induction false} CopiesMembers(sources: seq<Source>, p: Place, c: Located)
    ensures c in CopiesAt(sources, p) <==> exists s :: s in sources && Has(s, p) && c == Located(s.device, ItemAt(s, p).record)
  {
    if sources != [] {
      var before, last := sources[..|sources| - 1], sources[|sources| - 1];
      assert sources == before + [last];
      CopiesMembers(before, p, c);
    }
  }

  lemma {:induction false} CopiesDistinct(sources: seq<Source>, p: Place)
    requires forall i, j :: 0 <= i < j < |sources| ==> sources[i].device != sources[j].device
    ensures forall i, j :: 0 <= i < j < |CopiesAt(sources, p)| ==> CopiesAt(sources, p)[i].device != CopiesAt(sources, p)[j].device
  {
    if sources != [] {
      var before, last := sources[..|sources| - 1], sources[|sources| - 1];
      assert sources == before + [last];
      CopiesDistinct(before, p);
      forall c | c in CopiesAt(before, p) ensures c.device != last.device {
        CopiesMembers(before, p, c);
        var s :| s in before && Has(s, p) && c == Located(s.device, ItemAt(s, p).record);
        var n :| 0 <= n < |before| && before[n] == s;
        assert sources[n] == s;
      }
    }
  }

  /** The copies of a version are a group as the judging expects it. */
  lemma CopiesAreGroup(sources: seq<Source>, p: Place)
    requires SourcesOk(sources) && p in Places(sources)
    ensures Group(CopiesAt(sources, p), Known(sources))
  {
    var copies := CopiesAt(sources, p);
    CopiesDistinct(sources, p);
    var s, x :| s in sources && x in s.items && At(x) == p;
    CopiesMembers(sources, p, Located(s.device, ItemAt(s, p).record));
    forall c | c in copies
      ensures c.device in Known(sources) && PlacementOk(c.record.shards, c.record.Total()) && c.record.body.version == p.version
    {
      CopiesMembers(sources, p, c);
      var t :| t in sources && Has(t, p) && c == Located(t.device, ItemAt(t, p).record);
    }
    assert copies[0] in copies;
  }

  /** Every copy comes with a flag. */
  lemma {:induction false} CopiesHaveFlags(sources: seq<Source>, p: Place)
    ensures forall c <- CopiesAt(sources, p) :: c.device in FlagsAt(sources, p)
  {
    if sources != [] {
      CopiesHaveFlags(sources[..|sources| - 1], p);
    }
  }

  /** The devices unread now are those of the flat definition. */
  lemma UnreadIs(sources: seq<Source>, unopened: set<nat>, last: Option<Place>, streams: seq<Stream>, unread: set<nat>, p: Place)
    requires Synced(sources, last, streams) && Smallest(streams, p) && Later(last, p)
    requires UnreadSoFar(sources, unopened, last, unread)
    ensures unread == UnreadAt(sources, unopened, p)
  {
    forall i | 0 <= i < |sources|
      ensures Left(sources[i].items, last) == [] <==> forall x <- sources[i].items :: Before(At(x), p)
    {
      NothingLeft(streams[i], last, p);
    }
    forall d ensures d in unread <==> d in UnreadAt(sources, unopened, p) {
      if d in UnreadAt(sources, unopened, p) && d !in unopened {
        var s :| s in sources && s.fails && (forall x <- s.items :: Before(At(x), p)) && s.device == d;
        var i :| 0 <= i < |sources| && sources[i] == s;
        assert Gone(sources[i], last);
      }
    }
  }

  lemma NothingLeft(st: Stream, last: Option<Place>, p: Place)
    requires StreamOk(st, last) && Later(last, p) && NotBefore(st, p)
    ensures Left(st.source.items, last) == [] <==> forall x <- st.source.items :: Before(At(x), p)
  {
    HeadIs(st, last, p);
    var left := Left(st.source.items, last);
    if left == [] {
      forall x | x in st.source.items ensures Before(At(x), p) {
        LeftMembers(st.source.items, last, x);
      }
    } else {
      assert left[0] in left;
      LeftMembers(st.source.items, last, left[0]);
    }
  }

  /** A smallest head stands at a version of the sources, and every version is
      either taken already or not before it. */
  lemma NoneBetween(sources: seq<Source>, last: Option<Place>, streams: seq<Stream>, p: Place)
    requires Synced(sources, last, streams) && Smallest(streams, p)
    ensures Later(last, p) && p in Places(sources)
    ensures forall q <- Places(sources) :: (last.Some? && !Before(last.value, q)) || !Before(q, p)
  {
    var i :| 0 <= i < |streams| && HeadAt(streams[i], p);
    var x := streams[i].head.value;
    assert Tail(streams[i])[0] == x && x in Tail(streams[i]);
    LeftMembers(sources[i].items, last, x);
    assert sources[i] in sources;
    forall q | q in Places(sources) && Later(last, q) ensures !Before(q, p) {
      var s, y :| s in sources && y in s.items && At(y) == q;
      var j :| 0 <= j < |sources| && sources[j] == s;
      LeftMembers(s.items, last, y);
      HeadIs(streams[j], last, p);
    }
  }

  /** One more version visited. */
  lemma VisitedNext(sources: seq<Source>, unopened: set<nat>, visits: seq<Visit>, last: Option<Place>, v: Visit)
    requires VisitedTo(sources, unopened, visits, last) && VisitOk(sources, unopened, v)
    requires Later(last, v.place) && v.place in Places(sources)
    requires forall q <- Places(sources) :: (last.Some? && !Before(last.value, q)) || !Before(q, v.place)
    ensures VisitedTo(sources, unopened, visits + [v], Some(v.place))
  {
    VisitsOkNext(sources, unopened, visits, v);
    PlacesNext(sources, visits, last, v);
  }

  lemma VisitsOkNext(sources: seq<Source>, unopened: set<nat>, visits: seq<Visit>, v: Visit)
    requires VisitsOk(sources, unopened, visits) && VisitOk(sources, unopened, v)
    ensures VisitsOk(sources, unopened, visits + [v])
  {
  }

  lemma PlacesNext(sources: seq<Source>, visits: seq<Visit>, last: Option<Place>, v: Visit)
    requires VisitedPlaces(sources, visits, last) && Later(last, v.place) && v.place in Places(sources)
    requires forall q <- Places(sources) :: (last.Some? && !Before(last.value, q)) || !Before(q, v.place)
    ensures VisitedPlaces(sources, visits + [v], Some(v.place))
  {
    forall q | q in Places(sources)
      ensures (exists i :: 0 <= i < |visits + [v]| && (visits + [v])[i].place == q) <==> !Before(v.place, q)
    {
      PlacesOfMore(visits, v, q);
    }
  }

  lemma PlacesOfMore(visits: seq<Visit>, v: Visit, q: Place)
    ensures (exists i :: 0 <= i < |visits + [v]| && (visits + [v])[i].place == q) <==>
              (exists i :: 0 <= i < |visits| && visits[i].place == q) || v.place == q
  {
    var more := visits + [v];
    if exists i :: 0 <= i < |visits| && visits[i].place == q {
      var i :| 0 <= i < |visits| && visits[i].place == q;
      assert more[i].place == q;
    }
    assert more[|visits|].place == v.place;
  }

  /** With every head gone, every version has been visited. */
  lemma NoneLeft(sources: seq<Source>, unopened: set<nat>, visits: seq<Visit>, last: Option<Place>, streams: seq<Stream>)
    requires Synced(sources, last, streams) && VisitedTo(sources, unopened, visits, last)
    requires forall i :: 0 <= i < |streams| ==> streams[i].head.None?
    ensures forall p :: p in Places(sources) <==> exists i :: 0 <= i < |visits| && visits[i].place == p
    ensures forall i :: 0 <= i < |sources| && sources[i].fails ==> Gone(sources[i], last)
  {
    forall p | p in Places(sources) ensures last.Some? && !Before(last.value, p) {
      var s, x :| s in sources && x in s.items && At(x) == p;
      var j :| 0 <= j < |sources| && sources[j] == s;
      assert Tail(streams[j]) == [];
      LeftMembers(s.items, last, x);
    }
    forall i | 0 <= i < |sources| && sources[i].fails ensures Gone(sources[i], last) {
      assert Tail(streams[i]) == [];
    }
  }

  ghost function PlacesAfter(sources: seq<Source>, last: Option<Place>): set<Place> {
    set p | p in Places(sources) && Later(last, p)
  }

  lemma PlacesShrink(sources: seq<Source>, last: Option<Place>, p: Place)
    requires p in Places(sources) && Later(last, p)
    ensures |PlacesAfter(sources, Some(p))| < |PlacesAfter(sources, last)|
  {
    var after, before := PlacesAfter(sources, Some(p)), PlacesAfter(sources, last);
    assert after <= before - {p};
    SubsetCount(after, before - {p});
    assert p in before;
  }

  // -------------------------------------------------------------- the counts

  ghost function Count(states: seq<ObjectState>, state: ObjectState): nat {
    if states == [] then 0
    else Count(states[..|states| - 1], state) + (if states[|states| - 1] == state then 1 else 0)
  }

  /** Every version is counted under exactly one state. */
  lemma {:induction false} CountsAddUp(states: seq<ObjectState>)
    ensures Count(states, Whole) + Count(states, DegradedParity) + Count(states, DegradedData)
            + Count(states, Unreadable) + Count(states, Inconsistent) == |states|
  {
    if states != [] {
      CountsAddUp(states[..|states| - 1]);
    }
  }

  class InventoryCounts {
    var versionsChecked: nat
    var whole: nat
    var degradedParity: nat
    var degradedData: nat
    var unreadable: nat
    var inconsistent: nat
    ghost var states: seq<ObjectState>

    /** Each count is the number of versions noted in that state. */
    ghost predicate Valid()
      reads this
    {
      && versionsChecked == |states| && whole == Count(states, Whole) && degradedParity == Count(states, DegradedParity)
      && degradedData == Count(states, DegradedData) && unreadable == Count(states, Unreadable)
      && inconsistent == Count(states, Inconsistent)
    }

    constructor ()
      ensures Valid() && states == []
    {
      versionsChecked, whole, degradedParity, degradedData, unreadable, inconsistent := 0, 0, 0, 0, 0, 0;
      states := [];
    }

    method Note(state: ObjectState)
      requires Valid()
      modifies this
      ensures Valid() && states == old(states) + [state]
    {
      assert (states + [state])[..|states|] == states;
      versionsChecked := versionsChecked + 1;
      match state {
        case Whole => whole := whole + 1;
        case DegradedParity => degradedParity := degradedParity + 1;
        case DegradedData => degradedData := degradedData + 1;
        case Unreadable => unreadable := unreadable + 1;
        case Inconsistent => inconsistent := inconsistent + 1;
      }
      states := states + [state];
    }
  }

  // ------------------------------------------------------------- all together

  method OpenStreams(sources: seq<Source>, unopened: set<nat>) returns (streams: seq<Stream>, unread: set<nat>)
    requires SourcesOk(sources)
    ensures Synced(sources, None, streams) && UnreadSoFar(sources, unopened, None, unread)
  {
    streams, unread := [], unopened;
    for n := 0 to |sources|
      invariant |streams| == n && forall i :: 0 <= i < n ==> streams[i].source == sources[i] && StreamOk(streams[i], None)
      invariant forall d :: d in unread <==>
                  d in unopened || exists i :: 0 <= i < n && Gone(sources[i], None) && sources[i].device == d
    {
      var source := sources[n];
      assert source in sources;
      LeftAll(source.items);
      var st := if source.items == [] then Stream(source, None, []) else Stream(source, Some(source.items[0]), source.items[1..]);
      assert Tail(st) == source.items;
      streams := streams + [st];
      if source.items == [] && source.fails {
        unread := unread + {source.device};
      }
    }
  }

  /** One turn of the merge: the smallest version, its copies, its state. */
  method VisitSmallest(sources: seq<Source>, ghost unopened: set<nat>, ghost last: Option<Place>, streams: seq<Stream>,
                       unread: set<nat>, p: Place)
    returns (v: Visit)
    requires SourcesOk(sources) && Synced(sources, last, streams) && Smallest(streams, p)
    requires Later(last, p) && p in Places(sources) && UnreadSoFar(sources, unopened, last, unread)
    ensures v.place == p && VisitOk(sources, unopened, v)
  {
    var group, present := TakeGroup(sources, last, streams, p);
    CopiesAreGroup(sources, p);
    CopiesHaveFlags(sources, p);
    UnreadIs(sources, unopened, last, streams, unread, p);
    var state, record, out := ClassifyGroup(group, present, unread, Known(sources));
    v := Visit(p, group, present, unread, state);
  }

  /** Where the merge stands once everything up to `last` is judged. */
  ghost predicate MergeAt(sources: seq<Source>, unopened: set<nat>, last: Option<Place>, streams: seq<Stream>,
                          unread: set<nat>, visits: seq<Visit>) {
    Synced(sources, last, streams) && UnreadSoFar(sources, unopened, last, unread) && VisitedTo(sources, unopened, visits, last)
  }

  /** One whole turn: judge the smallest version and move its streams on. */
  method Turn(sources: seq<Source>, ghost unopened: set<nat>, ghost last: Option<Place>, streams0: seq<Stream>,
              unread0: set<nat>, ghost visits: seq<Visit>, p: Place)
    returns (v: Visit, streams: seq<Stream>, unread: set<nat>)
    requires SourcesOk(sources) && MergeAt(sources, unopened, last, streams0, unread0, visits) && Smallest(streams0, p)
    ensures MergeAt(sources, unopened, Some(p), streams, unread, visits + [v])
    ensures |PlacesAfter(sources, Some(p))| < |PlacesAfter(sources, last)|
  {
    NoneBetween(sources, last, streams0, p);
    v := VisitSmallest(sources, unopened, last, streams0, unread0, p);
    VisitedNext(sources, unopened, visits, last, v);
    PlacesShrink(sources, last, p);
    streams, unread := PullAll(sources, last, streams0, unread0, p);
    UnreadAfter(sources, unopened, last, streams0, p, unread0, unread);
  }

  /** The merge equals the flat definition: every version of the sources once,
      in increasing order, each from exactly one copy of every source that has
      it and the devices unread by then. */
  ghost predicate MergedAll(sources: seq<Source>, unopened: set<nat>, visits: seq<Visit>, unread: set<nat>) {
    && (forall i :: 0 <= i < |visits| ==> VisitOk(sources, unopened, visits[i]))
    && (forall i, j :: 0 <= i < j < |visits| ==> Before(visits[i].place, visits[j].place))
    && (forall p :: p in Places(sources) <==> exists i :: 0 <= i < |visits| && visits[i].place == p)
    && (forall d :: d in unread <==> d in unopened || exists s :: s in sources && s.fails && s.device == d)
  }

  lemma MergeEnds(sources: seq<Source>, unopened: set<nat>, last: Option<Place>, streams: seq<Stream>, unread: set<nat>,
                  visits: seq<Visit>)
    requires MergeAt(sources, unopened, last, streams, unread, visits)
    requires forall i :: 0 <= i < |streams| ==> streams[i].head.None?
    ensures MergedAll(sources, unopened, visits, unread)
  {
    NoneLeft(sources, unopened, visits, last, streams);
    AllFailed(sources, unopened, last, unread);
  }

  ghost function States(visits: seq<Visit>): seq<ObjectState> {
    seq(|visits|, i requires 0 <= i < |visits| => visits[i].state)
  }

  /** The merge's loop. */
  method MergeStreams(sources: seq<Source>, unopened: set<nat>) returns (visits: seq<Visit>, unread: set<nat>)
    requires SourcesOk(sources)
    ensures MergedAll(sources, unopened, visits, unread)
  {
    visits := [];
    var streams;
    streams, unread := OpenStreams(sources, unopened);
    ghost var last: Option<Place> := None;
    while true
      invariant MergeAt(sources, unopened, last, streams, unread, visits)
      decreases |PlacesAfter(sources, last)|
    {
      var smallest := FindSmallest(streams);
      if smallest.None? {
        MergeEnds(sources, unopened, last, streams, unread, visits);
        return;
      }
      var v;
      v, streams, unread := Turn(sources, unopened, last, streams, unread, visits, smallest.value);
      visits, last := visits + [v], smallest;
    }
  }

  /** Noting every version visited. */
  method CountVisits(visits: seq<Visit>) returns (counts: InventoryCounts)
    ensures fresh(counts) && counts.Valid() && counts.states == States(visits)
  {
    counts := new InventoryCounts();
    for n := 0 to |visits|
      invariant fresh(counts) && counts.Valid() && counts.states == States(visits)[..n]
    {
      counts.Note(visits[n].state);
    }
  }

  /** `merge_inventory`: it ends, having visited every version as the flat
      definition says, and the five counts add up to the versions checked. */
  method MergeInventory(sources: seq<Source>, unopened: set<nat>, limit: nat)
    returns (visits: seq<Visit>, counts: InventoryCounts, unread: set<nat>, complete: bool)
    requires SourcesOk(sources)
    ensures MergedAll(sources, unopened, visits, unread) && (complete <==> |unread| < limit)
    ensures fresh(counts) && counts.Valid() && counts.states == States(visits)
    ensures counts.whole + counts.degradedParity + counts.degradedData + counts.unreadable + counts.inconsistent
            == counts.versionsChecked == |visits|
  {
    visits, unread := MergeStreams(sources, unopened);
    counts := CountVisits(visits);
    CountsAddUp(counts.states);
    complete := |unread| < limit;
  }

  lemma AllFailed(sources: seq<Source>, unopened: set<nat>, last: Option<Place>, unread: set<nat>)
    requires UnreadSoFar(sources, unopened, last, unread)
    requires forall i :: 0 <= i < |sources| && sources[i].fails ==> Gone(sources[i], last)
    ensures forall d :: d in unread <==> d in unopened || exists s :: s in sources && s.fails && s.device == d
  {
    forall d ensures d in unread <==> d in unopened || exists s :: s in sources && s.fails && s.device == d {
      if exists s :: s in sources && s.fails && s.device == d {
        var s :| s in sources && s.fails && s.device == d;
        var i :| 0 <= i < |sources| && sources[i] == s;
        assert Gone(sources[i], last);
      }
    }
  }
}
