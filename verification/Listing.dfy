/** Listing keys, one node: its sorted entries and their first page
    (crates/djbod-node/src/local_ops.rs:532-610). */
module Listing {
  import opened Prelude
  import opened ByteOrder

  type Key = seq<int>

  datatype Entry = Entry(key: Key, size: nat, version: nat)

  /** One device's records as the walk yields them, `None` if it cannot be read. */
  datatype Device = Device(id: nat, entries: Option<seq<Entry>>)

  /** A node, which may not be reachable. */
  datatype Node = Node(reachable: bool, devices: seq<Device>)

  predicate HasPrefix(key: Key, prefix: Option<Key>): (has: bool)
    ensures has <==> prefix.None? || prefix.value <= key
  {
    prefix.None? || (|prefix.value| <= |key| && key[..|prefix.value|] == prefix.value)
  }

  predicate After(key: Key, start: Option<Key>) {
    start.None? || Less(start.value, key)
  }

  /** By key, then by version. */
  predicate Before(a: Entry, b: Entry) {
    Less(a.key, b.key) || (a.key == b.key && a.version < b.version)
  }

  predicate Same(a: Entry, b: Entry) {
    a.key == b.key && a.version == b.version
  }

  lemma BeforeOrder(a: Entry, b: Entry, c: Entry)
    ensures Before(a, b) && Before(b, c) ==> Before(a, c)
    ensures Before(a, b) ==> !Before(b, a) && !Same(a, b)
    ensures Before(a, b) || Before(b, a) || Same(a, b)
  {
    if Less(a.key, b.key) && Less(b.key, c.key) {
      Transitive(a.key, b.key, c.key);
    }
    if Less(a.key, b.key) {
      Asymmetric(a.key, b.key);
    }
    Total(a.key, b.key);
    Irreflexive(a.key);
    Irreflexive(b.key);
  }

  ghost predicate Sorted(entries: seq<Entry>) {
    forall i, j :: 0 <= i < j < |entries| ==> Before(entries[i], entries[j])
  }

  /** An entry of this key and version is there. */
  ghost predicate Has(entries: seq<Entry>, e: Entry) {
    exists i :: 0 <= i < |entries| && Same(entries[i], e)
  }

  ghost predicate HasKey(entries: seq<Entry>, key: Key) {
    exists i :: 0 <= i < |entries| && entries[i].key == key
  }

  // ------------------------------------------------------- sort and dedup

  /** The place for `e` in a sorted sequence; an equal entry keeps its own. */
  function Insert(s: seq<Entry>, e: Entry): seq<Entry> {
    if s == [] then [e]
    else if Before(e, s[0]) then [e] + s
    else if Same(e, s[0]) then s
    else [s[0]] + Insert(s[1..], e)
  }

  lemma {:induction false} InsertMembers(s: seq<Entry>, e: Entry)
    ensures forall x :: x in Insert(s, e) ==> x in s || x == e
    ensures forall x :: x in s ==> x in Insert(s, e)
    ensures Has(Insert(s, e), e)
  {
    if s == [] {
      assert [e][0] == e;
    } else if Before(e, s[0]) {
      assert ([e] + s)[0] == e;
    } else if Same(e, s[0]) {
    } else {
      InsertMembers(s[1..], e);
      var i :| 0 <= i < |Insert(s[1..], e)| && Same(Insert(s[1..], e)[i], e);
      assert Insert(s, e)[i + 1] == Insert(s[1..], e)[i];
      assert s == [s[0]] + s[1..];
    }
  }

  lemma {:induction false} InsertSorted(s: seq<Entry>, e: Entry)
    requires Sorted(s)
    ensures Sorted(Insert(s, e))
  {
    if s != [] {
      BeforeOrder(e, s[0], e);
      if Before(e, s[0]) {
        forall j | 0 <= j < |s| ensures Before(e, s[j]) {
          BeforeOrder(e, s[0], s[j]);
        }
      } else if !Same(e, s[0]) {
        InsertSorted(s[1..], e);
        InsertMembers(s[1..], e);
        var rest := Insert(s[1..], e);
        forall j | 0 <= j < |rest| ensures Before(s[0], rest[j]) {
          assert rest[j] in rest;
          if rest[j] in s[1..] {
            var n :| 0 <= n < |s[1..]| && s[1..][n] == rest[j];
            assert s[n + 1] == rest[j];
          } else {
            BeforeOrder(s[0], e, e);
          }
        }
      }
    }
  }

  // ------------------------------------------------------------- one node

  ghost predicate Matches(e: Entry, prefix: Option<Key>, start: Option<Key>) {
    HasPrefix(e.key, prefix) && After(e.key, start)
  }

  /** The entry is on a device of the node that can be read. */
  ghost predicate Holds(node: Node, e: Entry) {
    exists d :: d in node.devices && d.entries.Some? && e in d.entries.value
  }

  /** Every matching entry of `found` has its key and version in `entries`. */
  ghost predicate Covered(found: seq<Entry>, prefix: Option<Key>, entries: seq<Entry>) {
    forall e <- found :: HasPrefix(e.key, prefix) ==> Has(entries, e)
  }

  lemma HasStill(before: seq<Entry>, after: seq<Entry>, e: Entry)
    requires Has(before, e) && forall x :: x in before ==> x in after
    ensures Has(after, e)
  {
    var i :| 0 <= i < |before| && Same(before[i], e);
    assert before[i] in after;
    var j :| 0 <= j < |after| && after[j] == before[i];
  }

  lemma CoveredStill(found: seq<Entry>, prefix: Option<Key>, before: seq<Entry>, after: seq<Entry>)
    requires Covered(found, prefix, before) && forall x :: x in before ==> x in after
    ensures Covered(found, prefix, after)
  {
    forall e | e in found && HasPrefix(e.key, prefix) ensures Has(after, e) {
      HasStill(before, after, e);
    }
  }

  /** The entries with those found on one more device. */
  function WithDevice(found: seq<Entry>, prefix: Option<Key>, entries: seq<Entry>): seq<Entry> {
    if found == [] then entries
    else
      var before, last := WithDevice(found[..|found| - 1], prefix, entries), found[|found| - 1];
      if HasPrefix(last.key, prefix) then Insert(before, last) else before
  }

  lemma {:induction false} WithDeviceIs(found: seq<Entry>, prefix: Option<Key>, entries: seq<Entry>)
    requires Sorted(entries)
    ensures Sorted(WithDevice(found, prefix, entries)) && Covered(found, prefix, WithDevice(found, prefix, entries))
    ensures forall x :: x in entries ==> x in WithDevice(found, prefix, entries)
    ensures forall x <- WithDevice(found, prefix, entries) :: x in entries || (x in found && HasPrefix(x.key, prefix))
  {
    if found != [] {
      var first, last := found[..|found| - 1], found[|found| - 1];
      assert found == first + [last];
      WithDeviceIs(first, prefix, entries);
      var before := WithDevice(first, prefix, entries);
      if HasPrefix(last.key, prefix) {
        InsertSorted(before, last);
        InsertMembers(before, last);
        CoveredStill(first, prefix, before, Insert(before, last));
      }
    }
  }

  /** The entries under the prefix on those devices that can be read: sorted,
      each key and version once. */
  function EntriesOn(devices: seq<Device>, prefix: Option<Key>): seq<Entry> {
    if devices == [] then []
    else
      var before := EntriesOn(devices[..|devices| - 1], prefix);
      match devices[|devices| - 1].entries
      case None => before
      case Some(found) => WithDevice(found, prefix, before)
  }

  /** What `EntriesOn` holds, in terms of a node. */
  lemma {:induction false} EntriesOnAre(node: Node, prefix: Option<Key>, n: nat)
    requires n <= |node.devices|
    ensures var entries := EntriesOn(node.devices[..n], prefix);
            && Sorted(entries) && (forall e <- entries :: Holds(node, e) && HasPrefix(e.key, prefix))
            && forall j :: 0 <= j < n && node.devices[j].entries.Some? ==> Covered(node.devices[j].entries.value, prefix, entries)
  {
    if n > 0 {
      EntriesOnAre(node, prefix, n - 1);
      assert node.devices[..n][..n - 1] == node.devices[..n - 1];
      var device, before := node.devices[n - 1], EntriesOn(node.devices[..n - 1], prefix);
      assert device in node.devices;
      if device.entries.Some? {
        WithDeviceIs(device.entries.value, prefix, before);
        forall j | 0 <= j < n - 1 && node.devices[j].entries.Some?
          ensures Covered(node.devices[j].entries.value, prefix, EntriesOn(node.devices[..n], prefix))
        {
          CoveredStill(node.devices[j].entries.value, prefix, before, EntriesOn(node.devices[..n], prefix));
        }
      }
    }
  }

  lemma NodeEntriesAre(node: Node, prefix: Option<Key>)
    ensures var entries := EntriesOn(node.devices, prefix);
            && Sorted(entries) && (forall e <- entries :: Holds(node, e) && HasPrefix(e.key, prefix))
            && forall e :: Holds(node, e) && HasPrefix(e.key, prefix) ==> Has(entries, e)
  {
    EntriesOnAre(node, prefix, |node.devices|);
    assert node.devices[..|node.devices|] == node.devices;
    forall e | Holds(node, e) && HasPrefix(e.key, prefix) ensures Has(EntriesOn(node.devices, prefix), e) {
      var d :| d in node.devices && d.entries.Some? && e in d.entries.value;
      var j :| 0 <= j < |node.devices| && node.devices[j] == d;
    }
  }

  /** The devices the node cannot read. */
  function UnreadHere(devices: seq<Device>): (unread: seq<nat>)
    ensures forall d :: d in unread <==> exists x :: x in devices && x.id == d && x.entries.None?
  {
    if devices == [] then []
    else
      var before, last := UnreadHere(devices[..|devices| - 1]), devices[|devices| - 1];
      assert devices == devices[..|devices| - 1] + [last];
      if last.entries.None? then before + [last.id] else before
  }

  /** The sorted entries of a node under the prefix. */
  method Collect(node: Node, prefix: Option<Key>) returns (entries: seq<Entry>, unread: seq<nat>)
    ensures entries == EntriesOn(node.devices, prefix) && Sorted(entries)
    ensures forall e <- entries :: Holds(node, e) && HasPrefix(e.key, prefix)
    ensures forall e :: Holds(node, e) && HasPrefix(e.key, prefix) ==> Has(entries, e)
    ensures unread == UnreadHere(node.devices)
  {
    entries, unread := [], [];
    for n := 0 to |node.devices|
      invariant entries == EntriesOn(node.devices[..n], prefix) && unread == UnreadHere(node.devices[..n])
    {
      var device := node.devices[n];
      assert node.devices[..n + 1][..n] == node.devices[..n];
      match device.entries
      case None => unread := unread + [device.id];
      case Some(found) => entries := CollectDevice(found, prefix, entries);
    }
    assert node.devices[..|node.devices|] == node.devices;
    NodeEntriesAre(node, prefix);
  }

  method CollectDevice(found: seq<Entry>, prefix: Option<Key>, entries0: seq<Entry>) returns (entries: seq<Entry>)
    ensures entries == WithDevice(found, prefix, entries0)
  {
    entries := entries0;
    for n := 0 to |found|
      invariant entries == WithDevice(found[..n], prefix, entries0)
    {
      assert found[..n + 1][..n] == found[..n];
      if HasPrefix(found[n].key, prefix) {
        entries := Insert(entries, found[n]);
      }
    }
    assert found[..|found|] == found;
  }

  // ------------------------------------------------------------ one page

  function KeyBytes(entries: seq<Entry>): nat {
    if entries == [] then 0 else KeyBytes(entries[..|entries| - 1]) + |entries[|entries| - 1].key|
  }

  /** How far a page goes that has come to entry `n` with `bytes` of key text. */
  function PageFrom(entries: seq<Entry>, limit: Option<nat>, n: nat, bytes: nat): (length: nat)
    requires n <= |entries|
    ensures n <= length <= |entries|
    decreases |entries| - n
  {
    if || n == |entries| || (limit.Some? && n >= limit.value && n > 0)
       || (n > 0 && bytes + |entries[n].key| > MAX_LIST_PAGE_BYTES)
    then n
    else PageFrom(entries, limit, n + 1, bytes + |entries[n].key|)
  }

  function PageLength(entries: seq<Entry>, limit: Option<nat>): (length: nat)
    ensures length <= |entries| && (entries != [] ==> length > 0)
  {
    PageFrom(entries, limit, 0, 0)
  }

  /** `page_of_keys`: the longest prefix within the limits, empty only if there
      was nothing: at most `limit` entries, a limit of zero being read as one,
      and at most the page's bytes of key text unless one key alone is longer. */
  method PageOfKeys(entries: seq<Entry>, limit: Option<nat>) returns (page: seq<Entry>, truncated: bool)
    ensures page == entries[..PageLength(entries, limit)] && (truncated <==> |page| < |entries|)
    ensures entries != [] ==> page != []
    ensures limit.Some? ==> |page| <= (if limit.value == 0 then 1 else limit.value)
    ensures KeyBytes(page) <= MAX_LIST_PAGE_BYTES || |page| == 1
    ensures truncated ==>
              || (limit.Some? && |page| >= limit.value)
              || KeyBytes(page) + |entries[|page|].key| > MAX_LIST_PAGE_BYTES
  {
    var most := if limit == Some(0) then Some(1) else limit;
    page, truncated := [], false;
    var bytes := 0;
    assert entries[..0] == [];
    PageFromMeans(entries, limit, 0, 0);
    for n := 0 to |entries|
      invariant page == entries[..n] && !truncated && bytes == KeyBytes(page)
      invariant PageFrom(entries, limit, n, bytes) == PageLength(entries, limit)
    {
      OneMoreKey(entries, n);
      if (most.Some? && |page| >= most.value) || (page != [] && bytes + |entries[n].key| > MAX_LIST_PAGE_BYTES) {
        return page, true;
      }
      bytes := bytes + |entries[n].key|;
      page := page + [entries[n]];
    }
  }

  lemma OneMoreKey(entries: seq<Entry>, n: nat)
    requires n < |entries|
    ensures entries[..n + 1] == entries[..n] + [entries[n]]
    ensures KeyBytes(entries[..n + 1]) == KeyBytes(entries[..n]) + |entries[n].key|
  {
    assert entries[..n + 1][..n] == entries[..n];
  }

  /** How long a page is: within the limits, and not for want of trying. */
  lemma {:induction false} PageFromMeans(entries: seq<Entry>, limit: Option<nat>, n: nat, bytes: nat)
    requires n <= |entries| && bytes == KeyBytes(entries[..n])
    requires limit.Some? ==> n <= if limit.value == 0 then 1 else limit.value
    requires bytes <= MAX_LIST_PAGE_BYTES || n == 1
    ensures var length := PageFrom(entries, limit, n, bytes);
            && (limit.Some? ==> length <= if limit.value == 0 then 1 else limit.value)
            && (KeyBytes(entries[..length]) <= MAX_LIST_PAGE_BYTES || length == 1)
            && (length < |entries| ==>
                  || (limit.Some? && length >= limit.value)
                  || KeyBytes(entries[..length]) + |entries[length].key| > MAX_LIST_PAGE_BYTES)
    decreases |entries| - n
  {
    if n < |entries| && PageFrom(entries, limit, n, bytes) != n {
      OneMoreKey(entries, n);
      PageFromMeans(entries, limit, n + 1, bytes + |entries[n].key|);
    }
  }

  function Retain(entries: seq<Entry>, start: Option<Key>): (r: seq<Entry>)
    ensures forall e :: e in r <==> e in entries && After(e.key, start)
  {
    if entries == [] then []
    else
      assert entries == [entries[0]] + entries[1..];
      if After(entries[0].key, start) then [entries[0]] + Retain(entries[1..], start) else Retain(entries[1..], start)
  }

  lemma {:induction false} RetainSorted(entries: seq<Entry>, start: Option<Key>)
    requires Sorted(entries)
    ensures Sorted(Retain(entries, start))
  {
    if entries != [] {
      RetainSorted(entries[1..], start);
      forall e | e in Retain(entries[1..], start) ensures Before(entries[0], e) {
        var n :| 0 <= n < |entries[1..]| && entries[1..][n] == e;
        assert entries[n + 1] == e;
      }
    }
  }

  /** A node's page: sorted matching entries, and whatever matches and is not
      there comes after the last one. */
  ghost predicate NodePage(node: Node, prefix: Option<Key>, start: Option<Key>, page: seq<Entry>, truncated: bool) {
    && Sorted(page) && (forall e <- page :: Holds(node, e) && Matches(e, prefix, start))
    && (truncated ==> page != [])
    && (forall e :: Holds(node, e) && Matches(e, prefix, start) ==>
          Has(page, e) || (truncated && Before(page[|page| - 1], e)))
  }

  /** An entry of a sorted sequence is in a prefix of it or after its last. */
  lemma InPrefix(entries: seq<Entry>, page: seq<Entry>, e: Entry)
    requires Sorted(entries) && page <= entries && page != [] && Has(entries, e)
    ensures Has(page, e) || (|page| < |entries| && Before(page[|page| - 1], e))
  {
    var i :| 0 <= i < |entries| && Same(entries[i], e);
    if i < |page| {
      assert Same(page[i], e);
    } else {
      assert Before(entries[|page| - 1], entries[i]);
    }
  }

  /** The entries a node has to show: under the prefix, after the start. */
  function Matching(node: Node, prefix: Option<Key>, start: Option<Key>): seq<Entry> {
    Retain(EntriesOn(node.devices, prefix), start)
  }

  /** What one node has to show and how much of it is on its page. */
  datatype View = View(entries: seq<Entry>, length: nat) {
    function Page(): seq<Entry> { if length <= |entries| then entries[..length] else entries }

    predicate More() { length < |entries| }
  }

  function ViewOf(node: Node, prefix: Option<Key>, start: Option<Key>, limit: Option<nat>): View {
    View(Matching(node, prefix, start), PageLength(Matching(node, prefix, start), limit))
  }

  lemma MatchingAre(node: Node, prefix: Option<Key>, start: Option<Key>)
    ensures Sorted(Matching(node, prefix, start))
    ensures forall e <- Matching(node, prefix, start) :: Holds(node, e) && Matches(e, prefix, start)
    ensures forall e :: Holds(node, e) && Matches(e, prefix, start) ==> Has(Matching(node, prefix, start), e)
  {
    NodeEntriesAre(node, prefix);
    RetainSorted(EntriesOn(node.devices, prefix), start);
    forall e | Holds(node, e) && Matches(e, prefix, start) ensures Has(Matching(node, prefix, start), e) {
      HasRetained(EntriesOn(node.devices, prefix), start, e);
    }
  }

  /** The device did not contribute: its node cannot read it, or is itself out
      of reach. */
  ghost predicate UnreadOn(n: Node, d: nat) {
    exists x :: x in n.devices && x.id == d && (n.reachable ==> x.entries.None?)
  }

  /** `local_list`. */
  method LocalList(node: Node, prefix: Option<Key>, start: Option<Key>, limit: Option<nat>)
    returns (page: seq<Entry>, truncated: bool, unread: seq<nat>)
    ensures page == ViewOf(node, prefix, start, limit).Page() && (truncated <==> ViewOf(node, prefix, start, limit).More())
    ensures NodePage(node, prefix, start, page, truncated)
    ensures limit.Some? ==> |page| <= (if limit.value == 0 then 1 else limit.value)
    ensures unread == UnreadHere(node.devices)
  {
    var collected;
    collected, unread := Collect(node, prefix);
    var entries := Retain(collected, start);
    RetainSorted(collected, start);
    page, truncated := PageOfKeys(entries, limit);
    PageOfNode(node, prefix, start, collected, entries, page, truncated);
  }

  lemma PageOfNode(node: Node, prefix: Option<Key>, start: Option<Key>, collected: seq<Entry>, entries: seq<Entry>,
                   page: seq<Entry>, truncated: bool)
    requires forall e <- collected :: Holds(node, e) && HasPrefix(e.key, prefix)
    requires forall e :: Holds(node, e) && HasPrefix(e.key, prefix) ==> Has(collected, e)
    requires entries == Retain(collected, start) && Sorted(entries) && page <= entries
    requires (truncated <==> |page| < |entries|) && (entries != [] ==> page != [])
    ensures NodePage(node, prefix, start, page, truncated)
  {
    forall e | e in page ensures Holds(node, e) && Matches(e, prefix, start) {
      assert e in entries;
    }
    forall e | Holds(node, e) && Matches(e, prefix, start)
      ensures Has(page, e) || (truncated && Before(page[|page| - 1], e))
    {
      HasRetained(collected, start, e);
      InPrefix(entries, page, e);
    }
  }

  lemma HasRetained(collected: seq<Entry>, start: Option<Key>, e: Entry)
    requires Has(collected, e) && After(e.key, start)
    ensures Has(Retain(collected, start), e) && Retain(collected, start) != []
  {
    var i :| 0 <= i < |collected| && Same(collected[i], e);
    var entries := Retain(collected, start);
    assert collected[i] in entries;
    var j :| 0 <= j < |entries| && entries[j] == collected[i];
    assert Same(entries[j], e);
  }
}
