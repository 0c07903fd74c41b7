/** Listing keys, the cluster: the coordinator's merged page
    (crates/djbod-node/src/coordinator.rs:994-1065) and the client's walk over
    pages (crates/djbod-client/src/client.rs:183-192, 458-486). */
module MergedListing {
  import opened Prelude
  import opened ByteOrder
  import opened Listing

  // -------------------------------------------------------- the merged page

  ghost predicate KeySorted(s: seq<Entry>) {
    forall i, j :: 0 <= i < j < |s| ==> Less(s[i].key, s[j].key)
  }

  /** An entry of this key, at least as new. */
  ghost predicate AtLeast(s: seq<Entry>, e: Entry) {
    exists i :: 0 <= i < |s| && s[i].key == e.key && s[i].version >= e.version
  }

  /** The map of newest entries, kept in key order: insert, or replace an older
      entry of the same key. */
  function Upsert(s: seq<Entry>, e: Entry): seq<Entry> {
    if s == [] then [e]
    else if Less(e.key, s[0].key) then [e] + s
    else if e.key == s[0].key then (if s[0].version >= e.version then s else [e] + s[1..])
    else [s[0]] + Upsert(s[1..], e)
  }

  lemma {:induction false} UpsertMembers(s: seq<Entry>, e: Entry)
    ensures forall x <- Upsert(s, e) :: x in s || x == e
    ensures AtLeast(Upsert(s, e), e)
  {
    if s == [] {
      assert [e][0] == e;
    } else if Less(e.key, s[0].key) {
      assert ([e] + s)[0] == e;
    } else if e.key == s[0].key {
      assert Upsert(s, e)[0].key == e.key;
    } else {
      UpsertMembers(s[1..], e);
      var i :| 0 <= i < |Upsert(s[1..], e)| && Upsert(s[1..], e)[i].key == e.key && Upsert(s[1..], e)[i].version >= e.version;
      assert Upsert(s, e)[i + 1] == Upsert(s[1..], e)[i];
      assert s == [s[0]] + s[1..];
    }
  }

  lemma {:induction false} UpsertKeeps(s: seq<Entry>, e: Entry, x: Entry)
    requires AtLeast(s, x)
    ensures AtLeast(Upsert(s, e), x)
  {
    var i :| 0 <= i < |s| && s[i].key == x.key && s[i].version >= x.version;
    if Less(e.key, s[0].key) {
      assert Upsert(s, e)[i + 1] == s[i];
    } else if e.key == s[0].key {
      assert i > 0 && s[0].version < e.version ==> Upsert(s, e)[i] == s[i];
      assert Upsert(s, e)[0].version >= s[0].version && Upsert(s, e)[0].key == s[0].key;
      assert Upsert(s, e)[i].key == x.key;
    } else if i > 0 {
      assert s[1..][i - 1] == s[i];
      UpsertKeeps(s[1..], e, x);
      var j :| 0 <= j < |Upsert(s[1..], e)| && Upsert(s[1..], e)[j].key == x.key && Upsert(s[1..], e)[j].version >= x.version;
      assert Upsert(s, e)[j + 1] == Upsert(s[1..], e)[j];
    } else {
      assert Upsert(s, e)[0] == s[0];
    }
  }

  lemma {:induction false} UpsertSorted(s: seq<Entry>, e: Entry)
    requires KeySorted(s)
    ensures KeySorted(Upsert(s, e))
  {
    if s != [] {
      if Less(e.key, s[0].key) {
        forall j | 0 <= j < |s| ensures Less(e.key, s[j].key) {
          if j > 0 {
            Transitive(e.key, s[0].key, s[j].key);
          }
        }
      } else if e.key != s[0].key {
        Total(e.key, s[0].key);
        UpsertSorted(s[1..], e);
        UpsertMembers(s[1..], e);
        var rest := Upsert(s[1..], e);
        forall j | 0 <= j < |rest| ensures Less(s[0].key, rest[j].key) {
          assert rest[j] in rest;
          if rest[j] != e {
            var n :| 0 <= n < |s[1..]| && s[1..][n] == rest[j];
            assert s[n + 1] == rest[j];
          }
        }
      }
    }
  }

  /** One node's page into the map. */
  method MergePage(newest0: seq<Entry>, page: seq<Entry>) returns (newest: seq<Entry>)
    requires KeySorted(newest0)
    ensures KeySorted(newest) && forall x <- newest :: x in newest0 || x in page
    ensures forall x :: AtLeast(newest0, x) ==> AtLeast(newest, x)
    ensures forall x <- page :: AtLeast(newest, x)
  {
    newest := newest0;
    for n := 0 to |page|
      invariant KeySorted(newest) && forall x <- newest :: x in newest0 || x in page
      invariant forall x :: AtLeast(newest0, x) ==> AtLeast(newest, x)
      invariant forall j :: 0 <= j < n ==> AtLeast(newest, page[j])
    {
      UpsertSorted(newest, page[n]);
      UpsertMembers(newest, page[n]);
      forall x | AtLeast(newest, x) ensures AtLeast(Upsert(newest, page[n]), x) {
        UpsertKeeps(newest, page[n], x);
      }
      newest := Upsert(newest, page[n]);
    }
  }

  /** The entry is on some device that was read. */
  ghost predicate Seen(nodes: seq<Node>, e: Entry) {
    exists n :: n in nodes && n.reachable && Holds(n, e)
  }

  /** The views of the nodes in reach. */
  ghost function ViewsOf(nodes: seq<Node>, prefix: Option<Key>, start: Option<Key>, limit: Option<nat>): set<View> {
    set n | n in nodes && n.reachable :: ViewOf(n, prefix, start, limit)
  }

  /** The views show what was seen, in order, none of them an empty page of
      something. */
  ghost predicate Shows(views: set<View>, nodes: seq<Node>, prefix: Option<Key>, start: Option<Key>) {
    && (forall v <- views :: Sorted(v.entries) && v.length <= |v.entries| && (v.entries != [] ==> v.length > 0))
    && (forall v <- views :: forall e <- v.entries :: Seen(nodes, e) && Matches(e, prefix, start))
    && (forall e :: Seen(nodes, e) && Matches(e, prefix, start) ==> exists v :: v in views && Has(v.entries, e))
  }

  lemma ViewsShow(nodes: seq<Node>, prefix: Option<Key>, start: Option<Key>, limit: Option<nat>)
    ensures Shows(ViewsOf(nodes, prefix, start, limit), nodes, prefix, start)
  {
    var views := ViewsOf(nodes, prefix, start, limit);
    forall v | v in views
      ensures Sorted(v.entries) && v.length <= |v.entries| && (v.entries != [] ==> v.length > 0)
      ensures forall e <- v.entries :: Seen(nodes, e) && Matches(e, prefix, start)
    {
      var n :| n in nodes && n.reachable && v == ViewOf(n, prefix, start, limit);
      MatchingAre(n, prefix, start);
    }
    forall e | Seen(nodes, e) && Matches(e, prefix, start) ensures exists v :: v in views && Has(v.entries, e) {
      var n :| n in nodes && n.reachable && Holds(n, e);
      MatchingAre(n, prefix, start);
      assert ViewOf(n, prefix, start, limit) in views;
    }
  }

  /** The entry is on some page. */
  ghost predicate OnPages(views: set<View>, e: Entry) {
    exists v :: v in views && e in v.Page()
  }

  /** What is known of one node's entries once its page is merged: those on the
      page are covered, and the horizon is not past the page if there is more. */
  ghost predicate Merged(v: View, newest: seq<Entry>, horizon: Option<Key>) {
    && (forall e <- v.Page() :: AtLeast(newest, e))
    && (v.More() ==> v.length > 0 && horizon.Some? && AtMost(horizon.value, v.entries[v.length - 1].key))
  }

  /** The horizon only comes closer, and the map only grows. */
  lemma MergedStill(v: View, newest: seq<Entry>, horizon: Option<Key>, newer: seq<Entry>, closer: Option<Key>)
    requires Merged(v, newest, horizon)
    requires forall x :: AtLeast(newest, x) ==> AtLeast(newer, x)
    requires horizon.Some? ==> closer.Some? && AtMost(closer.value, horizon.value)
    ensures Merged(v, newer, closer)
  {
    if v.More() {
      var last := v.entries[v.length - 1].key;
      if closer.value != horizon.value && horizon.value != last {
        Transitive(closer.value, horizon.value, last);
      }
    }
  }

  /** Every entry of a merged node is covered, or its key is not below the
      horizon. */
  lemma MergedCovers(v: View, newest: seq<Entry>, horizon: Option<Key>, e: Entry)
    requires Merged(v, newest, horizon) && Sorted(v.entries) && v.length <= |v.entries| && Has(v.entries, e)
    ensures AtLeast(newest, e) || (horizon.Some? && AtMost(horizon.value, e.key))
  {
    var i :| 0 <= i < |v.entries| && Same(v.entries[i], e);
    if i < v.length {
      assert v.Page()[i] in v.Page() && AtLeast(newest, v.Page()[i]);
    } else {
      var last := v.entries[v.length - 1];
      assert Before(last, v.entries[i]);
      if horizon.value != last.key && last.key != e.key {
        Transitive(horizon.value, last.key, e.key);
      }
    }
  }

  ghost predicate AllMerged(views: set<View>, newest: seq<Entry>, horizon: Option<Key>) {
    forall v <- views :: Merged(v, newest, horizon)
  }

  /** The node's page has more to follow and ends with this key. */
  ghost predicate LastIs(v: View, key: Key) {
    v.More() && 0 < v.length <= |v.entries| && v.entries[v.length - 1].key == key
  }

  ghost predicate EndsAt(views: set<View>, key: Key) {
    exists v :: v in views && LastIs(v, key)
  }

  /** Is there more than the page lists: on a node, or a key after the last? */
  ghost predicate MoreToCome(views: set<View>, nodes: seq<Node>, prefix: Option<Key>, start: Option<Key>, page: seq<Entry>) {
    || (exists v :: v in views && v.More())
    || (page != [] && exists e :: Seen(nodes, e) && Matches(e, prefix, start) && Less(page[|page| - 1].key, e.key))
  }

  /** Why a page ends where it does: it is full by count, or by bytes, or a node's
      own page ends there. */
  ghost predicate EndsFor(views: set<View>, limit: Option<nat>, page: seq<Entry>) {
    || (limit.Some? && |page| >= limit.value)
    || (exists e :: OnPages(views, e) && KeyBytes(page) + |e.key| > MAX_LIST_PAGE_BYTES)
    || (page != [] && EndsAt(views, page[|page| - 1].key))
  }

  /** The devices that did not contribute: those of nodes out of reach and
      those their node cannot read. */
  ghost predicate UnreadDevice(nodes: seq<Node>, d: nat) {
    exists n :: n in nodes && UnreadOn(n, d)
  }

  function Ids(devices: seq<Device>): seq<nat> {
    seq(|devices|, i requires 0 <= i < |devices| => devices[i].id)
  }

  lemma IdsMembers(devices: seq<Device>, d: nat)
    ensures d in Ids(devices) <==> exists x :: x in devices && x.id == d
  {
    if x :| x in devices && x.id == d {
      var i :| 0 <= i < |devices| && devices[i] == x;
      assert Ids(devices)[i] == d;
    }
  }

  /** The devices that did not contribute, node by node. */
  function UnreadList(nodes: seq<Node>): seq<nat> {
    if nodes == [] then []
    else
      var before, last := UnreadList(nodes[..|nodes| - 1]), nodes[|nodes| - 1];
      before + if last.reachable then UnreadHere(last.devices) else Ids(last.devices)
  }

  lemma {:induction false} UnreadListed(nodes: seq<Node>, d: nat)
    ensures UnreadDevice(nodes, d) <==> d in UnreadList(nodes)
  {
    if nodes != [] {
      var before, last := nodes[..|nodes| - 1], nodes[|nodes| - 1];
      assert nodes == before + [last];
      UnreadListed(before, d);
      IdsMembers(last.devices, d);
      assert UnreadOn(last, d) <==> d in (if last.reachable then UnreadHere(last.devices) else Ids(last.devices));
    }
  }

  /** No device is listed twice, by one node or by two, as in a valid document. */
  ghost predicate OneOwnerEach(nodes: seq<Node>) {
    && (forall n <- nodes :: Distinct(Ids(n.devices)))
    && (forall i, j, d :: 0 <= i < j < |nodes| && d in Ids(nodes[i].devices) ==> d !in Ids(nodes[j].devices))
  }

  lemma {:induction false} UnreadHereOnce(devices: seq<Device>)
    requires Distinct(Ids(devices))
    ensures Distinct(UnreadHere(devices))
  {
    if devices != [] {
      var before, last := devices[..|devices| - 1], devices[|devices| - 1];
      assert Ids(devices) == Ids(before) + [last.id];
      DistinctSnoc(Ids(before), last.id);
      UnreadHereOnce(before);
      IdsMembers(before, last.id);
      DistinctSnoc(UnreadHere(before), last.id);
    }
  }

  /** Then each device that did not contribute is named once. */
  lemma {:induction false} UnreadOnce(nodes: seq<Node>)
    requires OneOwnerEach(nodes)
    ensures Distinct(UnreadList(nodes))
  {
    if nodes != [] {
      var before, last := nodes[..|nodes| - 1], nodes[|nodes| - 1];
      assert nodes == before + [last];
      UnreadOnce(before);
      UnreadHereOnce(last.devices);
      forall d | d in UnreadList(before) ensures d !in Ids(last.devices) {
        UnreadListed(before, d);
        var n, x :| n in before && x in n.devices && x.id == d;
        var i :| 0 <= i < |before| && before[i] == n;
        IdsMembers(n.devices, d);
        assert nodes[i] == n;
      }
      var here := if last.reachable then UnreadHere(last.devices) else Ids(last.devices);
      forall d | d in here ensures d in Ids(last.devices) {
        IdsMembers(last.devices, d);
      }
      DistinctJoin(UnreadList(before), here);
    }
  }

  lemma DistinctJoin(a: seq<nat>, b: seq<nat>)
    requires Distinct(a) && Distinct(b) && forall d <- a :: d !in b
    ensures Distinct(a + b)
  {
    forall i, j | 0 <= i < j < |a + b| ensures (a + b)[i] != (a + b)[j] {
      if i < |a| && |a| <= j {
        assert a[i] in a && b[j - |a|] in b;
      }
    }
  }

  /** The pages of all nodes merged, and the smallest last key of any that had
      more. */
  method MergePages(nodes: seq<Node>, prefix: Option<Key>, start: Option<Key>, limit: Option<nat>)
    returns (newest: seq<Entry>, horizon: Option<Key>, unread: seq<nat>)
    ensures KeySorted(newest) && forall x <- newest :: OnPages(ViewsOf(nodes, prefix, start, limit), x)
    ensures horizon.Some? ==> HasKey(newest, horizon.value)
    ensures AllMerged(ViewsOf(nodes, prefix, start, limit), newest, horizon)
    ensures horizon.Some? ==> EndsAt(ViewsOf(nodes, prefix, start, limit), horizon.value)
    ensures unread == UnreadList(nodes)
  {
    newest, horizon, unread := [], None, [];
    ghost var views: set<View> := {};
    for n := 0 to |nodes|
      invariant views == ViewsOf(nodes[..n], prefix, start, limit)
      invariant KeySorted(newest) && forall x <- newest :: OnPages(views, x)
      invariant horizon.Some? ==> HasKey(newest, horizon.value)
      invariant AllMerged(views, newest, horizon) && (horizon.Some? ==> EndsAt(views, horizon.value))
      invariant unread == UnreadList(nodes[..n])
    {
      assert nodes[..n + 1][..n] == nodes[..n];
      ViewsNext(nodes, n, prefix, start, limit);
      if !nodes[n].reachable {
        unread := unread + Ids(nodes[n].devices);
      } else {
        var page, truncated, here := LocalList(nodes[n], prefix, start, limit);
        unread := unread + here;
        newest, horizon := MergeNode(views, ViewOf(nodes[n], prefix, start, limit), page, truncated, newest, horizon);
        views := views + {ViewOf(nodes[n], prefix, start, limit)};
      }
    }
    assert nodes[..|nodes|] == nodes;
  }

  lemma ViewsNext(nodes: seq<Node>, n: nat, prefix: Option<Key>, start: Option<Key>, limit: Option<nat>)
    requires n < |nodes|
    ensures ViewsOf(nodes[..n + 1], prefix, start, limit) ==
              ViewsOf(nodes[..n], prefix, start, limit) + if nodes[n].reachable then {ViewOf(nodes[n], prefix, start, limit)} else {}
  {
    assert nodes[..n + 1] == nodes[..n] + [nodes[n]];
  }

  /** One reachable node's answer. */
  method MergeNode(ghost views: set<View>, ghost v: View, page: seq<Entry>, truncated: bool, newest0: seq<Entry>,
                   horizon0: Option<Key>)
    returns (newest: seq<Entry>, horizon: Option<Key>)
    requires page == v.Page() && (truncated <==> v.More()) && (truncated ==> page != [])
    requires KeySorted(newest0) && forall x <- newest0 :: OnPages(views, x)
    requires horizon0.Some? ==> HasKey(newest0, horizon0.value)
    requires AllMerged(views, newest0, horizon0) && (horizon0.Some? ==> EndsAt(views, horizon0.value))
    ensures KeySorted(newest) && forall x <- newest :: OnPages(views + {v}, x)
    ensures horizon.Some? ==> HasKey(newest, horizon.value)
    ensures AllMerged(views + {v}, newest, horizon) && (horizon.Some? ==> EndsAt(views + {v}, horizon.value))
  {
    horizon := horizon0;
    if truncated {
      var last := page[|page| - 1].key;
      if horizon.None? || Less(last, horizon.value) {
        horizon := Some(last);
      }
      Total(horizon.value, last);
      assert v in views + {v};
    }
    if horizon0.Some? {
      EndsAtStill(views, v, horizon0.value);
    }
    newest := MergePage(newest0, page);
    HorizonHeld(page, newest0, newest, horizon0, horizon);
    forall w | w in views ensures Merged(w, newest, horizon) {
      MergedStill(w, newest0, horizon0, newest, horizon);
    }
    forall x | x in newest ensures OnPages(views + {v}, x) {
      if x in newest0 {
        var w :| w in views && x in w.Page();
        assert w in views + {v};
      } else {
        assert v in views + {v};
      }
    }
  }

  lemma EndsAtStill(views: set<View>, v: View, key: Key)
    requires EndsAt(views, key)
    ensures EndsAt(views + {v}, key)
  {
    var w :| w in views && LastIs(w, key);
    assert w in views + {v};
  }

  lemma HorizonHeld(page: seq<Entry>, newest0: seq<Entry>, newest: seq<Entry>, horizon0: Option<Key>, horizon: Option<Key>)
    requires forall x :: AtLeast(newest0, x) ==> AtLeast(newest, x)
    requires forall x <- page :: AtLeast(newest, x)
    requires horizon0.Some? ==> HasKey(newest0, horizon0.value)
    requires horizon == horizon0 || (page != [] && horizon == Some(page[|page| - 1].key))
    ensures horizon.Some? ==> HasKey(newest, horizon.value)
  {
    if horizon.Some? {
      if horizon == horizon0 {
        var i :| 0 <= i < |newest0| && newest0[i].key == horizon.value;
        assert AtLeast(newest0, newest0[i]);
        assert AtLeast(newest, newest0[i]);
      } else {
        assert page[|page| - 1] in page;
        assert AtLeast(newest, page[|page| - 1]);
      }
    }
  }

  function UpTo(entries: seq<Entry>, horizon: Key): (r: seq<Entry>)
    ensures forall e :: e in r <==> e in entries && AtMost(e.key, horizon)
  {
    if entries == [] then []
    else
      assert entries == [entries[0]] + entries[1..];
      if AtMost(entries[0].key, horizon) then [entries[0]] + UpTo(entries[1..], horizon) else UpTo(entries[1..], horizon)
  }

  lemma {:induction false} UpToSorted(entries: seq<Entry>, horizon: Key)
    requires KeySorted(entries)
    ensures KeySorted(UpTo(entries, horizon))
  {
    if entries != [] {
      UpToSorted(entries[1..], horizon);
      forall e | e in UpTo(entries[1..], horizon) ensures Less(entries[0].key, e.key) {
        var n :| 0 <= n < |entries[1..]| && entries[1..][n] == e;
        assert entries[n + 1] == e;
      }
    }
  }

  /** A page of the merged listing: keys in order, each once, and every key that
      was seen and matches is on it, or comes after its last key and the page
      says there is more. Each entry is the newest of its key on the nodes'
      pages, and none is past a page that has more. */
  ghost predicate ListPage(nodes: seq<Node>, prefix: Option<Key>, start: Option<Key>, limit: Option<nat>, page: seq<Entry>,
                           truncated: bool) {
    && KeySorted(page) && (forall e <- page :: Seen(nodes, e) && Matches(e, prefix, start))
    && (truncated ==> page != [])
    && (forall e :: Seen(nodes, e) && Matches(e, prefix, start) ==> OnOrAfter(page, truncated, e.key))
    && (forall x <- page :: NewestOnPages(ViewsOf(nodes, prefix, start, limit), x))
  }

  ghost predicate NewestOnPages(views: set<View>, x: Entry) {
    && OnPages(views, x)
    && (forall y :: OnPages(views, y) && y.key == x.key ==> y.version <= x.version)
    && (forall v <- views :: v.More() ==> v.length > 0 && AtMost(x.key, v.entries[v.length - 1].key))
  }

  /** What is left of the map once it is cut at the horizon. */
  ghost predicate Kept(newest: seq<Entry>, keys: seq<Entry>, horizon: Option<Key>) {
    && KeySorted(keys) && (forall e <- keys :: e in newest)
    && (horizon.Some? ==> HasKey(keys, horizon.value) && forall e <- keys :: AtMost(e.key, horizon.value))
    && (forall e <- newest :: horizon.None? || AtMost(e.key, horizon.value) ==> e in keys)
  }

  method KeepToHorizon(newest: seq<Entry>, horizon: Option<Key>) returns (keys: seq<Entry>)
    requires KeySorted(newest) && (horizon.Some? ==> HasKey(newest, horizon.value))
    ensures Kept(newest, keys, horizon)
  {
    keys := newest;
    if horizon.Some? {
      UpToSorted(newest, horizon.value);
      keys := UpTo(newest, horizon.value);
      ghost var h :| 0 <= h < |newest| && newest[h].key == horizon.value;
      assert newest[h] in keys;
      ghost var j :| 0 <= j < |keys| && keys[j] == newest[h];
      assert keys[j].key == horizon.value;
    }
  }

  /** An entry of a key-sorted sequence is on a prefix of it, or comes after the
      prefix's last key. */
  lemma OnPage(keys: seq<Entry>, page: seq<Entry>, x: Entry)
    requires KeySorted(keys) && page <= keys && (keys != [] ==> page != []) && x in keys
    ensures page != [] && (x in page || (|page| < |keys| && Less(page[|page| - 1].key, x.key)))
  {
    var i :| 0 <= i < |keys| && keys[i] == x;
    if i < |page| {
      assert page[i] == x;
    }
  }

  lemma BeyondHorizon(keys: seq<Entry>, page: seq<Entry>, horizon: Key, key: Key)
    requires page <= keys && page != [] && (forall e <- keys :: AtMost(e.key, horizon)) && Less(horizon, key)
    ensures Less(page[|page| - 1].key, key)
  {
    var last := page[|page| - 1];
    assert last == keys[|page| - 1] && last in keys;
    if last.key != horizon {
      Transitive(last.key, horizon, key);
    }
  }

  ghost predicate OnOrAfter(page: seq<Entry>, more: bool, key: Key) {
    HasKey(page, key) || (page != [] && more && Less(page[|page| - 1].key, key))
  }

  /** Cutting at the horizon and at the page's end loses no key that cannot be
      asked for again. */
  lemma CutLosesNothing(newest: seq<Entry>, keys: seq<Entry>, page: seq<Entry>, horizon: Option<Key>, e: Entry)
    requires Kept(newest, keys, horizon) && page <= keys && (keys != [] ==> page != [])
    requires AtLeast(newest, e) || (horizon.Some? && AtMost(horizon.value, e.key))
    ensures OnOrAfter(page, horizon.Some? || |page| < |keys|, e.key)
  {
    if horizon.Some? && Less(horizon.value, e.key) {
      BeyondHorizon(keys, page, horizon.value, e.key);
    } else if horizon == Some(e.key) {
      var i :| 0 <= i < |keys| && keys[i].key == e.key;
      assert keys[i] in keys;
      CoveredOnPage(keys, page, keys[i]);
    } else {
      var i :| 0 <= i < |newest| && newest[i].key == e.key && newest[i].version >= e.version;
      if horizon.Some? {
        Total(e.key, horizon.value);
      }
      assert newest[i] in newest;
      CoveredOnPage(keys, page, newest[i]);
    }
  }

  lemma CoveredOnPage(keys: seq<Entry>, page: seq<Entry>, x: Entry)
    requires KeySorted(keys) && page <= keys && (keys != [] ==> page != []) && x in keys
    ensures OnOrAfter(page, |page| < |keys|, x.key)
  {
    OnPage(keys, page, x);
    if x in page {
      var i :| 0 <= i < |page| && page[i] == x;
      assert page[i].key == x.key;
    }
  }

  /** `list_keys`: one page of the cluster's keys from one page of each node.
      The entry listed for a key is the newest version seen, if and only if no
      node's page ends inside the key and leaves out a version newer than all
      that are on a page. */
  method ListKeys(nodes: seq<Node>, prefix: Option<Key>, start: Option<Key>, limit: Option<nat>, total: nat)
    returns (page: seq<Entry>, truncated: bool, unread: seq<nat>, complete: bool)
    ensures ListPage(nodes, prefix, start, limit, page, truncated)
    ensures forall x <- page :: NewestSeen(nodes, x) <==> !CutOff(ViewsOf(nodes, prefix, start, limit), x.key)
    ensures limit.Some? ==> |page| <= (if limit.value == 0 then 1 else limit.value)
    ensures forall d :: UnreadDevice(nodes, d) <==> d in unread
    ensures complete <==> |unread| < total
    ensures unread == UnreadList(nodes) && (OneOwnerEach(nodes) ==> Distinct(unread))
    ensures truncated <==> MoreToCome(ViewsOf(nodes, prefix, start, limit), nodes, prefix, start, page)
    ensures truncated ==> EndsFor(ViewsOf(nodes, prefix, start, limit), limit, page)
  {
    ghost var views := ViewsOf(nodes, prefix, start, limit);
    ViewsShow(nodes, prefix, start, limit);
    var newest, horizon;
    newest, horizon, unread := MergePages(nodes, prefix, start, limit);
    var keys := KeepToHorizon(newest, horizon);
    var cut;
    page, cut := PageOfKeys(keys, limit);
    truncated := cut || horizon.Some?;
    complete := |unread| < total;
    UnreadIs(nodes);
    PrefixSorted(keys, page);
    PageEntries(views, nodes, prefix, start, newest, keys, page, horizon);
    PageCoversAll(views, nodes, prefix, start, newest, keys, page, horizon);
    PageEnds(views, nodes, prefix, start, limit, newest, keys, page, horizon);
    forall x | x in page ensures NewestSeen(nodes, x) <==> !CutOff(views, x.key) {
      NewestUnlessCutOff(views, nodes, prefix, start, x);
    }
  }

  lemma PageEnds(views: set<View>, nodes: seq<Node>, prefix: Option<Key>, start: Option<Key>, limit: Option<nat>,
                 newest: seq<Entry>, keys: seq<Entry>, page: seq<Entry>, horizon: Option<Key>)
    requires Shows(views, nodes, prefix, start) && AllMerged(views, newest, horizon) && (forall x <- newest :: OnPages(views, x))
    requires horizon.Some? ==> EndsAt(views, horizon.value)
    requires Kept(newest, keys, horizon) && page <= keys && KeySorted(page) && (keys != [] ==> page != [])
    requires |page| < |keys| ==>
               (limit.Some? && |page| >= limit.value) || KeyBytes(page) + |keys[|page|].key| > MAX_LIST_PAGE_BYTES
    requires forall e :: Seen(nodes, e) && Matches(e, prefix, start) ==> OnOrAfter(page, |page| < |keys| || horizon.Some?, e.key)
    ensures |page| < |keys| || horizon.Some? <==> MoreToCome(views, nodes, prefix, start, page)
    ensures |page| < |keys| || horizon.Some? ==> EndsFor(views, limit, page)
  {
    if |page| < |keys| {
      PageCut(views, nodes, prefix, start, limit, newest, keys, page);
    } else if horizon.Some? {
      assert page == keys;
      LastIsHorizon(keys, horizon.value);
    } else {
      NothingLeft(views, nodes, prefix, start, newest, page);
    }
  }

  /** A page cut short: the next key is still to come. */
  lemma PageCut(views: set<View>, nodes: seq<Node>, prefix: Option<Key>, start: Option<Key>, limit: Option<nat>,
                newest: seq<Entry>, keys: seq<Entry>, page: seq<Entry>)
    requires Shows(views, nodes, prefix, start) && (forall x <- newest :: OnPages(views, x)) && (forall e <- keys :: e in newest)
    requires KeySorted(keys) && page <= keys && page != [] && |page| < |keys|
    requires (limit.Some? && |page| >= limit.value) || KeyBytes(page) + |keys[|page|].key| > MAX_LIST_PAGE_BYTES
    ensures MoreToCome(views, nodes, prefix, start, page) && EndsFor(views, limit, page)
  {
    var next := keys[|page|];
    assert next in keys && OnPages(views, next);
    OnPagesSeen(views, nodes, prefix, start, next);
    assert page[|page| - 1] == keys[|page| - 1];
  }

  lemma NothingLeft(views: set<View>, nodes: seq<Node>, prefix: Option<Key>, start: Option<Key>, newest: seq<Entry>,
                    page: seq<Entry>)
    requires AllMerged(views, newest, None) && KeySorted(page)
    requires forall e :: Seen(nodes, e) && Matches(e, prefix, start) ==> OnOrAfter(page, false, e.key)
    ensures !MoreToCome(views, nodes, prefix, start, page)
  {
    forall v | v in views ensures !v.More() {
      assert Merged(v, newest, None);
    }
    if page != [] {
      forall e | Seen(nodes, e) && Matches(e, prefix, start) ensures !Less(page[|page| - 1].key, e.key) {
        assert OnOrAfter(page, false, e.key);
        var i :| 0 <= i < |page| && page[i].key == e.key;
        assert [] + page == page && page[i] in [] + page;
        LastIsLast([], page, page[i]);
      }
    }
  }

  lemma LastIsHorizon(keys: seq<Entry>, horizon: Key)
    requires KeySorted(keys) && HasKey(keys, horizon) && forall e <- keys :: AtMost(e.key, horizon)
    ensures keys != [] && keys[|keys| - 1].key == horizon
  {
    var i :| 0 <= i < |keys| && keys[i].key == horizon;
    assert keys[|keys| - 1] in keys;
    if i < |keys| - 1 {
      assert Less(horizon, keys[|keys| - 1].key);
      Asymmetric(horizon, keys[|keys| - 1].key);
    }
  }

  lemma UnreadIs(nodes: seq<Node>)
    ensures forall d :: UnreadDevice(nodes, d) <==> d in UnreadList(nodes)
    ensures OneOwnerEach(nodes) ==> Distinct(UnreadList(nodes))
  {
    forall d { UnreadListed(nodes, d); }
    if OneOwnerEach(nodes) {
      UnreadOnce(nodes);
    }
  }

  lemma OnPagesSeen(views: set<View>, nodes: seq<Node>, prefix: Option<Key>, start: Option<Key>, e: Entry)
    requires Shows(views, nodes, prefix, start) && OnPages(views, e)
    ensures Seen(nodes, e) && Matches(e, prefix, start)
  {
    var v :| v in views && e in v.Page();
    assert e in v.entries;
  }

  lemma PageEntries(views: set<View>, nodes: seq<Node>, prefix: Option<Key>, start: Option<Key>, newest: seq<Entry>,
                    keys: seq<Entry>, page: seq<Entry>, horizon: Option<Key>)
    requires Shows(views, nodes, prefix, start)
    requires KeySorted(newest) && (forall x <- newest :: OnPages(views, x)) && AllMerged(views, newest, horizon)
    requires Kept(newest, keys, horizon) && page <= keys
    ensures forall e <- page :: Seen(nodes, e) && Matches(e, prefix, start) && NewestOnPages(views, e)
  {
    forall e | e in page ensures Seen(nodes, e) && Matches(e, prefix, start) && NewestOnPages(views, e) {
      assert e in keys && e in newest;
      OnPagesSeen(views, nodes, prefix, start, e);
      NewestMerged(views, newest, keys, horizon, e);
    }
  }

  lemma PageCovers(views: set<View>, newest: seq<Entry>, keys: seq<Entry>, page: seq<Entry>, horizon: Option<Key>, v: View, e: Entry)
    requires v in views && Sorted(v.entries) && v.length <= |v.entries| && Has(v.entries, e) && AllMerged(views, newest, horizon)
    requires Kept(newest, keys, horizon) && page <= keys && (keys != [] ==> page != [])
    ensures OnOrAfter(page, |page| < |keys| || horizon.Some?, e.key)
  {
    MergedCovers(v, newest, horizon, e);
    CutLosesNothing(newest, keys, page, horizon, e);
  }

  lemma PageCoversAll(views: set<View>, nodes: seq<Node>, prefix: Option<Key>, start: Option<Key>, newest: seq<Entry>,
                      keys: seq<Entry>, page: seq<Entry>, horizon: Option<Key>)
    requires Shows(views, nodes, prefix, start) && AllMerged(views, newest, horizon)
    requires Kept(newest, keys, horizon) && page <= keys && (keys != [] ==> page != [])
    ensures forall e :: Seen(nodes, e) && Matches(e, prefix, start) ==>
              OnOrAfter(page, |page| < |keys| || horizon.Some?, e.key)
  {
    forall e | Seen(nodes, e) && Matches(e, prefix, start)
      ensures OnOrAfter(page, |page| < |keys| || horizon.Some?, e.key)
    {
      var v :| v in views && Has(v.entries, e);
      PageCovers(views, newest, keys, page, horizon, v, e);
    }
  }

  lemma PrefixSorted(keys: seq<Entry>, page: seq<Entry>)
    requires KeySorted(keys) && page <= keys
    ensures KeySorted(page)
  {
    forall i, j | 0 <= i < j < |page| ensures Less(page[i].key, page[j].key) {
      assert page[i] == keys[i] && page[j] == keys[j];
    }
  }

  /** One entry a key: the newest of those on the pages. */
  lemma OneEntryAKey(newest: seq<Entry>, x: Entry, y: Entry)
    requires KeySorted(newest) && x in newest && AtLeast(newest, y) && x.key == y.key
    ensures y.version <= x.version
  {
    var i :| 0 <= i < |newest| && newest[i] == x;
    var j :| 0 <= j < |newest| && newest[j].key == y.key && newest[j].version >= y.version;
    Irreflexive(x.key);
  }

  lemma NewestMerged(views: set<View>, newest: seq<Entry>, keys: seq<Entry>, horizon: Option<Key>, x: Entry)
    requires KeySorted(newest) && (forall y <- newest :: OnPages(views, y)) && AllMerged(views, newest, horizon)
    requires Kept(newest, keys, horizon) && x in keys
    ensures NewestOnPages(views, x)
  {
    forall y | OnPages(views, y) && y.key == x.key ensures y.version <= x.version {
      var v :| v in views && y in v.Page();
      OneEntryAKey(newest, x, y);
    }
    forall v | v in views && v.More() ensures v.length > 0 && AtMost(x.key, v.entries[v.length - 1].key) {
      var last := v.entries[v.length - 1].key;
      if x.key != horizon.value && horizon.value != last {
        Transitive(x.key, horizon.value, last);
      }
    }
  }

  // ------------------------------------------------------ the newest version

  /** No newer version of the key was seen. */
  ghost predicate NewestSeen(nodes: seq<Node>, x: Entry) {
    forall e :: Seen(nodes, e) && e.key == x.key ==> e.version <= x.version
  }

  /** The page ends between two versions of the key. */
  predicate EndsInside(entries: seq<Entry>, length: nat, key: Key) {
    0 < length < |entries| && entries[length - 1].key == key && entries[length].key == key
  }

  /** A page leaves out a version of its last key exactly when the next entry
      is one. */
  lemma LeavesOutIff(entries: seq<Entry>, length: nat)
    requires Sorted(entries) && 0 < length <= |entries|
    ensures EndsInside(entries, length, entries[length - 1].key) <==>
              exists i :: length <= i < |entries| && entries[i].key == entries[length - 1].key
  {
    if i :| length <= i < |entries| && entries[i].key == entries[length - 1].key {
      NextIsOne(entries, length, i);
    }
  }

  lemma NextIsOne(entries: seq<Entry>, length: nat, i: nat)
    requires Sorted(entries) && 0 < length <= i < |entries| && entries[i].key == entries[length - 1].key
    ensures entries[length].key == entries[i].key
  {
    assert Before(entries[length - 1], entries[length]);
    if length < i {
      assert Before(entries[length], entries[i]);
      if Less(entries[length - 1].key, entries[length].key) {
        if Less(entries[length].key, entries[i].key) {
          Transitive(entries[length - 1].key, entries[length].key, entries[i].key);
        }
        Irreflexive(entries[i].key);
      }
    }
  }

  /** The page ends inside the key, and entry `i`, left out, is a version of
      it. */
  ghost predicate LeavesOut(v: View, key: Key, i: nat) {
    EndsInside(v.entries, v.length, key) && v.length <= i < |v.entries| && v.entries[i].key == key
  }

  /** The version is newer than any of the key on a page. */
  ghost predicate NewerThanPages(views: set<View>, key: Key, version: nat) {
    forall y :: OnPages(views, y) && y.key == key ==> y.version < version
  }

  /** Some node in reach leaves out, at the end of its page, a version of the
      key that is newer than all that are on a page. */
  ghost predicate CutOff(views: set<View>, key: Key) {
    exists v, i: nat :: v in views && LeavesOut(v, key, i) && NewerThanPages(views, key, v.entries[i].version)
  }

  /** An entry of the key newer than all in a prefix of sorted entries that does
      not end before the key was left out at the prefix's end, inside the key. */
  lemma LeftOutAt(v: View, e: Entry) returns (i: nat)
    requires Sorted(v.entries) && v.length <= |v.entries| && Has(v.entries, e)
    requires forall j :: 0 <= j < v.length && v.entries[j].key == e.key ==> v.entries[j].version < e.version
    requires v.More() ==> v.length > 0 && AtMost(e.key, v.entries[v.length - 1].key)
    ensures LeavesOut(v, e.key, i) && v.entries[i].version == e.version
  {
    i :| 0 <= i < |v.entries| && Same(v.entries[i], e);
    var last := v.entries[v.length - 1];
    assert Before(last, v.entries[i]);
    if Less(e.key, last.key) {
      Asymmetric(e.key, last.key);
    }
    NextIsOne(v.entries, v.length, i);
  }

  /** An entry newer than the one listed for its key was cut off. */
  lemma MissedIsCutOff(views: set<View>, nodes: seq<Node>, prefix: Option<Key>, start: Option<Key>, x: Entry, e: Entry)
    requires Shows(views, nodes, prefix, start) && NewestOnPages(views, x)
    requires Seen(nodes, e) && Matches(e, prefix, start) && e.key == x.key && e.version > x.version
    ensures CutOff(views, x.key)
  {
    var v :| v in views && Has(v.entries, e);
    forall j | 0 <= j < v.length && v.entries[j].key == e.key ensures v.entries[j].version < e.version {
      assert v.Page()[j] in v.Page() && OnPages(views, v.Page()[j]);
    }
    var i := LeftOutAt(v, e);
    assert NewerThanPages(views, x.key, v.entries[i].version);
  }

  lemma CutOffIsMissed(views: set<View>, nodes: seq<Node>, prefix: Option<Key>, start: Option<Key>, x: Entry)
    requires Shows(views, nodes, prefix, start) && OnPages(views, x) && CutOff(views, x.key)
    ensures !NewestSeen(nodes, x)
  {
    var v, i: nat :| v in views && LeavesOut(v, x.key, i) && NewerThanPages(views, x.key, v.entries[i].version);
    assert v.entries[i] in v.entries;
    assert Seen(nodes, v.entries[i]) && v.entries[i].version > x.version;
  }

  /** The listed entry is the newest seen exactly when none was cut off. */
  lemma NewestUnlessCutOff(views: set<View>, nodes: seq<Node>, prefix: Option<Key>, start: Option<Key>, x: Entry)
    requires Shows(views, nodes, prefix, start) && NewestOnPages(views, x)
    ensures NewestSeen(nodes, x) <==> !CutOff(views, x.key)
  {
    OnPagesSeen(views, nodes, prefix, start, x);
    if !NewestSeen(nodes, x) {
      var e :| Seen(nodes, e) && e.key == x.key && e.version > x.version;
      MissedIsCutOff(views, nodes, prefix, start, x, e);
    } else if CutOff(views, x.key) {
      CutOffIsMissed(views, nodes, prefix, start, x);
    }
  }

  /** A key of which no node in reach holds two versions is never cut off. */
  lemma OneVersionNotCutOff(nodes: seq<Node>, prefix: Option<Key>, start: Option<Key>, limit: Option<nat>, key: Key)
    requires forall n <- nodes :: forall a, b :: Holds(n, a) && Holds(n, b) && a.key == b.key == key ==> a.version == b.version
    ensures !CutOff(ViewsOf(nodes, prefix, start, limit), key)
  {
    forall v, i: nat | v in ViewsOf(nodes, prefix, start, limit) ensures !LeavesOut(v, key, i) {
      var n :| n in nodes && n.reachable && v == ViewOf(n, prefix, start, limit);
      MatchingAre(n, prefix, start);
      Irreflexive(key);
      assert 0 < v.length < |v.entries| ==>
        && v.entries[v.length - 1] in v.entries && v.entries[v.length] in v.entries
        && Before(v.entries[v.length - 1], v.entries[v.length]);
    }
  }

  // ------------------------------------------------------------ all pages

  /** `next_start_after`. */
  function NextStart(page: seq<Entry>, truncated: bool): Option<Key> {
    if truncated && page != [] then Some(page[|page| - 1].key) else None
  }

  /** The keys still to come after `start`. */
  ghost function Remaining(nodes: seq<Node>, start: Option<Key>): set<Key> {
    set n, d, e | n in nodes && d in n.devices && d.entries.Some? && e in d.entries.value && After(e.key, start) :: e.key
  }

  lemma RemainingShrinks(nodes: seq<Node>, start: Option<Key>, e: Entry)
    requires Seen(nodes, e) && After(e.key, start)
    ensures Remaining(nodes, Some(e.key)) < Remaining(nodes, start)
  {
    var n :| n in nodes && n.reachable && Holds(n, e);
    var d :| d in n.devices && d.entries.Some? && e in d.entries.value;
    forall k | k in Remaining(nodes, Some(e.key)) ensures k in Remaining(nodes, start) {
      var m, x, f :| m in nodes && x in m.devices && x.entries.Some? && f in x.entries.value && After(f.key, Some(e.key)) && f.key == k;
      if start.Some? {
        Transitive(start.value, e.key, k);
      }
      assert After(f.key, start);
    }
    Irreflexive(e.key);
    assert e.key in Remaining(nodes, start) && e.key !in Remaining(nodes, Some(e.key));
  }

  /** The listing so far: everything up to the cursor. */
  ghost predicate ListedTo(nodes: seq<Node>, prefix: Option<Key>, keys: seq<Entry>, start: Option<Key>) {
    && KeySorted(keys) && (forall e <- keys :: Seen(nodes, e) && HasPrefix(e.key, prefix) && !After(e.key, start))
    && (forall e :: Seen(nodes, e) && HasPrefix(e.key, prefix) && !After(e.key, start) ==> HasKey(keys, e.key))
  }

  /** The whole listing: the sorted union of the keys seen under the prefix,
      each once. */
  ghost predicate WholeListing(nodes: seq<Node>, prefix: Option<Key>, keys: seq<Entry>) {
    && KeySorted(keys) && (forall e <- keys :: Seen(nodes, e) && HasPrefix(e.key, prefix))
    && (forall e :: Seen(nodes, e) && HasPrefix(e.key, prefix) ==> HasKey(keys, e.key))
  }

  ghost predicate StartsListed(keys: seq<Entry>, starts: seq<Option<Key>>) {
    && |starts| == |keys|
    && forall i :: 0 <= i < |keys| ==> starts[i].None? || exists j :: 0 <= j < i && starts[i] == Some(keys[j].key)
  }

  /** Each key with where its page started: from the beginning, or after a key
      listed before. From there the entry is the newest seen exactly when no
      version of the key was cut off. */
  ghost predicate NewestFrom(nodes: seq<Node>, prefix: Option<Key>, limit: Option<nat>, keys: seq<Entry>,
                             starts: seq<Option<Key>>) {
    && StartsListed(keys, starts)
    && (forall i :: 0 <= i < |keys| ==>
          (NewestSeen(nodes, keys[i]) <==> !CutOff(ViewsOf(nodes, prefix, starts[i], limit), keys[i].key)))
  }

  /** When no node holds two versions of a key, every entry is the newest. */
  lemma NewestWithOneVersionEach(nodes: seq<Node>, prefix: Option<Key>, limit: Option<nat>, keys: seq<Entry>,
                                 starts: seq<Option<Key>>)
    requires NewestFrom(nodes, prefix, limit, keys, starts)
    requires forall n <- nodes :: forall a, b :: Holds(n, a) && Holds(n, b) && a.key == b.key ==> a.version == b.version
    ensures forall x <- keys :: NewestSeen(nodes, x)
  {
    forall x | x in keys ensures NewestSeen(nodes, x) {
      var i :| 0 <= i < |keys| && keys[i] == x;
      OneVersionNotCutOff(nodes, prefix, starts[i], limit, x.key);
    }
  }

  function Repeat<T>(x: T, n: nat): (r: seq<T>)
    ensures |r| == n && forall i :: 0 <= i < n ==> r[i] == x
  {
    seq(n, _ => x)
  }

  lemma NewestNext(nodes: seq<Node>, prefix: Option<Key>, limit: Option<nat>, keys: seq<Entry>, starts: seq<Option<Key>>,
                   start: Option<Key>, page: seq<Entry>)
    requires NewestFrom(nodes, prefix, limit, keys, starts)
    requires start.None? || (keys != [] && start == Some(keys[|keys| - 1].key))
    requires forall x <- page :: NewestSeen(nodes, x) <==> !CutOff(ViewsOf(nodes, prefix, start, limit), x.key)
    ensures NewestFrom(nodes, prefix, limit, keys + page, starts + Repeat(start, |page|))
  {
    var all, from := keys + page, starts + Repeat(start, |page|);
    StartsNext(keys, starts, start, page);
    forall i | 0 <= i < |all|
      ensures NewestSeen(nodes, all[i]) <==> !CutOff(ViewsOf(nodes, prefix, from[i], limit), all[i].key)
    {
      if i >= |keys| {
        assert page[i - |keys|] in page;
      }
    }
  }

  lemma StartsNext(keys: seq<Entry>, starts: seq<Option<Key>>, start: Option<Key>, page: seq<Entry>)
    requires StartsListed(keys, starts) && (start.None? || (keys != [] && start == Some(keys[|keys| - 1].key)))
    ensures StartsListed(keys + page, starts + Repeat(start, |page|))
  {
    var all, from := keys + page, starts + Repeat(start, |page|);
    forall i | 0 <= i < |all| ensures from[i].None? || exists j :: 0 <= j < i && from[i] == Some(all[j].key) {
      if i < |keys| {
        if starts[i].Some? {
          var j :| 0 <= j < i && starts[i] == Some(keys[j].key);
          assert all[j] == keys[j];
        }
      } else if start.Some? {
        assert all[|keys| - 1] == keys[|keys| - 1];
      }
    }
  }

  /** One more page takes the listing to its last key, or to the end. */
  lemma NextPage(nodes: seq<Node>, prefix: Option<Key>, limit: Option<nat>, keys: seq<Entry>, start: Option<Key>,
                 page: seq<Entry>, truncated: bool)
    requires ListPage(nodes, prefix, start, limit, page, truncated)
    requires if start.None? then keys == [] else ListedTo(nodes, prefix, keys, start)
    ensures KeySorted(keys + page) && forall e <- keys + page :: Seen(nodes, e) && HasPrefix(e.key, prefix)
    ensures truncated ==> ListedTo(nodes, prefix, keys + page, NextStart(page, truncated))
    ensures !truncated ==> WholeListing(nodes, prefix, keys + page)
  {
    JoinSorted(nodes, prefix, limit, keys, start, page, truncated);
    if truncated {
      forall e | e in keys + page ensures !Less(page[|page| - 1].key, e.key) {
        LastIsLast(keys, page, e);
      }
    }
    forall e | Seen(nodes, e) && HasPrefix(e.key, prefix) && (truncated ==> !Less(page[|page| - 1].key, e.key))
      ensures HasKey(keys + page, e.key)
    {
      ListedOne(nodes, prefix, limit, keys, start, page, truncated, e);
    }
  }

  lemma ListedOne(nodes: seq<Node>, prefix: Option<Key>, limit: Option<nat>, keys: seq<Entry>, start: Option<Key>,
                  page: seq<Entry>, truncated: bool, e: Entry)
    requires ListPage(nodes, prefix, start, limit, page, truncated)
    requires if start.None? then keys == [] else ListedTo(nodes, prefix, keys, start)
    requires Seen(nodes, e) && HasPrefix(e.key, prefix) && (truncated ==> !Less(page[|page| - 1].key, e.key))
    ensures HasKey(keys + page, e.key)
  {
    if After(e.key, start) {
      assert OnOrAfter(page, truncated, e.key);
      InSecond(keys, page, e);
    } else {
      InFirst(keys, page, e);
    }
  }

  lemma LastIsLast(keys: seq<Entry>, page: seq<Entry>, e: Entry)
    requires KeySorted(keys + page) && page != [] && e in keys + page
    ensures !Less(page[|page| - 1].key, e.key)
  {
    var both := keys + page;
    var i :| 0 <= i < |both| && both[i] == e;
    Irreflexive(e.key);
    assert both[|both| - 1] == page[|page| - 1];
    if i < |both| - 1 {
      Asymmetric(e.key, page[|page| - 1].key);
    }
  }

  lemma InSecond(keys: seq<Entry>, page: seq<Entry>, e: Entry)
    ensures HasKey(page, e.key) ==> HasKey(keys + page, e.key)
  {
    if HasKey(page, e.key) {
      var i :| 0 <= i < |page| && page[i].key == e.key;
      assert (keys + page)[|keys| + i] == page[i];
    }
  }

  lemma InFirst(keys: seq<Entry>, page: seq<Entry>, e: Entry)
    ensures HasKey(keys, e.key) ==> HasKey(keys + page, e.key)
  {
    if HasKey(keys, e.key) {
      var i :| 0 <= i < |keys| && keys[i].key == e.key;
      assert (keys + page)[i] == keys[i];
    }
  }

  lemma JoinSorted(nodes: seq<Node>, prefix: Option<Key>, limit: Option<nat>, keys: seq<Entry>, start: Option<Key>,
                   page: seq<Entry>, truncated: bool)
    requires ListPage(nodes, prefix, start, limit, page, truncated)
    requires if start.None? then keys == [] else ListedTo(nodes, prefix, keys, start)
    ensures KeySorted(keys + page) && forall e <- keys + page :: Seen(nodes, e) && HasPrefix(e.key, prefix)
  {
    forall i, j | 0 <= i < j < |keys + page| ensures Less((keys + page)[i].key, (keys + page)[j].key) {
      if i < |keys| <= j {
        var a, b := keys[i], page[j - |keys|];
        assert a in keys && b in page;
        Total(a.key, start.value);
        if a.key != start.value {
          Transitive(a.key, start.value, b.key);
        }
      }
    }
  }

  /** The devices with a copy of the entry's version, as far as they can be
      read. */
  ghost predicate CopiesOn(nodes: seq<Node>, e: Entry, copies: set<nat>) {
    forall c <- copies :: exists n, x :: n in nodes && x in n.devices && x.id == c && (x.entries.Some? ==> e in x.entries.value)
  }

  /** Without repetitions, `more` added. */
  method AddNew(unread0: seq<nat>, more: seq<nat>) returns (unread: seq<nat>)
    requires Distinct(unread0)
    ensures Distinct(unread) && forall d :: d in unread <==> d in unread0 || d in more
  {
    unread := unread0;
    for n := 0 to |more|
      invariant Distinct(unread) && forall d :: d in unread <==> d in unread0 || d in more[..n]
    {
      assert more[..n + 1] == more[..n] + [more[n]];
      DistinctSnoc(unread, more[n]);
      if more[n] !in unread {
        unread := unread + [more[n]];
      }
    }
    assert more[..|more|] == more;
  }

  lemma SameCount(a: seq<nat>, b: seq<nat>)
    requires Distinct(a) && Distinct(b) && forall d :: d in a <==> d in b
    ensures |a| == |b|
  {
    DistinctCount(a);
    DistinctCount(b);
    assert Elements(a) == Elements(b);
  }

  /** `list_all`, page after page from the last key of the one before, with any
      limit on each page: it ends, and returns the whole listing, and each device
      unread once. It says that it is complete exactly when fewer than `total`
      are; and then every key is there that has its copies on `total` devices. */
  method ListAll(nodes: seq<Node>, prefix: Option<Key>, limit: Option<nat>, total: nat)
    returns (keys: seq<Entry>, unread: seq<nat>, complete: bool, ghost starts: seq<Option<Key>>)
    ensures WholeListing(nodes, prefix, keys)
    ensures NewestFrom(nodes, prefix, limit, keys, starts)
    ensures Distinct(unread) && forall d :: UnreadDevice(nodes, d) <==> d in unread
    ensures complete <==> |UnreadList(nodes)| < total
    ensures OneOwnerEach(nodes) ==> (complete <==> |unread| < total)
    ensures complete ==> forall e, copies ::
              |copies| >= total && CopiesOn(nodes, e, copies) && HasPrefix(e.key, prefix) ==> HasKey(keys, e.key)
  {
    keys, unread, complete, starts := [], [], true, [];
    var start: Option<Key> := None;
    while true
      invariant Walked(nodes, prefix, limit, keys, starts, start) && Noted(nodes, start, unread, complete, total)
      decreases |Remaining(nodes, start)|
    {
      ghost var was := start;
      var page, away, whole;
      page, start, away, whole := OnePage(nodes, prefix, limit, total, keys, starts, start);
      keys, complete, starts := keys + page, complete && whole, starts + Repeat(was, |page|);
      unread := AddNew(unread, away);
      if start.None? {
        ListingEnds(nodes, prefix, keys, unread, away, total);
        return;
      }
    }
  }

  /** What is listed so far, up to where the next page starts. */
  ghost predicate Walked(nodes: seq<Node>, prefix: Option<Key>, limit: Option<nat>, keys: seq<Entry>, starts: seq<Option<Key>>,
                         start: Option<Key>) {
    && (if start.None? then keys == []
        else ListedTo(nodes, prefix, keys, start) && keys != [] && start == Some(keys[|keys| - 1].key))
    && NewestFrom(nodes, prefix, limit, keys, starts)
  }

  /** What is noted so far of the devices unread. */
  ghost predicate Noted(nodes: seq<Node>, start: Option<Key>, unread: seq<nat>, complete: bool, total: nat) {
    && Distinct(unread)
    && if start.None? then unread == [] && complete
       else (forall d :: UnreadDevice(nodes, d) <==> d in unread) && (complete <==> |UnreadList(nodes)| < total)
  }

  /** One page more, and where the next one starts. */
  method OnePage(nodes: seq<Node>, prefix: Option<Key>, limit: Option<nat>, total: nat, ghost keys: seq<Entry>,
                 ghost starts: seq<Option<Key>>, start: Option<Key>)
    returns (page: seq<Entry>, next: Option<Key>, away: seq<nat>, whole: bool)
    requires Walked(nodes, prefix, limit, keys, starts, start)
    ensures NewestFrom(nodes, prefix, limit, keys + page, starts + Repeat(start, |page|))
    ensures next.None? ==> WholeListing(nodes, prefix, keys + page)
    ensures next.Some? ==>
              && Walked(nodes, prefix, limit, keys + page, starts + Repeat(start, |page|), next)
              && |Remaining(nodes, next)| < |Remaining(nodes, start)|
    ensures away == UnreadList(nodes) && (forall d :: UnreadDevice(nodes, d) <==> d in away)
    ensures (whole <==> |away| < total) && (OneOwnerEach(nodes) ==> Distinct(away))
  {
    var truncated;
    page, truncated, away, whole := ListKeys(nodes, prefix, start, limit, total);
    NextPage(nodes, prefix, limit, keys, start, page, truncated);
    NewestNext(nodes, prefix, limit, keys, starts, start, page);
    next := NextStart(page, truncated);
    if next.Some? {
      assert page[|page| - 1] in page;
      RemainingShrinks(nodes, start, page[|page| - 1]);
      ProperSubsetCount(Remaining(nodes, next), Remaining(nodes, start));
    }
  }

  lemma ListingEnds(nodes: seq<Node>, prefix: Option<Key>, keys: seq<Entry>, unread: seq<nat>, away: seq<nat>, total: nat)
    requires WholeListing(nodes, prefix, keys) && away == UnreadList(nodes) && (OneOwnerEach(nodes) ==> Distinct(away))
    requires Distinct(unread) && (forall d :: UnreadDevice(nodes, d) <==> d in away) && (forall d :: d in unread <==> d in away)
    ensures OneOwnerEach(nodes) ==> |unread| == |away|
    ensures |away| < total ==> forall e, copies ::
              |copies| >= total && CopiesOn(nodes, e, copies) && HasPrefix(e.key, prefix) ==> HasKey(keys, e.key)
  {
    if OneOwnerEach(nodes) {
      SameCount(unread, away);
    }
    if |away| < total {
      EveryKeyListed(nodes, prefix, keys, away, total);
    }
  }

  lemma EveryKeyListed(nodes: seq<Node>, prefix: Option<Key>, keys: seq<Entry>, unread: seq<nat>, total: nat)
    requires WholeListing(nodes, prefix, keys) && |unread| < total && forall d :: UnreadDevice(nodes, d) ==> d in unread
    ensures forall e, copies ::
              |copies| >= total && CopiesOn(nodes, e, copies) && HasPrefix(e.key, prefix) ==> HasKey(keys, e.key)
  {
    forall e, copies | |copies| >= total && CopiesOn(nodes, e, copies) && HasPrefix(e.key, prefix)
      ensures HasKey(keys, e.key)
    {
      CompleteSeesEveryKey(nodes, e, copies, unread, total);
    }
  }

  lemma ProperSubsetCount<T>(a: set<T>, b: set<T>)
    requires a < b
    ensures |a| < |b|
  {
    assert b == a + (b - a);
  }

  /** While fewer devices are unread than every version has copies, every key
      can appear: one of its copies is on a device that was read. */
  lemma CompleteSeesEveryKey(nodes: seq<Node>, e: Entry, copies: set<nat>, unread: seq<nat>, total: nat)
    requires |copies| >= total && |unread| < total && forall d :: UnreadDevice(nodes, d) ==> d in unread
    requires CopiesOn(nodes, e, copies)
    ensures Seen(nodes, e)
  {
    ElementsCount(unread);
    DifferenceCount(copies, Elements(unread));
    var c :| c in copies - Elements(unread);
    var n, x :| n in nodes && x in n.devices && x.id == c && (x.entries.Some? ==> e in x.entries.value);
    assert !UnreadOn(n, c);
    assert Holds(n, e);
  }

  lemma {:induction false} ElementsCount<T>(s: seq<T>)
    ensures |Elements(s)| <= |s|
  {
    if s != [] {
      var before := s[..|s| - 1];
      ElementsCount(before);
      assert s == before + [s[|s| - 1]];
      assert Elements(s) == Elements(before) + {s[|s| - 1]};
    }
  }
}
