/** A listing that never shows the newest version of a key
    (crates/djbod-node/src/coordinator.rs:994-1065,
    crates/djbod-client/src/client.rs:458-486). */
module ListingCases {
  import opened Prelude
  import opened ByteOrder
  import opened Listing
  import opened MergedListing

  /** The versions of one key, oldest first. */
  function Versions(key: Key, count: nat): (entries: seq<Entry>)
    ensures |entries| == count
  {
    seq(count, i requires 0 <= i < count => Entry(key, 0, i))
  }

  /** A node that holds them all on one device. */
  function Hoarder(key: Key, count: nat): Node {
    Node(true, [Device(0, Some(Versions(key, count)))])
  }

  lemma {:induction false} InsertLast(s: seq<Entry>, e: Entry)
    requires forall x <- s :: Before(x, e)
    ensures Insert(s, e) == s + [e]
  {
    if s != [] {
      BeforeOrder(s[0], e, e);
      InsertLast(s[1..], e);
      assert s == [s[0]] + s[1..];
    }
  }

  lemma {:induction false} CollectedVersions(key: Key, count: nat)
    ensures WithDevice(Versions(key, count), None, []) == Versions(key, count)
  {
    if count > 0 {
      CollectedVersions(key, count - 1);
      var all := Versions(key, count);
      assert all[..count - 1] == Versions(key, count - 1);
      InsertLast(Versions(key, count - 1), all[count - 1]);
      assert all == Versions(key, count - 1) + [all[count - 1]];
    } else {
      assert Versions(key, 0) == [];
    }
  }

  lemma {:induction false} RetainsAll(entries: seq<Entry>)
    ensures Retain(entries, None) == entries
  {
    if entries != [] {
      RetainsAll(entries[1..]);
      assert entries == [entries[0]] + entries[1..];
    }
  }

  lemma {:induction false} BytesOfVersions(key: Key, count: nat)
    ensures KeyBytes(Versions(key, count)) == count * |key|
  {
    if count > 0 {
      BytesOfVersions(key, count - 1);
      assert Versions(key, count)[..count - 1] == Versions(key, count - 1);
    } else {
      assert Versions(key, 0) == [];
    }
  }

  /** The versions do not all fit one page: there are more than the limit, or
      their key text is longer than a page may be. */
  predicate TooMany(key: Key, count: nat, limit: Option<nat>) {
    count >= 2 && ((limit.Some? && limit.value < count) || count * |key| > MAX_LIST_PAGE_BYTES)
  }

  lemma PageIsShort(key: Key, count: nat, limit: Option<nat>)
    requires TooMany(key, count, limit)
    ensures 0 < PageLength(Versions(key, count), limit) < count
  {
    var all := Versions(key, count);
    assert all[..0] == [] && all[..count] == all;
    PageFromMeans(all, limit, 0, 0);
    BytesOfVersions(key, count);
  }

  lemma HoarderMatching(key: Key, count: nat)
    ensures Matching(Hoarder(key, count), None, None) == Versions(key, count)
  {
    var devices := Hoarder(key, count).devices;
    assert devices[..0] == [] && EntriesOn(devices[..0], None) == [];
    CollectedVersions(key, count);
    assert EntriesOn(devices, None) == Versions(key, count);
    RetainsAll(Versions(key, count));
  }

  lemma OneView(node: Node, limit: Option<nat>)
    requires node.reachable
    ensures ViewsOf([node], None, None, limit) == {ViewOf(node, None, None, limit)}
  {
    assert [node][0] in [node];
  }

  lemma HoarderView(key: Key, count: nat, limit: Option<nat>)
    ensures ViewsOf([Hoarder(key, count)], None, None, limit) ==
              {View(Versions(key, count), PageLength(Versions(key, count), limit))}
  {
    HoarderMatching(key, count);
    OneView(Hoarder(key, count), limit);
  }

  lemma HoarderSeen(key: Key, count: nat, e: Entry)
    ensures Seen([Hoarder(key, count)], e) <==> e in Versions(key, count)
  {
    var node := Hoarder(key, count);
    assert [node][0] in [node] && node.devices[0] in node.devices;
    assert Holds(node, e) <==> e in node.devices[0].entries.value;
  }

  /** The page ends inside the key, before the newest version. */
  lemma NewestCutOff(key: Key, count: nat, limit: Option<nat>)
    requires TooMany(key, count, limit)
    ensures CutOff(ViewsOf([Hoarder(key, count)], None, None, limit), key)
  {
    PageIsShort(key, count, limit);
    HoarderView(key, count, limit);
    var v := View(Versions(key, count), PageLength(Versions(key, count), limit));
    assert LeavesOut(v, key, count - 1);
    assert NewerThanPages({v}, key, v.entries[count - 1].version);
  }

  lemma LastIsNewest(key: Key, count: nat)
    requires count > 0
    ensures NewestSeen([Hoarder(key, count)], Entry(key, 0, count - 1))
  {
    forall e | Seen([Hoarder(key, count)], e) ensures e.version <= count - 1 {
      HoarderSeen(key, count, e);
    }
  }

  /** Sorted entries of one key are one entry. */
  lemma OneKey(entries: seq<Entry>, key: Key)
    requires KeySorted(entries) && forall e <- entries :: e.key == key
    ensures |entries| <= 1
  {
    assert |entries| > 1 ==> entries[0] in entries && entries[1] in entries && Less(entries[0].key, entries[1].key);
    Irreflexive(key);
  }

  /** What is listed from the beginning is one version, and not the newest. */
  lemma ListedIsOlder(key: Key, count: nat, limit: Option<nat>, listed: seq<Entry>)
    requires TooMany(key, count, limit) && KeySorted(listed) && listed != []
    requires forall e <- listed :: Seen([Hoarder(key, count)], e)
    requires NewestSeen([Hoarder(key, count)], listed[0]) <==>
               !CutOff(ViewsOf([Hoarder(key, count)], None, None, limit), listed[0].key)
    ensures |listed| == 1 && listed[0].key == key && listed[0].version < count - 1
  {
    forall e | e in listed ensures e.key == key && e in Versions(key, count) {
      HoarderSeen(key, count, e);
    }
    OneKey(listed, key);
    assert listed[0] in listed;
    NewestCutOff(key, count, limit);
    LastIsNewest(key, count);
  }

  /** The listing of a cluster whose only key has more versions on one node than
      a page holds, by number or by the length of the key: a page shows one of
      the older, and so does the whole listing. */
  method CutBetweenVersions(key: Key, count: nat, limit: Option<nat>) returns (page: seq<Entry>, all: seq<Entry>)
    requires TooMany(key, count, limit)
    ensures |page| == 1 && page[0].key == key && page[0].version < count - 1
    ensures |all| == 1 && all[0].key == key && all[0].version < count - 1
  {
    page := OlderOnPage(key, count, limit);
    all := OlderInAll(key, count, limit);
  }

  method OlderOnPage(key: Key, count: nat, limit: Option<nat>) returns (page: seq<Entry>)
    requires TooMany(key, count, limit)
    ensures |page| == 1 && page[0].key == key && page[0].version < count - 1
  {
    ghost var e := Versions(key, count)[0];
    HoarderSeen(key, count, e);
    var more, away, whole;
    page, more, away, whole := ListKeys([Hoarder(key, count)], None, None, limit, 1);
    assert Matches(e, None, None) && OnOrAfter(page, more, e.key);
    assert page[0] in page;
    ListedIsOlder(key, count, limit, page);
  }

  method OlderInAll(key: Key, count: nat, limit: Option<nat>) returns (all: seq<Entry>)
    requires TooMany(key, count, limit)
    ensures |all| == 1 && all[0].key == key && all[0].version < count - 1
  {
    ghost var e := Versions(key, count)[0];
    HoarderSeen(key, count, e);
    var unread, whole;
    ghost var starts;
    all, unread, whole, starts := ListAll([Hoarder(key, count)], None, limit, 1);
    assert HasPrefix(e.key, None) && HasKey(all, e.key);
    assert starts[0].None?;
    ListedIsOlder(key, count, limit, all);
  }
}
