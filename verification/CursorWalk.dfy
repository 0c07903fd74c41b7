/** The walk over a device's records from a cursor, through three levels of
    directories (crates/djbod-core/src/device.rs:607-688), the pages made from
    it (crates/djbod-node/src/local_ops.rs:431-487) and the stream that fetches
    them (crates/djbod-node/src/coordinator.rs:4254-4299). */
module CursorWalk {
  import opened Prelude
  import opened ByteOrder
  import opened Ulid
  import KeyHash
  import Records

  /** A record as the walk yields it; `hash` is the key hash in hex. */
  datatype Item = Item(hash: seq<Byte>, version: VersionId, record: Records.Record, shardPresent: bool)

  /** The hash and version are the record's own, and the record is a valid
      placement, as the reader of records makes sure. */
  ghost predicate OfRecord(item: Item) {
    && KeyHash.IsHash(item.record.body.keyHash) && item.hash == KeyHash.DirectoryName(item.record.body.keyHash)
    && item.version == item.record.body.version && Records.PlacementOk(item.record.shards, item.record.Total())
  }

  /** A file in a key directory: its name, and the record if it holds a readable
      one. */
  datatype File = File(name: seq<Byte>, item: Option<Item>)

  datatype KeyDir = KeyDir(name: seq<Byte>, files: seq<File>)

  datatype SecondDir = SecondDir(name: seq<Byte>, keys: seq<KeyDir>)

  datatype FirstDir = FirstDir(name: seq<Byte>, seconds: seq<SecondDir>)

  /** Position of a record in the walk's order. */
  datatype Cursor = Cursor(hash: seq<Byte>, version: VersionId)

  const RECORD_SUFFIX: seq<Byte> := [0x2E, 0x6D, 0x65, 0x74, 0x61, 0x2E, 0x6A, 0x73, 0x6F, 0x6E]  // .meta.json

  function RecordFileName(version: VersionId): seq<Byte> {
    Text(version) + RECORD_SUFFIX
  }

  /** Which files the walk takes for records, and of what version. */
  ghost predicate RecordFile(f: File, version: VersionId) {
    f.name == RecordFileName(version)
  }

  // ------------------------------------------------- a device as it is kept

  /** Files sorted by name; one that holds a record is named for its version and
      lies in the directory of its key hash. */
  ghost predicate KeyDirOk(dir: KeyDir) {
    && |dir.name| == 64
    && (forall i, j :: 0 <= i < j < |dir.files| ==> Less(dir.files[i].name, dir.files[j].name))
    && (forall f <- dir.files :: f.item.Some? ==>
          OfRecord(f.item.value) && f.item.value.hash == dir.name && RecordFile(f, f.item.value.version))
  }

  ghost predicate SecondOk(dir: SecondDir, first: seq<int>) {
    && |dir.name| == 2
    && (forall i, j :: 0 <= i < j < |dir.keys| ==> Less(dir.keys[i].name, dir.keys[j].name))
    && (forall k <- dir.keys :: KeyDirOk(k) && k.name[..2] == first && k.name[2..4] == dir.name)
  }

  ghost predicate FirstOk(dir: FirstDir) {
    && |dir.name| == 2
    && (forall i, j :: 0 <= i < j < |dir.seconds| ==> Less(dir.seconds[i].name, dir.seconds[j].name))
    && (forall s <- dir.seconds :: SecondOk(s, dir.name))
  }

  ghost predicate BucketOk(bucket: seq<FirstDir>) {
    && (forall i, j :: 0 <= i < j < |bucket| ==> Less(bucket[i].name, bucket[j].name))
    && (forall d <- bucket :: FirstOk(d))
  }

  // --------------------------------------------------------- the full walk

  function InFiles(files: seq<File>): seq<Item> {
    if files == [] then []
    else InFiles(files[..|files| - 1]) + (if files[|files| - 1].item.Some? then [files[|files| - 1].item.value] else [])
  }

  function InKeys(keys: seq<KeyDir>): seq<Item> {
    if keys == [] then [] else InKeys(keys[..|keys| - 1]) + InFiles(keys[|keys| - 1].files)
  }

  function InSeconds(seconds: seq<SecondDir>): seq<Item> {
    if seconds == [] then [] else InSeconds(seconds[..|seconds| - 1]) + InKeys(seconds[|seconds| - 1].keys)
  }

  /** Every readable record on the device, in directory order. */
  function Walk(bucket: seq<FirstDir>): seq<Item> {
    if bucket == [] then [] else Walk(bucket[..|bucket| - 1]) + InSeconds(bucket[|bucket| - 1].seconds)
  }

  // ------------------------------------------------------------- the order

  predicate Precedes(a: Cursor, b: Cursor) {
    Less(a.hash, b.hash) || (a.hash == b.hash && a.version < b.version)
  }

  function Place(item: Item): Cursor {
    Cursor(item.hash, item.version)
  }

  ghost predicate Ordered(items: seq<Item>) {
    forall i, j :: 0 <= i < j < |items| ==> Precedes(Place(items[i]), Place(items[j]))
  }

  lemma PrecedesOrder(a: Cursor, b: Cursor, c: Cursor)
    ensures Precedes(a, b) && Precedes(b, c) ==> Precedes(a, c)
    ensures !Precedes(a, a)
    ensures Precedes(a, b) || Precedes(b, a) || a == b
  {
    Irreflexive(a.hash);
    Total(a.hash, b.hash);
    if Less(a.hash, b.hash) && Less(b.hash, c.hash) {
      Transitive(a.hash, b.hash, c.hash);
    }
  }

  lemma OrderedJoin(a: seq<Item>, b: seq<Item>)
    requires Ordered(a) && Ordered(b) && forall x <- a, y <- b :: Precedes(Place(x), Place(y))
    ensures Ordered(a + b)
  {
    forall i, j | 0 <= i < j < |a + b| ensures Precedes(Place((a + b)[i]), Place((a + b)[j])) {
      if i < |a| <= j {
        assert a[i] in a && b[j - |a|] in b;
      }
    }
  }

  /** Record files sorted by name are sorted by version. */
  lemma NamesOrderVersions(v: VersionId, w: VersionId)
    ensures Less(RecordFileName(v), RecordFileName(w)) <==> v < w
  {
    TextOrder(v, w);
    if v != w {
      LessByPrefix(Text(v), Text(w), RECORD_SUFFIX, RECORD_SUFFIX);
    } else {
      Irreflexive(RecordFileName(v));
    }
  }

  lemma {:induction false} FilesMembers(files: seq<File>, x: Item)
    ensures x in InFiles(files) <==> exists f :: f in files && f.item == Some(x)
  {
    if files != [] {
      var before, last := files[..|files| - 1], files[|files| - 1];
      assert files == before + [last];
      FilesMembers(before, x);
      if last.item == Some(x) {
        assert last in files;
      }
    }
  }

  lemma EarlierFile(dir: KeyDir, x: Item)
    requires KeyDirOk(dir) && dir.files != [] && dir.files[|dir.files| - 1].item.Some?
    requires x in InFiles(dir.files[..|dir.files| - 1])
    ensures Precedes(Place(x), Place(dir.files[|dir.files| - 1].item.value))
  {
    var before, last := dir.files[..|dir.files| - 1], dir.files[|dir.files| - 1];
    FilesMembers(before, x);
    var f :| f in before && f.item == Some(x);
    var n :| 0 <= n < |before| && before[n] == f;
    assert dir.files[n] == f && f in dir.files && last in dir.files;
    NamesOrderVersions(x.version, last.item.value.version);
  }

  lemma {:induction false} FilesOrdered(dir: KeyDir)
    requires KeyDirOk(dir)
    ensures Ordered(InFiles(dir.files)) && forall x <- InFiles(dir.files) :: x.hash == dir.name
    decreases |dir.files|
  {
    if dir.files != [] {
      var before, last := dir.files[..|dir.files| - 1], dir.files[|dir.files| - 1];
      assert dir.files == before + [last];
      FilesOrdered(KeyDir(dir.name, before));
      if last.item.Some? {
        assert last in dir.files;
        forall x | x in InFiles(before) ensures Precedes(Place(x), Place(last.item.value)) {
          EarlierFile(dir, x);
        }
        OrderedJoin(InFiles(before), [last.item.value]);
      }
    }
  }

  lemma {:induction false} KeysMembers(keys: seq<KeyDir>, x: Item)
    requires forall k <- keys :: KeyDirOk(k)
    ensures x in InKeys(keys) ==> exists k :: k in keys && x.hash == k.name
  {
    if keys != [] {
      var before, last := keys[..|keys| - 1], keys[|keys| - 1];
      assert keys == before + [last];
      KeysMembers(before, x);
      FilesOrdered(last);
    }
  }

  lemma {:induction false} KeysOrdered(dir: SecondDir, first: seq<int>)
    requires SecondOk(dir, first)
    ensures Ordered(InKeys(dir.keys))
    decreases |dir.keys|
  {
    if dir.keys != [] {
      var before, last := dir.keys[..|dir.keys| - 1], dir.keys[|dir.keys| - 1];
      assert dir.keys == before + [last];
      KeysOrdered(SecondDir(dir.name, before), first);
      FilesOrdered(last);
      forall x, y | x in InKeys(before) && y in InFiles(last.files) ensures Precedes(Place(x), Place(y)) {
        EarlierKey(dir, first, before, last, x, y);
      }
      OrderedJoin(InKeys(before), InFiles(last.files));
    }
  }

  lemma EarlierKey(dir: SecondDir, first: seq<int>, before: seq<KeyDir>, last: KeyDir, x: Item, y: Item)
    requires SecondOk(dir, first) && dir.keys == before + [last] && x in InKeys(before) && y in InFiles(last.files)
    ensures Precedes(Place(x), Place(y))
  {
    KeysMembers(before, x);
    var k :| k in before && x.hash == k.name;
    var n :| 0 <= n < |before| && before[n] == k;
    assert dir.keys[n] == k && dir.keys[|before|] == last;
    assert Less(dir.keys[n].name, dir.keys[|before|].name);
    FilesOrdered(last);
  }

  /** Where a record under a pair of directories is found. */
  ghost predicate Under(hash: seq<int>, first: seq<int>, second: seq<int>) {
    |hash| == 64 && hash[..2] == first && hash[2..4] == second
  }

  lemma KeysUnder(dir: SecondDir, first: seq<int>, x: Item)
    requires SecondOk(dir, first) && x in InKeys(dir.keys)
    ensures Under(x.hash, first, dir.name)
  {
    KeysMembers(dir.keys, x);
    var k :| k in dir.keys && x.hash == k.name;
  }

  lemma {:induction false} SecondsMembers(seconds: seq<SecondDir>, first: seq<int>, x: Item)
    requires forall s <- seconds :: SecondOk(s, first)
    ensures x in InSeconds(seconds) ==> exists s :: s in seconds && Under(x.hash, first, s.name)
  {
    if seconds != [] {
      var before, last := seconds[..|seconds| - 1], seconds[|seconds| - 1];
      assert seconds == before + [last];
      SecondsMembers(before, first, x);
      if x in InKeys(last.keys) {
        KeysUnder(last, first, x);
      }
    }
  }

  /** Hashes compare as their directories do. */
  lemma ByDirectories(a: seq<int>, b: seq<int>)
    requires |a| == |b| == 64
    ensures Less(a[..2], b[..2]) ==> Less(a, b)
    ensures a[..2] == b[..2] && Less(a[2..4], b[2..4]) ==> Less(a, b)
  {
    Components(a);
    Components(b);
    if Less(a[..2], b[..2]) {
      Asymmetric(a[..2], b[..2]);
      LessByPrefix(a[..2], b[..2], a[2..], b[2..]);
    }
    if a[..2] == b[..2] && Less(a[2..4], b[2..4]) {
      Asymmetric(a[2..4], b[2..4]);
      LessAfterPrefix(a[..2], a[2..], b[2..]);
      LessByPrefix(a[2..4], b[2..4], a[4..], b[4..]);
    }
  }

  lemma Components(a: seq<int>)
    requires |a| == 64
    ensures a == a[..2] + a[2..] && a[2..] == a[2..4] + a[4..]
  {
  }

  lemma EarlierSecond(dir: FirstDir, x: Item, y: Item)
    requires FirstOk(dir) && dir.seconds != []
    requires x in InSeconds(dir.seconds[..|dir.seconds| - 1]) && y in InKeys(dir.seconds[|dir.seconds| - 1].keys)
    ensures Precedes(Place(x), Place(y))
  {
    var before, last := dir.seconds[..|dir.seconds| - 1], dir.seconds[|dir.seconds| - 1];
    forall s | s in before ensures s in dir.seconds {
    }
    SecondsMembers(before, dir.name, x);
    var s :| s in before && Under(x.hash, dir.name, s.name);
    var n :| 0 <= n < |before| && before[n] == s;
    assert dir.seconds[n] == s && dir.seconds[|dir.seconds| - 1] == last && last in dir.seconds;
    KeysUnder(last, dir.name, y);
    ByDirectories(x.hash, y.hash);
  }

  lemma {:induction false} SecondsOrdered(dir: FirstDir)
    requires FirstOk(dir)
    ensures Ordered(InSeconds(dir.seconds))
    decreases |dir.seconds|
  {
    if dir.seconds != [] {
      var before, last := dir.seconds[..|dir.seconds| - 1], dir.seconds[|dir.seconds| - 1];
      assert dir.seconds == before + [last];
      SecondsOrdered(FirstDir(dir.name, before));
      KeysOrdered(last, dir.name);
      forall x, y | x in InSeconds(before) && y in InKeys(last.keys) ensures Precedes(Place(x), Place(y)) {
        EarlierSecond(dir, x, y);
      }
      OrderedJoin(InSeconds(before), InKeys(last.keys));
    }
  }

  lemma {:induction false} WalkMembers(bucket: seq<FirstDir>, x: Item)
    requires forall d <- bucket :: FirstOk(d)
    ensures x in Walk(bucket) ==> |x.hash| == 64 && exists d :: d in bucket && x.hash[..2] == d.name
  {
    if bucket != [] {
      var before, last := bucket[..|bucket| - 1], bucket[|bucket| - 1];
      assert bucket == before + [last];
      WalkMembers(before, x);
      assert FirstOk(last);
      SecondsMembers(last.seconds, last.name, x);
    }
  }

  /** The walk is strictly increasing in key hash, then version. */
  lemma {:induction false} WalkOrdered(bucket: seq<FirstDir>)
    requires BucketOk(bucket)
    ensures Ordered(Walk(bucket))
  {
    if bucket != [] {
      var before, last := bucket[..|bucket| - 1], bucket[|bucket| - 1];
      assert bucket == before + [last];
      WalkOrdered(before);
      SecondsOrdered(last);
      forall x, y | x in Walk(before) && y in InSeconds(last.seconds) ensures Precedes(Place(x), Place(y)) {
        WalkMembers(before, x);
        var d :| d in before && x.hash[..2] == d.name;
        var n :| 0 <= n < |before| && before[n] == d;
        assert bucket[n] == d;
        SecondsMembers(last.seconds, last.name, y);
        ByDirectories(x.hash, y.hash);
      }
      OrderedJoin(Walk(before), InSeconds(last.seconds));
    }
  }

  // ------------------------------------------------------ past the cursor

  predicate Past(x: Item, cursor: Option<Cursor>) {
    cursor.None? || Precedes(cursor.value, Place(x))
  }

  /** The items after the cursor. */
  function From(items: seq<Item>, cursor: Option<Cursor>): seq<Item> {
    if items == [] then []
    else From(items[..|items| - 1], cursor) + (if Past(items[|items| - 1], cursor) then [items[|items| - 1]] else [])
  }

  lemma {:induction false} FromJoin(a: seq<Item>, b: seq<Item>, cursor: Option<Cursor>)
    ensures From(a + b, cursor) == From(a, cursor) + From(b, cursor)
  {
    if b == [] {
      assert a + b == a;
    } else {
      var before, last := b[..|b| - 1], b[|b| - 1];
      FromJoin(a, before, cursor);
      assert (a + b)[..|a + b| - 1] == a + before;
    }
  }

  lemma {:induction false} FromAll(items: seq<Item>, cursor: Option<Cursor>)
    requires forall x <- items :: Past(x, cursor)
    ensures From(items, cursor) == items
  {
    if items != [] {
      var before := items[..|items| - 1];
      assert items == before + [items[|items| - 1]];
      FromAll(before, cursor);
    }
  }

  lemma {:induction false} FromNone(items: seq<Item>, cursor: Option<Cursor>)
    requires forall x <- items :: !Past(x, cursor)
    ensures From(items, cursor) == []
  {
    if items != [] {
      var before := items[..|items| - 1];
      assert items == before + [items[|items| - 1]];
      FromNone(before, cursor);
    }
  }

  lemma Slices<T>(s: seq<T>, n: nat)
    requires n < |s|
    ensures s[..|s| - 1][..n] == s[..n] && s[n..][..|s[n..]| - 1] == s[..|s| - 1][n..]
    ensures s[n..] != [] && s[n..][|s[n..]| - 1] == s[|s| - 1]
  {
  }

  lemma {:induction false} FilesSplit(files: seq<File>, n: nat)
    requires n <= |files|
    ensures InFiles(files) == InFiles(files[..n]) + InFiles(files[n..])
  {
    if n == |files| {
      assert files[..n] == files && files[n..] == [];
    } else {
      var before, last := files[..|files| - 1], files[|files| - 1];
      FilesSplit(before, n);
      Slices(files, n);
      Associate(InFiles(before[..n]), InFiles(before[n..]), (if last.item.Some? then [last.item.value] else []));
    }
  }

  lemma {:induction false} KeysSplit(keys: seq<KeyDir>, n: nat)
    requires n <= |keys|
    ensures InKeys(keys) == InKeys(keys[..n]) + InKeys(keys[n..])
  {
    if n == |keys| {
      assert keys[..n] == keys && keys[n..] == [];
    } else {
      var before, last := keys[..|keys| - 1], keys[|keys| - 1];
      KeysSplit(before, n);
      Slices(keys, n);
      Associate(InKeys(before[..n]), InKeys(before[n..]), InFiles(last.files));
    }
  }

  lemma {:induction false} SecondsSplit(seconds: seq<SecondDir>, n: nat)
    requires n <= |seconds|
    ensures InSeconds(seconds) == InSeconds(seconds[..n]) + InSeconds(seconds[n..])
  {
    if n == |seconds| {
      assert seconds[..n] == seconds && seconds[n..] == [];
    } else {
      var before, last := seconds[..|seconds| - 1], seconds[|seconds| - 1];
      SecondsSplit(before, n);
      Slices(seconds, n);
      Associate(InSeconds(before[..n]), InSeconds(before[n..]), InKeys(last.keys));
    }
  }

  lemma {:induction false} WalkSplit(bucket: seq<FirstDir>, n: nat)
    requires n <= |bucket|
    ensures Walk(bucket) == Walk(bucket[..n]) + Walk(bucket[n..])
  {
    if n == |bucket| {
      assert bucket[..n] == bucket && bucket[n..] == [];
    } else {
      var before, last := bucket[..|bucket| - 1], bucket[|bucket| - 1];
      WalkSplit(before, n);
      Slices(bucket, n);
      Associate(Walk(before[..n]), Walk(before[n..]), InSeconds(last.seconds));
    }
  }

  // ---------------------------------------------------------- one page

  function TotalSize(page: seq<Item>, size: Item -> nat): nat {
    if page == [] then 0 else TotalSize(page[..|page| - 1], size) + size(page[|page| - 1])
  }

  /** A page fits its frame, unless one record alone is longer. */
  ghost predicate Fits(page: seq<Item>, bytes: nat, size: Item -> nat) {
    bytes == TotalSize(page, size) && FitsFrame(page, size)
  }

  ghost predicate FitsFrame(page: seq<Item>, size: Item -> nat) {
    TotalSize(page, size) <= MAX_LIST_PAGE_BYTES || |page| == 1
  }

  lemma FitsMore(page: seq<Item>, bytes: nat, size: Item -> nat, x: Item)
    requires Fits(page, bytes, size) && (page == [] || bytes + size(x) <= MAX_LIST_PAGE_BYTES)
    ensures Fits(page + [x], bytes + size(x), size)
  {
    assert (page + [x])[..|page|] == page;
  }

  /** The page is not empty, and the next of `items` does not fit it any more. */
  ghost predicate Full(page: seq<Item>, items: seq<Item>, size: Item -> nat) {
    page != [] && page < items && TotalSize(page, size) + size(items[|page|]) > MAX_LIST_PAGE_BYTES
  }

  /** A visit of `items` either takes them all or stops part way with a full
      page. */
  ghost predicate Visited(page0: seq<Item>, items: seq<Item>, page: seq<Item>, stopped: bool, size: Item -> nat) {
    if stopped then page0 <= page && Full(page, page0 + items, size) else page == page0 + items
  }

  /** Two visits, one after the other, are a visit of both. */
  lemma VisitedBoth(page0: seq<Item>, a: seq<Item>, page1: seq<Item>, b: seq<Item>, page2: seq<Item>, stopped: bool,
                    rest: seq<Item>, size: Item -> nat)
    requires page1 == page0 + a && Visited(page1, b, page2, stopped, size)
    ensures !stopped ==> page2 == page0 + (a + b)
    ensures stopped ==> Visited(page0, a + b + rest, page2, true, size)
  {
    assert page0 + (a + b) == page0 + a + b;
    assert page0 + (a + b + rest) == page0 + a + b + rest;
  }

  /** `parse_record_file_name`. */
  method ParseRecordFileName(name: seq<Byte>) returns (r: Option<VersionId>)
    ensures forall v: VersionId :: r == Some(v) <==>
              exists stem :: name == stem + RECORD_SUFFIX && Upper(stem) == Text(v)
    ensures forall v: VersionId :: name == RecordFileName(v) ==> r == Some(v)
  {
    if |name| < |RECORD_SUFFIX| || name[|name| - |RECORD_SUFFIX|..] != RECORD_SUFFIX {
      assert forall stem: seq<Byte> :: (stem + RECORD_SUFFIX)[|stem|..] == RECORD_SUFFIX;
      return None;
    }
    var stem := name[..|name| - |RECORD_SUFFIX|];
    r := FromText(stem);
    assert name == stem + RECORD_SUFFIX;
    forall other: seq<Byte> | name == other + RECORD_SUFFIX ensures other == stem {
      assert (other + RECORD_SUFFIX)[..|other|] == other;
    }
    forall v: VersionId | name == RecordFileName(v) ensures r == Some(v) {
      assert stem == Text(v);
      TextIsReadable(v);
    }
  }

  /** Where the cursor is, seen from a key directory: in it, or before it. */
  ghost predicate KeyFlag(dir: KeyDir, cursor: Option<Cursor>, onKey: bool) {
    if onKey then cursor.Some? && dir.name == cursor.value.hash else cursor.None? || Less(cursor.value.hash, dir.name)
  }

  /** The record a file contributes, if it is one and lies past the cursor. */
  function Taken(file: File, cursor: Option<Cursor>): seq<Item> {
    if file.item.Some? && Past(file.item.value, cursor) then [file.item.value] else []
  }

  lemma FromOne(x: Item, cursor: Option<Cursor>)
    ensures From([x], cursor) == if Past(x, cursor) then [x] else []
  {
    assert [x][..0] == [];
  }

  lemma FilesNext(files: seq<File>, n: nat, cursor: Option<Cursor>)
    requires n < |files|
    ensures From(InFiles(files[..n + 1]), cursor) == From(InFiles(files[..n]), cursor) + Taken(files[n], cursor)
    ensures Taken(files[n], cursor) == [] ==> From(InFiles(files[..n + 1]), cursor) == From(InFiles(files[..n]), cursor)
  {
    assert files[..n + 1][..n] == files[..n];
    var done := InFiles(files[..n]);
    if files[n].item.Some? {
      FromJoin(done, [files[n].item.value], cursor);
      FromOne(files[n].item.value, cursor);
    } else {
      assert done + [] == done;
    }
  }

  /** The checks on one file: its name, its version against the cursor when the
      cursor is in this directory, and whether it can be read. */
  method TakeFile(dir: KeyDir, n: nat, cursor: Option<Cursor>, onKey: bool) returns (r: Option<Item>)
    requires KeyDirOk(dir) && KeyFlag(dir, cursor, onKey) && n < |dir.files|
    ensures r.Some? <==> Taken(dir.files[n], cursor) != []
    ensures r.Some? ==> Taken(dir.files[n], cursor) == [r.value]
  {
    var file := dir.files[n];
    assert file in dir.files;
    Irreflexive(dir.name);
    var version := ParseRecordFileName(file.name);
    if version.None? {
      return None;
    }
    if onKey && version.value <= cursor.value.version {
      return None;
    }
    return file.item;
  }

  lemma Associate(a: seq<Item>, b: seq<Item>, c: seq<Item>)
    ensures a + b + c == a + (b + c)
  {
  }

  /** The callback's test: a page never stops before its first record. */
  method TooMuch(page: seq<Item>, bytes: nat, size: Item -> nat, x: Item) returns (full: bool)
    requires Fits(page, bytes, size)
    ensures full <==> page != [] && TotalSize(page, size) + size(x) > MAX_LIST_PAGE_BYTES
    ensures !full ==> Fits(page + [x], bytes + size(x), size)
  {
    full := page != [] && bytes + size(x) > MAX_LIST_PAGE_BYTES;
    if !full {
      FitsMore(page, bytes, size, x);
    }
  }

  /** The innermost loop with the callback that fills a page: it stops before a
      record that would make a page too long, never before the first. */
  method VisitFiles(dir: KeyDir, cursor: Option<Cursor>, onKey: bool, size: Item -> nat, page0: seq<Item>, bytes0: nat)
    returns (page: seq<Item>, bytes: nat, stopped: bool)
    requires KeyDirOk(dir) && KeyFlag(dir, cursor, onKey) && Fits(page0, bytes0, size)
    ensures Fits(page, bytes, size)
    ensures Visited(page0, From(InFiles(dir.files), cursor), page, stopped, size)
  {
    page, bytes, stopped := page0, bytes0, false;
    ghost var done := [];
    assert page0 == page0 + [];
    for n := 0 to |dir.files|
      invariant done == From(InFiles(dir.files[..n]), cursor) && page == page0 + done
      invariant Fits(page, bytes, size)
    {
      FilesNext(dir.files, n, cursor);
      var taken := TakeFile(dir, n, cursor, onKey);
      if taken.Some? {
        var full := TooMuch(page, bytes, size, taken.value);
        if full {
          StoppedHere(dir.files, n, cursor, page0, page, size);
          return page, bytes, true;
        }
        bytes := bytes + size(taken.value);
        page := page + [taken.value];
        Associate(page0, done, [taken.value]);
        done := done + [taken.value];
      }
    }
    assert dir.files[..|dir.files|] == dir.files;
  }

  lemma StoppedHere(files: seq<File>, n: nat, cursor: Option<Cursor>, page0: seq<Item>, page: seq<Item>,
                    size: Item -> nat)
    requires n < |files| && Taken(files[n], cursor) != []
    requires page == page0 + From(InFiles(files[..n]), cursor) && page != []
    requires TotalSize(page, size) + size(Taken(files[n], cursor)[0]) > MAX_LIST_PAGE_BYTES
    ensures Visited(page0, From(InFiles(files), cursor), page, true, size)
  {
    FilesSplit(files, n + 1);
    FromJoin(InFiles(files[..n + 1]), InFiles(files[n + 1..]), cursor);
    FilesNext(files, n, cursor);
    FullHere(page0, From(InFiles(files[..n]), cursor), Taken(files[n], cursor)[0], From(InFiles(files[n + 1..]), cursor), page,
             size);
  }

  lemma FullHere(page0: seq<Item>, done: seq<Item>, x: Item, rest: seq<Item>, page: seq<Item>, size: Item -> nat)
    requires page == page0 + done && page != [] && TotalSize(page, size) + size(x) > MAX_LIST_PAGE_BYTES
    ensures Visited(page0, done + [x] + rest, page, true, size)
  {
    assert page0 + (done + [x] + rest) == page + [x] + rest;
  }

  // ----------------------------------------------------- the outer loops

  /** Seen from a second-level directory: the cursor's path runs through it, or
      passed before it. */
  ghost predicate SecondFlag(dir: SecondDir, first: seq<int>, cursor: Option<Cursor>, onSecond: bool) {
    if onSecond then cursor.Some? && |cursor.value.hash| == 64 && cursor.value.hash[..2] == first && cursor.value.hash[2..4] == dir.name
    else cursor.None? || (|cursor.value.hash| == 64 && forall hash: seq<Byte> :: Under(hash, first, dir.name) ==> Less(cursor.value.hash, hash))
  }

  lemma KeysNext(keys: seq<KeyDir>, n: nat, cursor: Option<Cursor>)
    requires n < |keys|
    ensures From(InKeys(keys[..n + 1]), cursor) == From(InKeys(keys[..n]), cursor) + From(InFiles(keys[n].files), cursor)
    ensures From(InFiles(keys[n].files), cursor) == [] ==> From(InKeys(keys[..n + 1]), cursor) == From(InKeys(keys[..n]), cursor)
    ensures From(InKeys(keys), cursor) ==
              From(InKeys(keys[..n]), cursor) + From(InFiles(keys[n].files), cursor) + From(InKeys(keys[n + 1..]), cursor)
  {
    assert keys[..n + 1][..n] == keys[..n];
    FromJoin(InKeys(keys[..n]), InFiles(keys[n].files), cursor);
    KeysSplit(keys, n + 1);
    FromJoin(InKeys(keys[..n + 1]), InKeys(keys[n + 1..]), cursor);
  }

  /** A directory before the cursor has nothing past it. */
  lemma SkippedKey(dir: KeyDir, cursor: Option<Cursor>)
    requires KeyDirOk(dir) && cursor.Some? && Less(dir.name, cursor.value.hash)
    ensures From(InFiles(dir.files), cursor) == []
  {
    FilesOrdered(dir);
    Asymmetric(dir.name, cursor.value.hash);
    FromNone(InFiles(dir.files), cursor);
  }

  /** The flag for a key directory, from its name. */
  lemma KeyFlagIs(dir: SecondDir, first: seq<int>, cursor: Option<Cursor>, onSecond: bool, n: nat)
    requires SecondOk(dir, first) && SecondFlag(dir, first, cursor, onSecond) && n < |dir.keys|
    requires !(cursor.Some? && onSecond && Less(dir.keys[n].name, cursor.value.hash))
    ensures KeyDirOk(dir.keys[n])
    ensures KeyFlag(dir.keys[n], cursor, cursor.Some? && onSecond && dir.keys[n].name == cursor.value.hash)
  {
    assert dir.keys[n] in dir.keys;
    if cursor.Some? {
      if onSecond {
        Total(dir.keys[n].name, cursor.value.hash);
      } else {
        assert Under(dir.keys[n].name, first, dir.name);
      }
    }
  }

  /** The loop over key directories. */
  method VisitKeys(dir: SecondDir, ghost first: seq<int>, cursor: Option<Cursor>, onSecond: bool, size: Item -> nat,
                   page0: seq<Item>, bytes0: nat)
    returns (page: seq<Item>, bytes: nat, stopped: bool)
    requires SecondOk(dir, first) && SecondFlag(dir, first, cursor, onSecond) && Fits(page0, bytes0, size)
    ensures Fits(page, bytes, size)
    ensures Visited(page0, From(InKeys(dir.keys), cursor), page, stopped, size)
  {
    page, bytes, stopped := page0, bytes0, false;
    ghost var done := [];
    assert page0 == page0 + [];
    for n := 0 to |dir.keys|
      invariant done == From(InKeys(dir.keys[..n]), cursor) && page == page0 + done
      invariant Fits(page, bytes, size)
    {
      KeysNext(dir.keys, n, cursor);
      assert dir.keys[n] in dir.keys;
      if cursor.Some? && onSecond && Less(dir.keys[n].name, cursor.value.hash) {
        SkippedKey(dir.keys[n], cursor);
      } else {
        KeyFlagIs(dir, first, cursor, onSecond, n);
        var onKey := cursor.Some? && onSecond && dir.keys[n].name == cursor.value.hash;
        ghost var was, here := page, From(InFiles(dir.keys[n].files), cursor);
        page, bytes, stopped := VisitFiles(dir.keys[n], cursor, onKey, size, page, bytes);
        VisitedBoth(page0, done, was, here, page, stopped, From(InKeys(dir.keys[n + 1..]), cursor), size);
        if stopped {
          return;
        }
        done := done + here;
      }
    }
    assert dir.keys[..|dir.keys|] == dir.keys;
  }

  ghost predicate FirstFlag(dir: FirstDir, cursor: Option<Cursor>, onFirst: bool) {
    if onFirst then cursor.Some? && |cursor.value.hash| == 64 && cursor.value.hash[..2] == dir.name
    else cursor.None? || (|cursor.value.hash| == 64 && Less(cursor.value.hash[..2], dir.name))
  }

  lemma SecondsNext(seconds: seq<SecondDir>, n: nat, cursor: Option<Cursor>)
    requires n < |seconds|
    ensures From(InSeconds(seconds[..n + 1]), cursor) == From(InSeconds(seconds[..n]), cursor) + From(InKeys(seconds[n].keys), cursor)
    ensures From(InKeys(seconds[n].keys), cursor) == [] ==> From(InSeconds(seconds[..n + 1]), cursor) == From(InSeconds(seconds[..n]), cursor)
    ensures From(InSeconds(seconds), cursor) ==
              From(InSeconds(seconds[..n]), cursor) + From(InKeys(seconds[n].keys), cursor) + From(InSeconds(seconds[n + 1..]), cursor)
  {
    assert seconds[..n + 1][..n] == seconds[..n];
    FromJoin(InSeconds(seconds[..n]), InKeys(seconds[n].keys), cursor);
    SecondsSplit(seconds, n + 1);
    FromJoin(InSeconds(seconds[..n + 1]), InSeconds(seconds[n + 1..]), cursor);
  }

  lemma SkippedSecond(dir: SecondDir, first: seq<int>, cursor: Option<Cursor>)
    requires SecondOk(dir, first) && cursor.Some? && |cursor.value.hash| == 64 && cursor.value.hash[..2] == first
    requires Less(dir.name, cursor.value.hash[2..4])
    ensures From(InKeys(dir.keys), cursor) == []
  {
    forall x | x in InKeys(dir.keys) ensures !Past(x, cursor) {
      KeysUnder(dir, first, x);
      ByDirectories(x.hash, cursor.value.hash);
      Asymmetric(x.hash, cursor.value.hash);
    }
    FromNone(InKeys(dir.keys), cursor);
  }

  lemma SecondFlagIs(dir: FirstDir, cursor: Option<Cursor>, onFirst: bool, n: nat)
    requires FirstOk(dir) && FirstFlag(dir, cursor, onFirst) && n < |dir.seconds|
    requires !(cursor.Some? && onFirst && Less(dir.seconds[n].name, cursor.value.hash[2..4]))
    ensures SecondOk(dir.seconds[n], dir.name)
    ensures SecondFlag(dir.seconds[n], dir.name, cursor,
                       cursor.Some? && onFirst && dir.seconds[n].name == cursor.value.hash[2..4])
  {
    assert dir.seconds[n] in dir.seconds;
    if cursor.Some? && !(onFirst && dir.seconds[n].name == cursor.value.hash[2..4]) {
      forall hash: seq<Byte> | Under(hash, dir.name, dir.seconds[n].name) ensures Less(cursor.value.hash, hash) {
        Total(dir.seconds[n].name, cursor.value.hash[2..4]);
        ByDirectories(cursor.value.hash, hash);
      }
    }
  }

  /** The loop over second-level directories. */
  method VisitSeconds(dir: FirstDir, cursor: Option<Cursor>, onFirst: bool, size: Item -> nat, page0: seq<Item>, bytes0: nat)
    returns (page: seq<Item>, bytes: nat, stopped: bool)
    requires FirstOk(dir) && FirstFlag(dir, cursor, onFirst) && Fits(page0, bytes0, size)
    ensures Fits(page, bytes, size)
    ensures Visited(page0, From(InSeconds(dir.seconds), cursor), page, stopped, size)
  {
    page, bytes, stopped := page0, bytes0, false;
    ghost var done := [];
    assert page0 == page0 + [];
    for n := 0 to |dir.seconds|
      invariant done == From(InSeconds(dir.seconds[..n]), cursor) && page == page0 + done
      invariant Fits(page, bytes, size)
    {
      SecondsNext(dir.seconds, n, cursor);
      assert dir.seconds[n] in dir.seconds;
      if cursor.Some? && onFirst && Less(dir.seconds[n].name, cursor.value.hash[2..4]) {
        SkippedSecond(dir.seconds[n], dir.name, cursor);
      } else {
        SecondFlagIs(dir, cursor, onFirst, n);
        var onSecond := cursor.Some? && onFirst && dir.seconds[n].name == cursor.value.hash[2..4];
        ghost var was, here := page, From(InKeys(dir.seconds[n].keys), cursor);
        page, bytes, stopped := VisitKeys(dir.seconds[n], dir.name, cursor, onSecond, size, page, bytes);
        VisitedBoth(page0, done, was, here, page, stopped, From(InSeconds(dir.seconds[n + 1..]), cursor), size);
        if stopped {
          return;
        }
        done := done + here;
      }
    }
    assert dir.seconds[..|dir.seconds|] == dir.seconds;
  }

  lemma WalkNext(bucket: seq<FirstDir>, n: nat, cursor: Option<Cursor>)
    requires n < |bucket|
    ensures From(Walk(bucket[..n + 1]), cursor) == From(Walk(bucket[..n]), cursor) + From(InSeconds(bucket[n].seconds), cursor)
    ensures From(Walk(bucket), cursor) ==
              From(Walk(bucket[..n]), cursor) + From(InSeconds(bucket[n].seconds), cursor) + From(Walk(bucket[n + 1..]), cursor)
  {
    assert bucket[..n + 1][..n] == bucket[..n];
    FromJoin(Walk(bucket[..n]), InSeconds(bucket[n].seconds), cursor);
    WalkSplit(bucket, n + 1);
    FromJoin(Walk(bucket[..n + 1]), Walk(bucket[n + 1..]), cursor);
  }

  lemma SkippedFirst(dir: FirstDir, cursor: Option<Cursor>)
    requires FirstOk(dir) && cursor.Some? && |cursor.value.hash| == 64 && Less(dir.name, cursor.value.hash[..2])
    ensures From(InSeconds(dir.seconds), cursor) == []
  {
    forall x | x in InSeconds(dir.seconds) ensures !Past(x, cursor) {
      SecondsMembers(dir.seconds, dir.name, x);
      ByDirectories(x.hash, cursor.value.hash);
      Asymmetric(x.hash, cursor.value.hash);
    }
    FromNone(InSeconds(dir.seconds), cursor);
  }

  /** One first-level directory: skipped, or visited with its flag. */
  method VisitFirst(dir: FirstDir, cursor: Option<Cursor>, size: Item -> nat, page0: seq<Item>, bytes0: nat)
    returns (page: seq<Item>, bytes: nat, stopped: bool)
    requires FirstOk(dir) && (cursor.Some? ==> |cursor.value.hash| == 64) && Fits(page0, bytes0, size)
    ensures Fits(page, bytes, size)
    ensures Visited(page0, From(InSeconds(dir.seconds), cursor), page, stopped, size)
  {
    if cursor.Some? && Less(dir.name, cursor.value.hash[..2]) {
      SkippedFirst(dir, cursor);
      assert page0 + [] == page0;
      return page0, bytes0, false;
    }
    if cursor.Some? {
      Total(dir.name, cursor.value.hash[..2]);
    }
    var onFirst := cursor.Some? && dir.name == cursor.value.hash[..2];
    page, bytes, stopped := VisitSeconds(dir, cursor, onFirst, size, page0, bytes0);
  }

  /** `local_records`: one page of the walk from the cursor, through the three
      levels; the page is what lies past the cursor, or a first part of it. */
  method LocalRecords(bucket: seq<FirstDir>, cursor: Option<Cursor>, size: Item -> nat)
    returns (page: seq<Item>, truncated: bool)
    requires BucketOk(bucket) && (cursor.Some? ==> |cursor.value.hash| == 64)
    ensures page <= From(Walk(bucket), cursor) && (truncated <==> page != From(Walk(bucket), cursor))
    ensures From(Walk(bucket), cursor) != [] ==> page != []
    ensures FitsFrame(page, size) && (truncated ==> Full(page, From(Walk(bucket), cursor), size))
  {
    page, truncated := [], false;
    var bytes := 0;
    for n := 0 to |bucket|
      invariant page == From(Walk(bucket[..n]), cursor) && Fits(page, bytes, size)
    {
      WalkNext(bucket, n, cursor);
      assert bucket[n] in bucket;
      ghost var was, here, rest := page, From(InSeconds(bucket[n].seconds), cursor), From(Walk(bucket[n + 1..]), cursor);
      page, bytes, truncated := VisitFirst(bucket[n], cursor, size, page, bytes);
      if truncated {
        StoppedBefore(was, here, rest, page, size);
        return;
      }
    }
    assert bucket[..|bucket|] == bucket;
  }

  lemma StoppedBefore(was: seq<Item>, here: seq<Item>, rest: seq<Item>, page: seq<Item>, size: Item -> nat)
    requires Visited(was, here, page, true, size)
    ensures Full(page, was + here + rest, size)
  {
  }

  // ------------------------------------------------------ page after page

  lemma UpToIsNotPast(items: seq<Item>, i: nat, x: Item)
    requires Ordered(items) && i < |items| && x in items[..i + 1]
    ensures !Past(x, Some(Place(items[i])))
  {
    var n :| 0 <= n < i + 1 && items[n] == x;
    PrecedesOrder(Place(items[i]), Place(x), Place(items[i]));
    PrecedesOrder(Place(x), Place(items[i]), Place(x));
  }

  lemma RestIsPast(items: seq<Item>, i: nat, x: Item)
    requires Ordered(items) && i < |items| && x in items[i + 1..]
    ensures Past(x, Some(Place(items[i])))
  {
    var n :| i < n < |items| && items[n] == x;
  }

  /** What lies past an item of an ordered sequence is the rest of it. */
  lemma PastItem(items: seq<Item>, i: nat)
    requires Ordered(items) && i < |items|
    ensures From(items, Some(Place(items[i]))) == items[i + 1..]
  {
    var cursor := Some(Place(items[i]));
    assert items == items[..i + 1] + items[i + 1..];
    FromJoin(items[..i + 1], items[i + 1..], cursor);
    forall x | x in items[..i + 1] ensures !Past(x, cursor) {
      UpToIsNotPast(items, i, x);
    }
    FromNone(items[..i + 1], cursor);
    forall x | x in items[i + 1..] ensures Past(x, cursor) {
      RestIsPast(items, i, x);
    }
    FromAll(items[i + 1..], cursor);
  }

  /** A page that was cut leaves exactly what its last record's cursor asks for. */
  lemma NextFrom(bucket: seq<FirstDir>, delivered: seq<Item>, page: seq<Item>)
    requires BucketOk(bucket) && delivered + page <= Walk(bucket) && page != []
    ensures var last := page[|page| - 1];
            |last.hash| == 64 && delivered + page + From(Walk(bucket), Some(Place(last))) == Walk(bucket)
  {
    WalkOrdered(bucket);
    var all, n := Walk(bucket), |delivered + page| - 1;
    assert all[n] == (delivered + page)[n] == page[|page| - 1];
    assert all[n] in all;
    WalkMembers(bucket, all[n]);
    PastItem(all, n);
  }

  /** Delivered, at hand and still to be asked for make up the walk. */
  ghost predicate Position(bucket: seq<FirstDir>, delivered: seq<Item>, page: seq<Item>, after: Option<Cursor>, exhausted: bool) {
    && BucketOk(bucket) && (after.Some? ==> |after.value.hash| == 64)
    && delivered + page + (if exhausted then [] else From(Walk(bucket), after)) == Walk(bucket)
  }

  lemma PositionFetched(bucket: seq<FirstDir>, delivered: seq<Item>, after: Option<Cursor>, records: seq<Item>, truncated: bool)
    requires Position(bucket, delivered, [], after, false)
    requires records <= From(Walk(bucket), after) && (truncated <==> records != From(Walk(bucket), after))
    requires From(Walk(bucket), after) != [] ==> records != []
    ensures Position(bucket, delivered, records, if records == [] then None else Some(Place(records[|records| - 1])),
                     !truncated || records == [])
  {
    Fetched(bucket, delivered, From(Walk(bucket), after), records);
  }

  lemma PositionPopped(bucket: seq<FirstDir>, delivered: seq<Item>, page: seq<Item>, after: Option<Cursor>, exhausted: bool)
    requires Position(bucket, delivered, page, after, exhausted)
    ensures page != [] ==>
              && Position(bucket, delivered + [page[0]], page[1..], after, exhausted)
              && delivered + [page[0]] <= Walk(bucket)
    ensures page == [] && exhausted ==> delivered == Walk(bucket)
  {
    if page != [] {
      PopFront(delivered, page, if exhausted then [] else From(Walk(bucket), after));
    } else {
      assert delivered + [] + [] == delivered;
    }
  }

  /** A page fetched where `rest` was still to come. */
  lemma Fetched(bucket: seq<FirstDir>, delivered: seq<Item>, rest: seq<Item>, records: seq<Item>)
    requires BucketOk(bucket) && delivered + [] + rest == Walk(bucket) && records <= rest && (rest != [] ==> records != [])
    ensures records == rest ==> delivered + records + [] == Walk(bucket)
    ensures records != [] ==>
              var last := records[|records| - 1];
              |last.hash| == 64 && delivered + records + From(Walk(bucket), Some(Place(last))) == Walk(bucket)
  {
    assert delivered + [] + rest == delivered + rest && delivered + records <= delivered + rest;
    if records != [] {
      NextFrom(bucket, delivered, records);
    }
  }

  lemma PopFront(delivered: seq<Item>, page: seq<Item>, rest: seq<Item>)
    requires page != []
    ensures delivered + page + rest == (delivered + [page[0]]) + page[1..] + rest
    ensures delivered + [page[0]] <= delivered + page + rest
  {
  }

  /** The page after the cursor, the cursor after it, and whether it is the last. */
  method FetchPage(bucket: seq<FirstDir>, after: Option<Cursor>, size: Item -> nat, ghost delivered: seq<Item>)
    returns (records: seq<Item>, next: Option<Cursor>, last: bool)
    requires Position(bucket, delivered, [], after, false)
    ensures Position(bucket, delivered, records, next, last) && (records == [] ==> last)
  {
    var truncated;
    records, truncated := LocalRecords(bucket, after, size);
    PositionFetched(bucket, delivered, after, records, truncated);
    next := if records == [] then None else Some(Place(records[|records| - 1]));
    last := !truncated || records == [];
  }

  /** One device's stream of records: a page at hand, and where the next one
      starts. */
  class DeviceStream {
    const bucket: seq<FirstDir>
    const size: Item -> nat
    var page: seq<Item>
    var after: Option<Cursor>
    var exhausted: bool
    ghost var delivered: seq<Item>

    ghost predicate Valid()
      reads this
    {
      Position(bucket, delivered, page, after, exhausted)
    }

    constructor (bucket: seq<FirstDir>, size: Item -> nat)
      requires BucketOk(bucket)
      ensures Valid() && delivered == [] && this.bucket == bucket
    {
      this.bucket, this.size := bucket, size;
      page, after, exhausted, delivered := [], None, false, [];
      new;
      FromAll(Walk(bucket), None);
    }

    method Fetch()
      requires Valid() && page == [] && !exhausted
      modifies this`page, this`after, this`exhausted
      ensures Valid() && (page == [] ==> exhausted)
    {
      page, after, exhausted := FetchPage(bucket, after, size, delivered);
    }

    /** `next`: the records of the walk one by one, then nothing more. */
    method Next() returns (r: Option<Item>)
      requires Valid()
      modifies this
      ensures Valid()
      ensures r.Some? ==> delivered == old(delivered) + [r.value] && delivered <= Walk(bucket)
      ensures r.None? ==> delivered == old(delivered) == Walk(bucket)
    {
      if page == [] && !exhausted {
        Fetch();
      }
      PositionPopped(bucket, delivered, page, after, exhausted);
      if page == [] {
        return None;
      }
      r := Some(page[0]);
      delivered := delivered + [page[0]];
      page := page[1..];
    }
  }

  /** Fetching until nothing more comes ends, and gives the whole walk, which is
      strictly increasing, so every readable record once. */
  method ReadAll(bucket: seq<FirstDir>, size: Item -> nat) returns (items: seq<Item>)
    requires BucketOk(bucket)
    ensures items == Walk(bucket) && Ordered(items)
  {
    var stream := new DeviceStream(bucket, size);
    items := [];
    while true
      invariant fresh(stream) && stream.Valid() && stream.bucket == bucket && items == stream.delivered <= Walk(bucket)
      decreases |Walk(bucket)| - |items|
    {
      var next := stream.Next();
      if next.None? {
        WalkOrdered(bucket);
        return;
      }
      items := items + [next.value];
    }
  }
}
