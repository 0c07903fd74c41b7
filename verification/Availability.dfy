/** The scrub's count of versions by how many of their shards are available, and
    how repairs move it (crates/djbod-node/src/coordinator.rs:4345-4375,
    4568-4578). */
module Availability {
  import opened Prelude

  /** Shards in all, shards available, and k. */
  datatype Bucket = Bucket(total: nat, available: nat, k: nat)

  type Key = seq<Byte>

  function WholeOf(b: Bucket): (w: Bucket)
    ensures w.available == w.total && w.(available := b.available) == b
  {
    Bucket(b.total, b.total, b.k)
  }

  ghost function KeysIn(damaged: map<Key, Bucket>, b: Bucket): set<Key> {
    set k | k in damaged && damaged[k] == b
  }

  /** Mapping one key anew moves it between buckets. */
  lemma KeysAfterInsert(damaged: map<Key, Bucket>, key: Key, at: Bucket, b: Bucket)
    ensures |KeysIn(damaged[key := at], b)| <= |KeysIn(damaged, b)| + (if b == at then 1 else 0)
  {
    SubsetCount(KeysIn(damaged[key := at], b), KeysIn(damaged, b) + (if b == at then {key} else {}));
  }

  lemma KeysAfterRemove(damaged: map<Key, Bucket>, key: Key, b: Bucket)
    requires key in damaged
    ensures |KeysIn(damaged - {key}, b)| == |KeysIn(damaged, b)| - (if b == damaged[key] then 1 else 0)
  {
    var now, was := KeysIn(damaged - {key}, b), KeysIn(damaged, b);
    if b == damaged[key] {
      assert was == now + {key};
    } else {
      assert was == now;
    }
  }

  /** The counts are those of the versions, without empty buckets. */
  ghost predicate Tallies(availability: map<Bucket, nat>, versions: multiset<Bucket>) {
    && (forall b :: b in availability <==> b in versions)
    && (forall b :: b in availability ==> availability[b] == versions[b])
  }

  function OneMore(availability: map<Bucket, nat>, b: Bucket): map<Bucket, nat> {
    availability[b := (if b in availability then availability[b] else 0) + 1]
  }

  /** A bucket whose count reaches zero is dropped. */
  function OneLess(availability: map<Bucket, nat>, b: Bucket): map<Bucket, nat>
    requires b in availability && availability[b] >= 1
  {
    if availability[b] == 1 then availability - {b} else availability[b := availability[b] - 1]
  }

  lemma OneMoreTallies(availability: map<Bucket, nat>, versions: multiset<Bucket>, b: Bucket)
    requires Tallies(availability, versions)
    ensures Tallies(OneMore(availability, b), versions + multiset{b})
  {
  }

  lemma OneLessTallies(availability: map<Bucket, nat>, versions: multiset<Bucket>, b: Bucket)
    requires Tallies(availability, versions) && b in versions
    ensures b in availability && availability[b] >= 1
    ensures Tallies(OneLess(availability, b), versions - multiset{b})
  {
  }

  /** Each bucket counts at least the damaged keys mapped to it. */
  ghost predicate Covers(versions: multiset<Bucket>, damaged: map<Key, Bucket>) {
    forall b :: |KeysIn(damaged, b)| <= versions[b]
  }

  lemma DamagedIsCounted(versions: multiset<Bucket>, damaged: map<Key, Bucket>, key: Key)
    requires Covers(versions, damaged) && key in damaged
    ensures damaged[key] in versions
  {
    assert key in KeysIn(damaged, damaged[key]);
    assert |KeysIn(damaged, damaged[key])| > 0;
  }

  lemma CoversAfterRepair(versions: multiset<Bucket>, damaged: map<Key, Bucket>, key: Key)
    requires Covers(versions, damaged) && key in damaged
    ensures Covers(versions - multiset{damaged[key]} + multiset{WholeOf(damaged[key])}, damaged - {key})
    ensures |versions - multiset{damaged[key]} + multiset{WholeOf(damaged[key])}| == |versions|
  {
    DamagedIsCounted(versions, damaged, key);
    var now := versions - multiset{damaged[key]} + multiset{WholeOf(damaged[key])};
    forall b ensures |KeysIn(damaged - {key}, b)| <= now[b] {
      KeysAfterRemove(damaged, key, b);
    }
  }

  class CrossCheckOutcome {
    var availability: map<Bucket, nat>
    /** For every key that is not whole, where its version was counted. */
    var damaged: map<Key, Bucket>
    /** The bucket every version checked is in now. */
    ghost var versions: multiset<Bucket>

    ghost predicate Valid()
      reads this
    {
      && Tallies(availability, versions) && Covers(versions, damaged)
      && (forall k :: k in damaged ==> damaged[k].available < damaged[k].total)
    }

    constructor ()
      ensures Valid() && versions == multiset{} && damaged == map[]
    {
      availability, damaged, versions := map[], map[], multiset{};
      new;
      forall b ensures KeysIn(damaged, b) == {} {
      }
    }

    /** The merge counts a version it checked. */
    method Count(key: Key, b: Bucket)
      requires Valid() && b.available <= b.total
      modifies this
      ensures Valid() && versions == old(versions) + multiset{b}
      ensures damaged == if b.available < b.total then old(damaged)[key := b] else old(damaged)
    {
      OneMoreTallies(availability, versions, b);
      availability := OneMore(availability, b);
      versions := versions + multiset{b};
      if b.available < b.total {
        forall x ensures |KeysIn(damaged[key := b], x)| <= versions[x] {
          KeysAfterInsert(damaged, key, b, x);
        }
        damaged := damaged[key := b];
      }
    }

    /** `note_repaired`: the key's version moves to whole. The count it leaves is
        never zero, so nothing underflows, and no version is lost or made. */
    method NoteRepaired(key: Key)
      requires Valid()
      modifies this
      ensures Valid() && |versions| == |old(versions)|
      ensures key !in old(damaged) ==> unchanged(this)
      ensures key in old(damaged) ==>
                && old(damaged)[key] in old(versions)
                && versions == old(versions) - multiset{old(damaged)[key]} + multiset{WholeOf(old(damaged)[key])}
                && damaged == old(damaged) - {key}
    {
      if key !in damaged {
        return;
      }
      var b := damaged[key];
      DamagedIsCounted(versions, damaged, key);
      CoversAfterRepair(versions, damaged, key);
      OneLessTallies(availability, versions, b);
      damaged := damaged - {key};
      availability := OneLess(availability, b);
      versions := versions - multiset{b};
      OneMoreTallies(availability, versions, WholeOf(b));
      availability := OneMore(availability, WholeOf(b));
      versions := versions + multiset{WholeOf(b)};
    }

    /** Any sequence of repairs: the total never changes, and once every damaged
        key was among them none is left. */
    method NoteAllRepaired(keys: seq<Key>)
      requires Valid()
      modifies this
      ensures Valid() && |versions| == |old(versions)|
      ensures forall k :: k in damaged <==> k in old(damaged) && k !in keys
      ensures forall k :: k in damaged ==> damaged[k] == old(damaged)[k]
    {
      for n := 0 to |keys|
        invariant Valid() && |versions| == |old(versions)|
        invariant forall k :: k in damaged <==> k in old(damaged) && k !in keys[..n]
        invariant forall k :: k in damaged ==> damaged[k] == old(damaged)[k]
      {
        NoteRepaired(keys[n]);
        assert keys[..n + 1] == keys[..n] + [keys[n]];
      }
      assert keys[..|keys|] == keys;
    }
  }
}
