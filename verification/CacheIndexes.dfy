/** The cache tier's bookkeeping: what is tracked, how big it is, and in which order it
    was last used. */
module CacheIndexes {
  import opened Tilings
  import opened Bytes

  /** Where an object is kept: its content hash, or a key of the caller's. */
  datatype Key = Of(hash: Hash) | Keyed(name: string)

  datatype Slot = Slot(size: nat, tick: nat)

  function SatSub(a: nat, b: nat): nat {
    if a < b then 0 else a - b
  }

  // ----- sizes

  ghost function Sum(entries: map<Key, Slot>): nat
    decreases |entries|
  {
    if entries == map[] then 0
    else
      var h :| h in entries;
      entries[h].size + Sum(entries - {h})
  }

  lemma {:induction false} SumWithout(entries: map<Key, Slot>, h: Key)
    requires h in entries
    ensures Sum(entries) == entries[h].size + Sum(entries - {h})
    decreases |entries|
  {
    var k :| k in entries && Sum(entries) == entries[k].size + Sum(entries - {k});
    if k != h {
      SumWithout(entries - {k}, h);
      SumWithout(entries - {h}, k);
      assert entries - {k} - {h} == entries - {h} - {k};
    }
  }

  lemma SumWith(entries: map<Key, Slot>, h: Key, slot: Slot)
    ensures Sum(entries[h := slot]) == slot.size + Sum(entries - {h})
  {
    SumWithout(entries[h := slot], h);
    assert entries[h := slot] - {h} == entries - {h};
  }

  /** Tracking an object adds its size at most. */
  lemma SumTouched(entries: map<Key, Slot>, h: Key, slot: Slot)
    ensures Sum(entries[h := slot]) <= Sum(entries) + slot.size
    ensures h !in entries ==> Sum(entries[h := slot]) == Sum(entries) + slot.size
  {
    hide Sum;
    SumWith(entries, h, slot);
    if h in entries {
      SumWithout(entries, h);
    } else {
      assert entries - {h} == entries;
    }
  }

  /** A nonempty set of aged hashes has an oldest. */
  lemma {:induction false} HasOldest(ages: set<(nat, Key)>)
    requires ages != {}
    ensures exists a :: IsOldest(ages, a)
    decreases |ages|
  {
    var a :| a in ages;
    if b :| b in ages && b.0 < a.0 {
      HasOldest(ages - {a});
      var c :| IsOldest(ages - {a}, c);
      assert b in ages - {a};
      assert IsOldest(ages, c);
    } else {
      assert IsOldest(ages, a);
    }
  }

  predicate IsOldest(ages: set<(nat, Key)>, a: (nat, Key)) {
    a in ages && forall b | b in ages :: a.0 <= b.0
  }

  /** `h` was last used at `uses[i]`. */
  ghost predicate LastUsedAt(uses: seq<Key>, h: Key, i: nat) {
    i < |uses| && uses[i] == h && forall j | i < j < |uses| :: uses[j] != h
  }

  /** `g` was used after the last use of `h`. */
  ghost predicate UsedSince(uses: seq<Key>, h: Key, g: Key) {
    exists i, j :: i < j && LastUsedAt(uses, h, i) && LastUsedAt(uses, g, j)
  }

  ghost predicate LeastRecent(uses: seq<Key>, tracked: set<Key>, victim: Key) {
    victim in tracked && forall h | h in tracked && h != victim :: UsedSince(uses, victim, h)
  }

  class CacheIndex {
    var entries: map<Key, Slot>
    var byAge: set<(nat, Key)>
    var bytes: nat
    var tick: nat
    ghost var uses: seq<Key>

    /** The two tables are inverses, ticks number the uses, and an entry's is its last. */
    ghost predicate Valid()
      reads this
    {
      && (forall t, h :: (t, h) in byAge <==> h in entries && entries[h].tick == t)
      && tick == |uses|
      && (forall h | h in entries :: entries[h].tick > 0 && LastUsedAt(uses, h, entries[h].tick - 1))
      && bytes < U64
    }

    ghost predicate Exact()
      reads this
    {
      bytes == Sum(entries)
    }

    constructor ()
      ensures Valid() && Exact() && entries == map[] && uses == []
    {
      entries, byAge, bytes, tick, uses := map[], {}, 0, 0, [];
    }

    /** The byte count is the sum of sizes as long as that fits 64 bits, and sticks at the
        largest value otherwise. */
    method Touch(h: Key, size: nat)
      requires Valid() && size < U64
      modifies this
      ensures Valid() && uses == old(uses) + [h]
      ensures entries == old(entries)[h := Slot(size, tick)]
      ensures old(Exact()) ==> bytes == if Sum(entries) < U64 then Sum(entries) else U64 - 1
    {
      hide Sum;
      ghost var was := entries;
      tick, uses := tick + 1, uses + [h];
      if h in entries {
        SumWithout(entries, h);
        byAge := byAge - {(entries[h].tick, h)};
        bytes := SatSub(bytes, entries[h].size);
      }
      SumWith(was, h, Slot(size, tick));
      assert h !in was ==> was - {h} == was;
      entries := entries[h := Slot(size, tick)];
      byAge := byAge + {(tick, h)};
      bytes := SatAdd(bytes, size);
    }

    method Forget(h: Key)
      requires Valid()
      modifies this
      ensures Valid() && entries == old(entries) - {h} && uses == old(uses) && tick == old(tick)
      ensures old(Exact()) ==> Exact()
      ensures bytes <= old(bytes)
    {
      hide Sum;
      if h in entries {
        SumWithout(entries, h);
        byAge := byAge - {(entries[h].tick, h)};
        bytes := SatSub(bytes, entries[h].size);
        entries := entries - {h};
      }
    }

    /** The tracked object whose last use is the longest ago. */
    method Lru() returns (victim: Option<Key>)
      requires Valid()
      ensures victim.None? <==> entries == map[]
      ensures victim.Some? ==>
        && victim.value in entries
        && forall h | h in entries && h != victim.value :: entries[victim.value].tick < entries[h].tick
      ensures victim.Some? ==> LeastRecent(uses, entries.Keys, victim.value)
    {
      assert forall h | h in entries :: (entries[h].tick, h) in byAge;
      if byAge == {} {
        return None;
      }
      HasOldest(byAge);
      var oldest :| IsOldest(byAge, oldest);
      var h := oldest.1;
      victim := Some(h);
      forall g | g in entries && g != h ensures entries[h].tick < entries[g].tick {
        assert (entries[g].tick, g) in byAge;
        assert LastUsedAt(uses, g, entries[g].tick - 1) && LastUsedAt(uses, h, entries[h].tick - 1);
      }
      assert LastUsedAt(uses, h, entries[h].tick - 1);
      forall g | g in entries && g != h ensures UsedSince(uses, h, g) {
        assert LastUsedAt(uses, g, entries[g].tick - 1);
      }
    }
  }
}
