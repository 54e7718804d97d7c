/** A bounded local cache in front of an authoritative backend. The cache may hold anything
    under any hash, lose entries, and refuse writes and deletes; the backend does as it is
    told. */
module TieredStores {
  import opened Tilings
  import opened Bytes
  import opened CacheIndexes

  datatype Limits = Limits(maxBytes: Option<nat>, floor: bool)

  function KeyOf(bytes: Data): Key {
    Of(Hash(bytes))
  }

  /** `[off, off + len)` clamped to the object's end. */
  function Range(data: Data, off: nat, len: nat): Data {
    var start := if off < |data| then off else |data|;
    data[start..if start + len < |data| then start + len else |data|]
  }

  /** A range reads the bytes at its offset, as far as there are any. */
  lemma RangeBytes(data: Data, off: nat, len: nat)
    ensures |Range(data, off, len)| == (if off >= |data| then 0 else if off + len < |data| then len else |data| - off)
    ensures forall i | 0 <= i < |Range(data, off, len)| :: Range(data, off, len)[i] == data[off + i]
  {
  }

  /** A cached copy that may be served: one that hashes to where it is kept. */
  predicate Genuine(cache: map<Key, Data>, h: Key) {
    h in cache && KeyOf(cache[h]) == h
  }

  /** Only removals, oldest first. */
  ghost predicate Evicted(before: map<Key, Slot>, after: map<Key, Slot>) {
    && (forall h | h in after :: h in before && after[h] == before[h])
    && (forall v, k | v in before && v !in after && k in after :: before[v].tick < before[k].tick)
  }

  /** Inside the size limit, or down to one entry. */
  predicate Within(limits: Limits, bytes: nat, entries: map<Key, Slot>) {
    (limits.maxBytes.Some? ==> bytes <= limits.maxBytes.value) || |entries| <= 1
  }

  predicate Over(limits: Limits, bytes: nat) {
    limits.maxBytes.Some? && bytes > limits.maxBytes.value
  }

  /** The cache once what is no longer tracked was deleted, as far as deletes succeed. */
  ghost function Swept(cache: map<Key, Data>, before: map<Key, Slot>, after: map<Key, Slot>,
                       deletes: Key -> bool): map<Key, Data> {
    map g | g in cache && !(g in before && g !in after && deletes(g)) :: cache[g]
  }

  /** The entries used no earlier than `v`. */
  ghost function NoOlder(entries: map<Key, Slot>, v: Key): map<Key, Slot>
    requires v in entries
  {
    map h | h in entries && entries[h].tick >= entries[v].tick :: entries[h]
  }

  /** With these entries left, one has to go: too many bytes, or the disk is low. */
  ghost predicate Needed(limits: Limits, low: nat -> bool, entries: map<Key, Slot>) {
    |entries| > 1 && (Over(limits, Sum(entries)) || (limits.floor && low(|entries|)))
  }

  /** Nothing was evicted that did not have to be: each victim and all used since it were
      too much together. */
  ghost predicate OnlyNeeded(limits: Limits, low: nat -> bool, before: map<Key, Slot>, after: map<Key, Slot>) {
    forall v | v in before && v !in after :: Needed(limits, low, NoOlder(before, v))
  }

  /** What is left of the cache `held` and the entries `touched` once the limits were
      enforced; when the count is exact, no more went than had to. */
  ghost predicate Trimmed(limits: Limits, tier: Tier, held: map<Key, Data>, touched: map<Key, Slot>,
                          cache: map<Key, Data>, entries: map<Key, Slot>, exact: bool) {
    && Evicted(touched, entries)
    && cache == Swept(held, touched, entries, tier.deletes)
    && (exact ==> OnlyNeeded(limits, tier.low, touched, entries))
  }

  lemma NothingEvicted(cache: map<Key, Data>, entries: map<Key, Slot>, limits: Limits, tier: Tier)
    ensures Evicted(entries, entries) && Swept(cache, entries, entries, tier.deletes) == cache
    ensures OnlyNeeded(limits, tier.low, entries, entries)
  {
  }

  /** The oldest of those left goes next. */
  lemma EvictedMore(a: map<Key, Slot>, b: map<Key, Slot>, victim: Key)
    requires Evicted(a, b) && victim in b
    requires forall h | h in b && h != victim :: b[victim].tick < b[h].tick
    ensures Evicted(a, b - {victim}) && NoOlder(a, victim) == b
  {
  }

  lemma SweptMore(cache: map<Key, Data>, a: map<Key, Slot>, b: map<Key, Slot>, victim: Key, deletes: Key -> bool)
    requires victim in b && forall h | h in b :: h in a
    ensures Swept(cache, a, b - {victim}, deletes)
         == if deletes(victim) then Swept(cache, a, b, deletes) - {victim} else Swept(cache, a, b, deletes)
  {
  }

  lemma NeededMore(limits: Limits, low: nat -> bool, a: map<Key, Slot>, b: map<Key, Slot>, victim: Key)
    requires OnlyNeeded(limits, low, a, b) && victim in a && NoOlder(a, victim) == b && Needed(limits, low, b)
    ensures OnlyNeeded(limits, low, a, b - {victim})
  {
    hide Needed, NoOlder;
  }

  /** One more round of eviction. */
  lemma OneGoes(limits: Limits, tier: Tier, was: map<Key, Slot>, left: map<Key, Slot>, victim: Key,
                cache: map<Key, Data>, exact: bool)
    requires Evicted(was, left) && victim in left && |left| > 1
    requires forall h | h in left && h != victim :: left[victim].tick < left[h].tick
    requires exact ==> OnlyNeeded(limits, tier.low, was, left)
    requires exact ==> Over(limits, Sum(left)) || (limits.floor && tier.low(|left|))
    ensures var fewer := left - {victim};
      && Evicted(was, fewer) && fewer != was && fewer != map[] && |fewer| < |left|
      && (exact ==> OnlyNeeded(limits, tier.low, was, fewer))
      && var swept := Swept(cache, was, left, tier.deletes);
         Swept(cache, was, fewer, tier.deletes) == if tier.deletes(victim) then swept - {victim} else swept
  {
    hide Swept, NoOlder, OnlyNeeded, Sum;
    EvictedMore(was, left, victim);
    SweptMore(cache, was, left, victim, tier.deletes);
    if exact {
      NeededMore(limits, tier.low, was, left, victim);
    }
    FewerLeft(left, victim);
  }

  /** What every eviction spares: the entry used last. */
  lemma NewestStays(before: map<Key, Slot>, after: map<Key, Slot>, newest: Key)
    requires Evicted(before, after) && after != map[]
    requires newest in before && forall h | h in before && h != newest :: before[h].tick < before[newest].tick
    ensures newest in after
  {
    var k :| k in after;
    assert k in before && before[k].tick <= before[newest].tick;
  }

  /** What the cache tier does this time: whether it can tell what it has, whether its
      reads, writes and deletes succeed, and whether the disk is low when asked with so
      many objects tracked. */
  datatype Tier = Tier(sees: bool, reads_: bool, writes: bool, deletes: Key -> bool, low: nat -> bool)

  /** The sizes of some of the cached objects, as they would be tracked. */
  ghost function Sized(cache: map<Key, Data>, some: set<Key>): map<Key, Slot> {
    map h | h in some && h in cache :: Slot(|cache[h]|, 0)
  }

  lemma SizedStep(cache: map<Key, Data>, some: set<Key>, h: Key)
    requires h in some && h in cache
    ensures Sum(Sized(cache, some)) == |cache[h]| + Sum(Sized(cache, some - {h}))
  {
    hide Sum;
    SumWithout(Sized(cache, some), h);
    assert Sized(cache, some) - {h} == Sized(cache, some - {h});
  }

  /** Exactly the cached objects that can be sized are tracked anew, at the size they have;
      what else was tracked is as it was. */
  ghost predicate TracksAll(cache: map<Key, Data>, before: map<Key, Slot>, after: map<Key, Slot>, sizes: Key -> bool) {
    && (forall h | h in cache && sizes(h) :: h in after && after[h].size == |cache[h]|)
    && (forall h | !(h in cache && sizes(h)) ::
          (h in after <==> h in before) && (h in before ==> after[h] == before[h]))
  }

  /** So far for all but those in `left`. */
  ghost predicate TracksSome(cache: map<Key, Data>, before: map<Key, Slot>, after: map<Key, Slot>, sizes: Key -> bool,
                             left: set<Key>) {
    && (forall h | h in cache && h !in left && sizes(h) :: h in after && after[h].size == |cache[h]|)
    && (forall h | !(h in cache && h !in left && sizes(h)) ::
          (h in after <==> h in before) && (h in before ==> after[h] == before[h]))
  }

  lemma NoneTracked(cache: map<Key, Data>, entries: map<Key, Slot>, sizes: Key -> bool)
    ensures TracksSome(cache, entries, entries, sizes, cache.Keys)
  {
  }

  lemma OneMoreTracked(cache: map<Key, Data>, before: map<Key, Slot>, was: map<Key, Slot>, sizes: Key -> bool,
                       left: set<Key>, h: Key, tick: nat)
    requires TracksSome(cache, before, was, sizes, left) && h in left && h in cache
    ensures var after := if sizes(h) then was[h := Slot(|cache[h]|, tick)] else was;
      TracksSome(cache, before, after, sizes, left - {h})
  {
  }

  lemma AllTracked(cache: map<Key, Data>, before: map<Key, Slot>, after: map<Key, Slot>, sizes: Key -> bool)
    requires TracksSome(cache, before, after, sizes, {})
    ensures TracksAll(cache, before, after, sizes)
  {
  }

  class TieredStore {
    const limits: Limits
    const index: CacheIndex
    var cache: map<Key, Data>
    var backend: map<Key, Data>

    /** Between calls what is counted is inside the limit, or one entry is left. */
    ghost predicate Valid()
      reads this, index
    {
      index.Valid() && Within(limits, index.bytes, index.entries)
    }

    /** What is counted is the sum of the tracked sizes, so they are what is bounded. */
    ghost predicate Accounted()
      reads this, index
    {
      index.Exact() && Within(limits, Sum(index.entries), index.entries)
    }

    /** One more object of this size cannot overflow the count. */
    ghost predicate Room(size: nat)
      reads this, index
    {
      Sum(index.entries) + size < U64
    }

    constructor (limits: Limits, cache: map<Key, Data>, backend: map<Key, Data>)
      ensures Valid() && Accounted() && fresh(index) && index.entries == map[]
      ensures this.limits == limits && this.cache == cache && this.backend == backend
    {
      this.limits, this.cache, this.backend := limits, cache, backend;
      index := new CacheIndex();
    }

    predicate Unbounded() {
      limits.maxBytes.None? && !limits.floor
    }

    /** Evict the least recently used until inside the limits, and no more than that takes.
        Whether the disk is low is asked afresh each time round; a delete that fails is
        not retried. */
    method EnforceLimits(tier: Tier)
      requires index.Valid()
      modifies this`cache, index
      ensures Valid()
      ensures Evicted(old(index.entries), index.entries)
      ensures old(index.entries) != map[] ==> index.entries != map[]
      ensures !Over(limits, old(index.bytes)) && !(limits.floor && tier.low(|old(index.entries)|)) ==>
        index.entries == old(index.entries) && cache == old(cache)
      ensures |old(index.entries)| <= 1 ==> index.entries == old(index.entries) && cache == old(cache)
      ensures |index.entries| > 1 ==> !Over(limits, index.bytes) && !(limits.floor && tier.low(|index.entries|))
      ensures cache == Swept(old(cache), old(index.entries), index.entries, tier.deletes)
      ensures index.uses == old(index.uses) && index.tick == old(index.tick) && index.bytes <= old(index.bytes)
      ensures old(index.Exact()) ==> Accounted() && OnlyNeeded(limits, tier.low, old(index.entries), index.entries)
    {
      hide Sum, LeastRecent, Evicted, Swept, NoOlder, OnlyNeeded, Needed, LastUsedAt, index.Valid;
      NothingEvicted(cache, index.entries, limits, tier);
      ghost var was := index.entries;
      while true
        invariant index.Valid() && Evicted(was, index.entries)
        invariant was != map[] ==> index.entries != map[]
        invariant index.entries != was ==>
          |was| > 1 && (Over(limits, old(index.bytes)) || (limits.floor && tier.low(|was|)))
        invariant index.entries == was ==> cache == old(cache) && index.bytes == old(index.bytes)
        invariant cache == Swept(old(cache), was, index.entries, tier.deletes)
        invariant index.uses == old(index.uses) && index.tick == old(index.tick) && index.bytes <= old(index.bytes)
        invariant old(index.Exact()) ==> index.Exact() && OnlyNeeded(limits, tier.low, was, index.entries)
        decreases |index.entries|
      {
        var overDisk := limits.floor && tier.low(|index.entries|);
        var overSize := limits.maxBytes.Some? && index.bytes > limits.maxBytes.value;
        if !((overSize || overDisk) && |index.entries| > 1) {
          return;
        }
        var victim := index.Lru();
        if victim.None? {
          return;
        }
        OneGoes(limits, tier, was, index.entries, victim.value, old(cache), old(index.Exact()));
        if tier.deletes(victim.value) {
          cache := cache - {victim.value};
        }
        index.Forget(victim.value);
      }
    }

    /** The object just stored or read is tracked as the last one used, and is not what
        eviction takes; one that fits evicts nothing. */
    method Record(h: Key, size: nat, tier: Tier)
      requires Valid() && size < U64
      modifies this`cache, index
      ensures Valid()
      ensures old(Accounted() && Room(size)) ==> Accounted()
      ensures Unbounded() ==> cache == old(cache) && index.entries == old(index.entries)
      ensures !Unbounded() ==> h in index.entries && index.entries[h] == Slot(size, index.tick)
      ensures !Unbounded() ==> index.uses == old(index.uses) + [h]
      ensures var touched := old(index.entries)[h := Slot(size, index.tick)];
        !Unbounded() ==>
          && Trimmed(limits, tier, old(cache), touched, cache, index.entries, old(Accounted() && Room(size)))
          && (old(Accounted() && Room(size)) && !limits.floor && !Over(limits, Sum(touched)) ==>
                index.entries == touched && cache == old(cache))
      ensures forall g | g in index.entries && g != h ::
        g in old(index.entries) && index.entries[g] == old(index.entries)[g]
      ensures forall g | g in cache :: g in old(cache) && cache[g] == old(cache)[g]
      ensures forall g | g in old(cache) && g !in cache :: g != h && g in old(index.entries) && g !in index.entries
    {
      hide Sum, Evicted, Swept, LastUsedAt, Within, OnlyNeeded;
      if limits.maxBytes.None? && !limits.floor {
        return;
      }
      ghost var was := index.entries;
      TrackIt(h, size);
      ghost var touched := index.entries;
      TicksWithin(index, h);
      EnforceLimits(tier);
      NewestStays(touched, index.entries, h);
      OnlyEvicted(was, touched, index.entries, h, Slot(size, index.tick), old(cache), tier.deletes);
    }

    /** Track the object; the count stays exact while there is room. */
    method TrackIt(h: Key, size: nat)
      requires index.Valid() && size < U64
      modifies index
      ensures index.Valid() && index.uses == old(index.uses) + [h]
      ensures index.entries == old(index.entries)[h := Slot(size, index.tick)]
      ensures old(index.Exact() && Room(size)) ==> index.Exact()
      ensures Sum(index.entries) <= Sum(old(index.entries)) + size
    {
      hide Sum, LastUsedAt;
      SumTouched(index.entries, h, Slot(size, index.tick + 1));
      index.Touch(h, size);
    }

    method Evict(h: Key, tier: Tier)
      requires Valid()
      modifies this`cache, index
      ensures Valid() && index.entries == old(index.entries) - {h} && index.tick == old(index.tick)
      ensures old(Accounted()) ==> Accounted() && Sum(index.entries) <= Sum(old(index.entries))
      ensures cache == if tier.deletes(h) then old(cache) - {h} else old(cache)
    {
      hide Sum;
      if tier.deletes(h) {
        cache := cache - {h};
      }
      if h in index.entries {
        FewerLeft(index.entries, h);
        SumWithout(index.entries, h);
      }
      index.Forget(h);
      assert h !in old(index.entries) ==> index.entries == old(index.entries);
    }

    /** Account for what the cache held before this process: all that can be sized is
        tracked at its size, then what is over the limits is evicted. */
    method WarmIndex(sizes: Key -> bool, tier: Tier) returns (ghost tracked: map<Key, Slot>)
      requires Valid() && forall h | h in cache :: |cache[h]| < U64
      modifies this`cache, index
      ensures Valid() && Evicted(tracked, index.entries)
      ensures old(Accounted() && Room(Sum(Sized(cache, cache.Keys)))) ==>
        Accounted() && (!Unbounded() ==> OnlyNeeded(limits, tier.low, tracked, index.entries))
      ensures Unbounded() ==> tracked == index.entries == old(index.entries) && cache == old(cache)
      ensures !Unbounded() ==> TracksAll(old(cache), old(index.entries), tracked, sizes)
      ensures cache == Swept(old(cache), tracked, index.entries, tier.deletes)
    {
      hide LastUsedAt, Sum, Sized, Evicted, Swept, Within, OnlyNeeded, TracksAll, index.Valid;
      NothingEvicted(cache, index.entries, limits, tier);
      if limits.maxBytes.None? && !limits.floor {
        tracked := index.entries;
        return;
      }
      SizeAll(sizes);
      tracked := index.entries;
      EnforceLimits(tier);
    }

    /** Track every cached object that can be sized. */
    method SizeAll(sizes: Key -> bool)
      requires index.Valid() && forall h | h in cache :: |cache[h]| < U64
      modifies index
      ensures index.Valid()
      ensures old(index.Exact() && Room(Sum(Sized(cache, cache.Keys)))) ==> index.Exact()
      ensures TracksAll(cache, old(index.entries), index.entries, sizes)
    {
      hide LastUsedAt, Sum, Sized, TracksSome, index.Valid, index.Exact;
      var left := cache.Keys;
      NoneTracked(cache, index.entries, sizes);
      while left != {}
        invariant index.Valid() && left <= cache.Keys
        invariant TracksSome(cache, old(index.entries), index.entries, sizes, left)
        invariant old(index.Exact() && Room(Sum(Sized(cache, cache.Keys)))) ==>
          index.Exact() && Room(Sum(Sized(cache, left)))
        decreases |left|
      {
        var h :| h in left;
        SizedStep(cache, left, h);
        ghost var was := index.entries;
        if sizes(h) {
          TrackIt(h, |cache[h]|);
        }
        OneMoreTracked(cache, old(index.entries), was, sizes, left, h, index.tick);
        left := left - {h};
      }
      AllTracked(cache, old(index.entries), index.entries, sizes);
    }

    /** Write-through; caching is best-effort. */
    method Put(bytes: Data, tier: Tier) returns (h: Key)
      requires Valid() && |bytes| < U64
      modifies this`cache, this`backend, index
      ensures Valid() && h == KeyOf(bytes) && backend == old(backend)[h := bytes]
      ensures old(Accounted() && Room(|bytes|)) ==> Accounted()
      ensures tier.writes ==> h in cache && cache[h] == bytes
      ensures tier.writes && !Unbounded() ==> h in index.entries && index.entries[h] == Slot(|bytes|, index.tick)
      ensures tier.writes && !Unbounded() ==>
        Trimmed(limits, tier, old(cache)[h := bytes], old(index.entries)[h := Slot(|bytes|, index.tick)],
                cache, index.entries, old(Accounted() && Room(|bytes|)))
      ensures tier.writes && old(Accounted() && Room(|bytes|)) && !limits.floor ==>
        var touched := old(index.entries)[h := Slot(|bytes|, index.tick)];
        !Over(limits, Sum(touched)) ==> cache == old(cache)[h := bytes] && (!Unbounded() ==> index.entries == touched)
      ensures !tier.writes ==> cache == old(cache) && index.entries == old(index.entries)
      ensures forall g | g in cache && g != h :: g in old(cache) && cache[g] == old(cache)[g]
    {
      hide Sum;
      h := KeyOf(bytes);
      backend := backend[h := bytes];
      if tier.writes {
        cache := cache[h := bytes];
        Record(h, |bytes|, tier);
      }
    }

    /** The cached copy is replaced or dropped; if both fail, what was there stays. */
    method ReplaceKeyed(key: Key, bytes: Data, tier: Tier)
      requires Valid() && |bytes| < U64
      modifies this`cache, this`backend, index
      ensures Valid() && backend == old(backend)[key := bytes]
      ensures old(Accounted() && Room(|bytes|)) ==> Accounted()
      ensures tier.writes ==> Find(cache, key) == Some(bytes)
      ensures tier.writes && !Unbounded() ==>
        Trimmed(limits, tier, old(cache)[key := bytes], old(index.entries)[key := Slot(|bytes|, index.tick)],
                cache, index.entries, old(Accounted() && Room(|bytes|)))
      ensures !tier.writes ==> key !in index.entries
      ensures !tier.writes ==> Find(cache, key) == if tier.deletes(key) then None else Find(old(cache), key)
      ensures forall g | g in cache && g != key :: g in old(cache) && cache[g] == old(cache)[g]
    {
      hide Sum;
      backend := backend[key := bytes];
      if tier.writes {
        cache := cache[key := bytes];
        Record(key, |bytes|, tier);
      } else {
        Evict(key, tier);
      }
    }

    /** A genuine cached copy that can be read answers; otherwise the backend does. So a
        content-addressed object the backend holds is read right, whatever the cache holds,
        loses or garbles. Bytes fetched are cached under their own hash but accounted for
        under `h`: what was just cached is the entry last used if and only if the object is
        kept under its hash. */
    method Get(h: Key, tier: Tier) returns (r: Option<Data>)
      requires Valid() && (forall g | g in cache :: |cache[g]| < U64) && (forall g | g in backend :: |backend[g]| < U64)
      modifies this`cache, index
      ensures Valid()
      ensures old(Accounted()) && Sum(old(index.entries)) + (if r.Some? then |r.value| else 0) < U64 ==> Accounted()
      ensures r == if tier.reads_ && Genuine(old(cache), h) then Some(old(cache)[h]) else Find(backend, h)
      ensures h in backend && KeyOf(backend[h]) == h ==> r == Some(backend[h])
      ensures forall g | g in cache ::
                Find(old(cache), g) == Some(cache[g]) || (Find(backend, h) == Some(cache[g]) && g == KeyOf(cache[g]))
      ensures Stores(old(cache), backend, h, tier) ==>
        var at := KeyOf(backend[h]);
        && (at in cache || (at in old(index.entries) && at != h))
        && (at in cache ==> cache[at] == backend[h])
        && (tier.deletes(h) && at != h ==> h !in cache)
        && (!Unbounded() ==> h in index.entries && index.entries[h] == Slot(|backend[h]|, index.tick))
        && (!Unbounded() ==> (LastUsed(at) <==> at == h))
      ensures forall g | g in index.entries && g != h :: g in old(index.entries)
      ensures var size := if r.Some? then |r.value| else 0;
        var held := Held(old(cache), backend, h, tier);
        if (tier.reads_ && Genuine(old(cache), h)) || Stores(old(cache), backend, h, tier) then
          if Unbounded() then cache == held
          else Trimmed(limits, tier, held, old(index.entries)[h := Slot(size, index.tick)], cache, index.entries,
                       old(Accounted()) && Sum(old(index.entries)) + size < U64)
        else cache == held && index.entries == old(index.entries) - {h}
    {
      hide Sum, LastUsedAt, Evicted, Swept, OnlyNeeded, Over, Within, index.Valid;
      if tier.reads_ && h in cache {
        var bytes := cache[h];
        if KeyOf(bytes) == h {
          Record(h, |bytes|, tier);
          return Some(bytes);
        }
      }
      Evict(h, tier);
      if h !in backend {
        return None;
      }
      var bytes := backend[h];
      if tier.writes {
        cache := cache[KeyOf(bytes) := bytes];
        Record(h, |bytes|, tier);
        SameTouched(old(index.entries), h, Slot(|bytes|, index.tick));
        TicksDistinct(index);
      }
      r := Some(bytes);
    }

    /** `h` is tracked as the object used last. */
    ghost predicate LastUsed(h: Key)
      reads index
    {
      h in index.entries && index.entries[h].tick == index.tick
    }

    /** A cached copy is served unverified. */
    method GetRange(h: Key, off: nat, len: nat, tier: Tier) returns (r: Option<Data>)
      requires Valid()
      modifies this`cache, index
      ensures Valid()
      ensures old(Accounted()) ==> Accounted()
      ensures r == if h in old(cache) && tier.sees && tier.reads_ then Some(Range(old(cache)[h], off, len))
                   else if h in backend then Some(Range(backend[h], off, len)) else None
      ensures var drops := h in old(cache) && tier.sees && !tier.reads_;
        && cache == (if drops && tier.deletes(h) then old(cache) - {h} else old(cache))
        && index.entries == (if drops then old(index.entries) - {h} else old(index.entries))
    {
      hide Sum;
      if tier.sees && h in cache {
        if tier.reads_ {
          return Some(Range(cache[h], off, len));
        }
        Evict(h, tier);
      }
      r := if h in backend then Some(Range(backend[h], off, len)) else None;
    }
  }

  /** A read that fetches from the backend and caches what it fetched. */
  predicate Stores(cache: map<Key, Data>, backend: map<Key, Data>, h: Key, tier: Tier) {
    !(tier.reads_ && Genuine(cache, h)) && h in backend && tier.writes
  }

  /** What a read leaves in the cache before the limits are enforced: a bad copy is dropped
      and what the backend has comes in, each as far as the cache tier allows. */
  ghost function Held(cache: map<Key, Data>, backend: map<Key, Data>, h: Key, tier: Tier): map<Key, Data> {
    if tier.reads_ && Genuine(cache, h) then cache
    else
      var left := if tier.deletes(h) then cache - {h} else cache;
      if h in backend && tier.writes then left[KeyOf(backend[h]) := backend[h]] else left
  }

  /** Reading a keyed object through an empty bounded cache: afterwards the index tracks the
      key, which the cache does not hold, and the cache holds the bytes untracked. */
  method KeyedReadIsMistracked() returns (store: TieredStore)
    ensures fresh(store) && !store.Unbounded() && store.Valid()
    ensures Keyed("k") in store.index.entries && Keyed("k") !in store.cache
    ensures Of(Hash([1])) in store.cache && Of(Hash([1])) !in store.index.entries
  {
    store := new TieredStore(Limits(Some(100), false), map[], map[Keyed("k") := [1]]);
    var r := store.Get(Keyed("k"), Tier(true, true, true, _ => true, _ => false));
  }

  /** An entry's tick is its own. */
  lemma TicksDistinct(index: CacheIndex)
    requires index.Valid()
    ensures forall a, b | a in index.entries && b in index.entries && index.entries[a].tick == index.entries[b].tick ::
      a == b
  {
    forall a, b | a in index.entries && b in index.entries && index.entries[a].tick == index.entries[b].tick
      ensures a == b
    {
      assert LastUsedAt(index.uses, a, index.entries[a].tick - 1);
      assert LastUsedAt(index.uses, b, index.entries[b].tick - 1);
    }
  }

  /** What is left after the last one used was tracked and the oldest were evicted. */
  lemma OnlyEvicted(was: map<Key, Slot>, touched: map<Key, Slot>, left: map<Key, Slot>, h: Key, slot: Slot,
                    before: map<Key, Data>, deletes: Key -> bool)
    requires touched == was[h := slot] && Evicted(touched, left) && h in left
    ensures left[h] == slot
    ensures forall g | g in left && g != h :: g in was && left[g] == was[g]
    ensures var after := Swept(before, touched, left, deletes);
      && (forall g | g in after :: g in before && after[g] == before[g])
      && (forall g | g in before && g !in after :: g != h && g in was && g !in left)
  {
  }

  lemma SameTouched(entries: map<Key, Slot>, h: Key, slot: Slot)
    ensures (entries - {h})[h := slot] == entries[h := slot]
  {
  }

  /** What fits stays. */
  lemma WhatFitsStays(limits: Limits, low: nat -> bool, touched: map<Key, Slot>, entries: map<Key, Slot>)
    requires Evicted(touched, entries) && OnlyNeeded(limits, low, touched, entries)
    requires !limits.floor && !Over(limits, Sum(touched))
    ensures entries == touched
  {
    hide Sum;
    forall v | v in touched ensures v in entries {
      if v !in entries {
        assert Needed(limits, low, NoOlder(touched, v));
        PartOf(NoOlder(touched, v), touched);
      }
    }
  }

  /** Some of the entries sum to no more than all. */
  lemma {:induction false} PartOf(some: map<Key, Slot>, all: map<Key, Slot>)
    requires forall h | h in some :: h in all && all[h] == some[h]
    ensures Sum(some) <= Sum(all)
    decreases |all|
  {
    hide Sum;
    if h :| h in all && h !in some {
      SumWithout(all, h);
      FewerLeft(all, h);
      PartOf(some, all - {h});
    } else {
      assert some == all;
    }
  }

  lemma FewerLeft(entries: map<Key, Slot>, h: Key)
    requires h in entries
    ensures |entries - {h}| < |entries|
    ensures |entries| > 1 ==> entries - {h} != map[]
  {
    var rest := entries - {h};
    assert rest.Keys == entries.Keys - {h};
    assert |rest| == |rest.Keys| && |entries| == |entries.Keys|;
  }

  lemma TicksWithin(index: CacheIndex, newest: Key)
    requires index.Valid() && newest in index.entries && index.entries[newest].tick == index.tick
    ensures forall g | g in index.entries && g != newest :: index.entries[g].tick < index.entries[newest].tick
  {
    forall g | g in index.entries && g != newest ensures index.entries[g].tick < index.entries[newest].tick {
      assert LastUsedAt(index.uses, g, index.entries[g].tick - 1);
      assert LastUsedAt(index.uses, newest, index.tick - 1);
    }
  }
}
