/** The storage objects themselves: dictionaries are held by reference and updated in place. */
module DhtStorages {
  import opened Basics
  import opened TimedSpec
  import opened TimedStorages
  import opened LocalStorages

  class DictionaryDHTValue {
    const storage: TimedStorage<Bytes>
    var latest: Option<real>

    ghost predicate Valid()
      reads this, storage
    {
      storage.Valid()
    }

    ghost function View(): Dict
      reads this, storage
      requires Valid()
    {
      Dict(storage.View(), latest)
    }

    constructor (clock: Clock)
      ensures Valid() && View() == EmptyDict() && fresh(storage) && storage.clock == clock
    {
      storage := new TimedStorage<Bytes>(None, clock);
      latest := None;
    }

    method Store(subkey: Key, value: Bytes, expiration: real) returns (stored: bool, ghost now: real)
      requires Valid()
      modifies this, storage, storage.clock
      ensures Valid() && old(storage.clock.now) <= now <= storage.clock.now
      ensures (View(), stored) == StoreEntry(old(View()), subkey, value, expiration, now, storage.clock.now)
    {
      latest := Some(Later(latest, expiration));
      stored, now := storage.Store(subkey, value, expiration);
    }
  }

  /** A new dictionary with one entry. */
  method NewDictionary(clock: Clock, subkey: Key, value: Bytes, expiration: real)
    returns (created: DictionaryDHTValue, ghost first: real)
    modifies clock
    ensures fresh(created) && fresh(created.storage) && created.Valid() && created.storage.clock == clock
    ensures old(clock.now) <= first <= clock.now
    ensures created.View() == StoreEntry(EmptyDict(), subkey, value, expiration, first, clock.now).0
  {
    created := new DictionaryDHTValue(clock);
    var _, now := created.Store(subkey, value, expiration);
    first := now;
  }

  /** What the local storage holds under a key: plain bytes, or a reference to a dictionary. */
  datatype Content = Bytes(bytes: Bytes) | Nested(dict: DictionaryDHTValue)

  // ---------------------------------------------------------------- timing does not look at values

  /** The same keys with the same expirations and deadlines. */
  ghost predicate SameTimes<V, W>(m: Timed<V>, w: Timed<W>) {
    m.Keys == w.Keys && forall k :: k in m ==> m[k].expiration == w[k].expiration && m[k].deadline == w[k].deadline
  }

  lemma {:induction false} EvictSame<V, W>(m: Timed<V>, w: Timed<W>, size: nat)
    requires SameTimes(m, w)
    ensures Evict(m, size).Keys == Evict(w, size).Keys
    decreases |m|
  {
    assert |m| == |m.Keys| && |w| == |w.Keys|;
    if |m| > size {
      var e := Earliest(m);
      assert IsEarliest(w, e) by {
        forall j | j in w ensures Before(w, e, j) { assert Before(m, e, j); }
      }
      EarliestUnique(w, e);
      assert (m - {e}).Keys == m.Keys - {e} && (w - {e}).Keys == w.Keys - {e};
      EvictSame(m - {e}, w - {e}, size);
    }
  }

  lemma {:induction false} PruneSame<V, W>(m: Timed<V>, w: Timed<W>, maxsize: Option<nat>, now: real)
    requires SameTimes(m, w)
    ensures Prune(m, maxsize, now).Keys == Prune(w, maxsize, now).Keys
  {
    assert Expire(m, now).Keys == Expire(w, now).Keys;
    if maxsize.Some? { EvictSame(Expire(m, now), Expire(w, now), maxsize.value); }
  }

  // ---------------------------------------------------------------- from references to values

  /** What each dictionary object holds at one moment. */
  type Snapshot = map<DictionaryDHTValue, Dict>

  /** The value a content stands for. */
  ghost function Lift(c: Content, snap: Snapshot): (v: Value)
    requires c.Nested? ==> c.dict in snap
  {
    match c
    case Bytes(b) => Binary(b)
    case Nested(d) => Dictionary(snap[d])
  }

  /** Every dictionary is known, and no two keys share one. */
  ghost predicate Owned(items: Timed<Content>, snap: Snapshot) {
    && (forall k :: k in items && items[k].value.Nested? ==> items[k].value.dict in snap)
    && forall j, k :: j in items && k in items && items[j].value.Nested? && items[j].value == items[k].value ==> j == k
  }

  ghost function LiftItems(items: Timed<Content>, snap: Snapshot): (m: Timed<Value>)
    requires Owned(items, snap)
    ensures SameTimes(items, m)
  {
    map k | k in items :: Item(Lift(items[k].value, snap), items[k].expiration, items[k].deadline)
  }

  ghost function LiftStorage(s: Storage<Content>, snap: Snapshot): (r: Local)
    requires Owned(s.items, snap)
  {
    Storage(LiftItems(s.items, snap), s.frozen, s.maxsize)
  }

  /** A part of the items is owned as well and lifts to the same part of the values. */
  lemma {:induction false} LiftPart(items: Timed<Content>, part: Timed<Content>, whole: Timed<Value>, snap: Snapshot)
    requires Owned(items, snap) && (forall k :: k in part ==> k in items && part[k] == items[k])
    requires whole.Keys == part.Keys && forall k :: k in whole ==> whole[k] == LiftItems(items, snap)[k]
    ensures Owned(part, snap) && LiftItems(part, snap) == whole
  {
  }

  lemma {:induction false} LiftCleaned(s: Storage<Content>, snap: Snapshot, now: real)
    requires Owned(s.items, snap)
    ensures Owned(Cleaned(s, now).items, snap)
    ensures LiftStorage(Cleaned(s, now), snap) == Cleaned(LiftStorage(s, snap), now)
  {
    if !s.frozen {
      var lifted := LiftItems(s.items, snap);
      PruneSame(s.items, lifted, s.maxsize, now);
      PruneMeaning(s.items, s.maxsize, now);
      PruneMeaning(lifted, s.maxsize, now);
      LiftPart(s.items, Prune(s.items, s.maxsize, now), Prune(lifted, s.maxsize, now), snap);
    }
  }

  /** The content is new to the storage, or stays under the key it is under. */
  ghost predicate Fits(items: Timed<Content>, snap: Snapshot, key: Key, c: Content) {
    c.Nested? ==> c.dict in snap && forall k :: k in items && items[k].value == c ==> k == key
  }

  lemma {:induction false} LiftUpdate(items: Timed<Content>, snap: Snapshot, key: Key, x: Item<Content>)
    requires Owned(items, snap) && Fits(items, snap, key, x.value)
    ensures Owned(items[key := x], snap)
    ensures LiftItems(items[key := x], snap)
         == LiftItems(items, snap)[key := Item(Lift(x.value, snap), x.expiration, x.deadline)]
  {
  }

  lemma {:induction false} LiftStored(s: Storage<Content>, snap: Snapshot, key: Key, c: Content, e: real, now: real,
                                      later: real)
    requires Owned(s.items, snap) && Fits(s.items, snap, key, c)
    ensures var (s', ok) := Stored(s, key, c, e, now, later);
            && Owned(s'.items, snap)
            && (LiftStorage(s', snap), ok) == Stored(LiftStorage(s, snap), key, Lift(c, snap), e, now, later)
  {
    LiftUpdate(s.items, snap, key, Item(c, e, e));
    if key in s.items {
      LiftUpdate(s.items, snap, key, s.items[key].(deadline := e));
    } else {
      LiftCleaned(s.(items := s.items[key := Item(c, e, e)]), snap, later);
    }
  }

  /** Updating the dictionary object under a key in place changes the value of that key and of no other. */
  lemma {:induction false} LiftInPlace(items: Timed<Content>, snap: Snapshot, key: Key, d: DictionaryDHTValue,
                                       dict: Dict)
    requires Owned(items, snap) && key in items && items[key].value == Nested(d)
    ensures Owned(items, snap[d := dict])
    ensures LiftItems(items, snap[d := dict])
         == LiftItems(items, snap)[key := LiftItems(items, snap)[key].(value := Dictionary(dict))]
  {
  }

  // ---------------------------------------------------------------- the local storage

  class DHTLocalStorage {
    const storage: TimedStorage<Content>
    ghost var snap: Snapshot

    ghost function Footprint(): set<object>
      reads this
    {
      set d | d in snap :: d as object
    }

    ghost function Inner(): set<object>
      reads this
    {
      set d | d in snap :: d.storage as object
    }

    /** The snapshot is up to date, and every dictionary has parts of its own. */
    ghost predicate Current()
      reads this, Footprint(), Inner()
    {
      && (forall d :: d in snap ==> d.Valid() && d.View() == snap[d] && d.storage.clock == storage.clock)
      && (forall d, e :: d in snap && e in snap && d != e ==> d.storage != e.storage)
    }

    ghost predicate Valid()
      reads this, storage, Footprint(), Inner()
    {
      storage.Valid() && Owned(storage.View().items, snap) && Current()
    }

    ghost function View(): Local
      reads this, storage, Footprint(), Inner()
      requires Valid()
    {
      LiftStorage(storage.View(), snap)
    }

    constructor (size: Option<nat>, clock: Clock)
      ensures Valid() && fresh(storage) && storage.clock == clock && snap == map[]
      ensures View() == Storage(map[], false, if size == Some(0) then None else size)
    {
      storage := new TimedStorage<Content>(size, clock);
      snap := map[];
    }

    /** Stores a content under a key, like any timed storage. */
    method Put(key: Key, content: Content, expiration: real) returns (stored: bool, ghost now: real)
      requires Valid() && Fits(storage.View().items, snap, key, content)
      modifies storage, storage.clock
      ensures Valid() && old(storage.clock.now) <= now <= storage.clock.now
      ensures (View(), stored) == Stored(old(View()), key, Lift(content, snap), expiration, now, storage.clock.now)
      ensures storage.View() == Stored(old(storage.View()), key, content, expiration, now, storage.clock.now).0
    {
      ghost var before := storage.View();
      stored, now := storage.Store(key, content, expiration);
      assert Current();
      LiftStored(before, snap, key, content, expiration, now, storage.clock.now);
    }

    /** Stores plain bytes. */
    method Store(key: Key, value: Bytes, expiration: real) returns (stored: bool, ghost now: real)
      requires Valid()
      modifies storage, storage.clock
      ensures Valid() && old(storage.clock.now) <= now <= storage.clock.now
      ensures (View(), stored) == Stored(old(View()), key, Binary(value), expiration, now, storage.clock.now)
    {
      stored, now := Put(key, Content.Bytes(value), expiration);
    }

    /** A new dictionary with one entry, known to the storage but not stored yet. */
    method Create(subkey: Key, value: Bytes, expiration: real)
      returns (created: DictionaryDHTValue, ghost first: real)
      requires Valid()
      modifies this`snap, storage.clock
      ensures Valid() && fresh(created) && fresh(created.storage) && storage.View() == old(storage.View())
      ensures old(storage.clock.now) <= first <= storage.clock.now
      ensures snap
           == old(snap)[created := StoreEntry(EmptyDict(), subkey, value, expiration, first, storage.clock.now).0]
      ensures View() == old(View())
      ensures forall k :: k in storage.View().items ==> storage.View().items[k].value != Nested(created)
    {
      created, first := NewDictionary(storage.clock, subkey, value, expiration);
      assert Current();
      LiftFresh(storage.View().items, snap, created, created.View());
      snap := snap[created := created.View()];
    }

    /** Puts a new dictionary with one entry under the key. */
    method StoreNew(key: Key, subkey: Key, value: Bytes, expiration: real)
      returns (stored: bool, ghost first: real, ghost second: real, ghost third: real)
      requires Valid()
      modifies this, storage, storage.clock
      ensures Valid()
      ensures old(storage.clock.now) <= first <= second <= third <= storage.clock.now
      ensures var d := StoreEntry(EmptyDict(), subkey, value, expiration, first, second).0;
              (View(), stored) == Stored(old(View()), key, Dictionary(d), d.latest.value, third, storage.clock.now)
    {
      var created, now := Create(subkey, value, expiration);
      first, second := now, storage.clock.now;
      stored, third := Put(key, Nested(created), created.latest.value);
    }

    /** What is stored under a key once outdated entries are gone. */
    method Lookup(key: Key) returns (found: Option<ValueWithExpiration<Content>>)
      requires Valid()
      modifies storage, storage.clock
      ensures Valid() && storage.clock.now >= old(storage.clock.now)
      ensures View() == Cleaned(old(View()), storage.clock.now)
      ensures found.Some? <==> key in View().items
      ensures found.Some? ==> key in storage.View().items
                              && found.value.value == storage.View().items[key].value
                              && found.value.expiration == View().items[key].expiration
    {
      ghost var before := storage.View();
      found := storage.Get(key);
      LiftCleaned(before, snap, storage.clock.now);
    }

    /** Stores an entry into a dictionary object. */
    method Amend(d: DictionaryDHTValue, subkey: Key, value: Bytes, expiration: real)
      returns (stored: bool, ghost now: real)
      requires Current() && d in snap
      modifies this`snap, d, d.storage, storage.clock
      ensures Current() && old(storage.clock.now) <= now <= storage.clock.now
      ensures snap == old(snap)[d := StoreEntry(old(snap)[d], subkey, value, expiration, now, storage.clock.now).0]
      ensures stored == StoreEntry(old(snap)[d], subkey, value, expiration, now, storage.clock.now).1
    {
      stored, now := d.Store(subkey, value, expiration);
      snap := snap[d := d.View()];
    }

    /** Stores an entry into the dictionary under a key, in place. */
    method UpdateEntry(key: Key, d: DictionaryDHTValue, subkey: Key, value: Bytes, expiration: real)
      returns (stored: bool, ghost now: real)
      requires Valid() && key in storage.View().items && storage.View().items[key].value == Nested(d)
      modifies this`snap, d, d.storage, storage.clock
      ensures Valid()
      ensures old(storage.clock.now) <= now <= storage.clock.now
      ensures key in old(View()).items && old(View()).items[key].value == Dictionary(old(d.View()))
      ensures var (dict, ok) := StoreEntry(old(d.View()), subkey, value, expiration, now, storage.clock.now);
              && stored == ok
              && View() == WithDict(old(View()), key, dict)
    {
      ghost var items, was := storage.View().items, snap;
      stored, now := Amend(d, subkey, value, expiration);
      LiftInPlace(items, was, key, d, snap[d]);
    }

    /**
     * Merges the entries of a reply into the dictionary that a GET found under a key, which is the stored
     * object itself: local storage changes with it, though not its outer entry.
     */
    method MergeReply(key: Key, d: DictionaryDHTValue, xs: seq<Entry>) returns (ghost ts: seq<Span>)
      requires Valid() && key in storage.View().items && storage.View().items[key].value == Nested(d)
      modifies this`snap, d, d.storage, storage.clock
      ensures Valid() && |ts| == |xs| && key in old(View()).items && old(View()).items[key].value.Dictionary?
      ensures View() == Merged(old(View()), key, xs, ts)
      ensures Sequential(ts, old(storage.clock.now), storage.clock.now)
    {
      ts := [];
      ghost var s0, outer, begin := View(), storage.View(), storage.clock.now;
      for i := 0 to |xs|
        invariant Valid() && storage.View() == outer
        invariant MergedSoFar(s0, View(), key, xs, i, ts, begin, storage.clock.now)
      {
        ghost var s1, ts0, start := View(), ts, storage.clock.now;
        var _, now := UpdateEntry(key, d, xs[i].subkey, xs[i].value, xs[i].expiration);
        ts := ts + [Span(now, storage.clock.now)];
        MergeOne(s0, s1, key, xs, i, ts0, begin, start, Span(now, storage.clock.now));
      }
      assert xs[..|xs|] == xs;
    }

    /** Renews the outer entry of a dictionary if the new entry outlives everything in it. */
    method Refresh(key: Key, d: DictionaryDHTValue, expiration: real) returns (ghost first: real)
      requires Valid() && key in storage.View().items && storage.View().items[key].value == Nested(d)
      modifies storage, storage.clock
      ensures Valid() && old(storage.clock.now) <= first <= storage.clock.now
      ensures key in storage.View().items && storage.View().items[key].value == Nested(d)
      ensures View() == if d.latest.None? || expiration > d.latest.value
                        then Stored(old(View()), key, Dictionary(d.View()), expiration, first, storage.clock.now).0
                        else old(View())
    {
      first := storage.clock.now;
      if d.latest.None? || expiration > d.latest.value {
        ghost var before := storage.View();
        var _, now := Put(key, Nested(d), expiration);
        first := now;
        RenewedStays(before, key, Nested(d), expiration, first, storage.clock.now);
      }
    }

    /** The case of a dictionary that is there: the outer entry first, then the entry inside. */
    method StoreInto(key: Key, d: DictionaryDHTValue, subkey: Key, value: Bytes, expiration: real)
      returns (stored: bool, ghost t: Times)
      requires Valid() && key in storage.View().items && storage.View().items[key].value == Nested(d)
      modifies this`snap, storage, storage.clock, d, d.storage
      ensures Valid() && t.Ordered() && t.get == old(storage.clock.now) && t.last == storage.clock.now
      ensures key in old(View()).items && old(View()).items[key].value == Dictionary(old(d.View()))
      ensures (View(), stored) == StoreIntoDict(old(View()), key, subkey, value, expiration, t)
    {
      ghost var start := storage.clock.now;
      ghost var first := Refresh(key, d, expiration);
      ghost var second, third := storage.clock.now, start;
      ghost var s1, dict := View(), d.View();
      stored, third := UpdateEntry(key, d, subkey, value, expiration);
      t := Times(start, first, second, third, storage.clock.now);
      TwoStores(old(View()), s1, dict, key, subkey, value, expiration, t);
    }

    /**
     * Saves an entry into the dictionary under a key: into a new one if there is nothing or an older
     * plain value, in place if there is one, and not at all behind a newer plain value.
     */
    method StoreSubkey(key: Key, subkey: Key, value: Bytes, expiration: real) returns (stored: bool, ghost t: Times)
      requires Valid()
      modifies this, storage, storage.clock, Footprint(), Inner()
      ensures Valid() && t.Ordered() && old(storage.clock.now) <= t.get && t.last <= storage.clock.now
      ensures (View(), stored) == LocalStorages.StoreSubkey(old(View()), key, subkey, value, expiration, t)
    {
      var found := Lookup(key);
      ghost var start := storage.clock.now;
      t := Times(start, start, start, start, start);
      if found.None? || (found.value.value.Bytes? && expiration > found.value.expiration) {
        ghost var first, second, third;
        stored, first, second, third := StoreNew(key, subkey, value, expiration);
        t := Times(start, first, second, third, storage.clock.now);
      } else if found.value.value.Nested? {
        stored, t := StoreInto(key, found.value.value.dict, subkey, value, expiration);
      } else {
        stored := false;
      }
    }
  }

  /** Storing the same content under its key again leaves it there. */
  lemma {:induction false} RenewedStays(s: Storage<Content>, key: Key, c: Content, e: real, now: real, later: real)
    requires key in s.items && s.items[key].value == c
    ensures var s' := Stored(s, key, c, e, now, later).0; key in s'.items && s'.items[key].value == c
  {
  }

  /** The outer renewal followed by the inner store make up one store into a dictionary. */
  lemma {:induction false} TwoStores(s0: Local, s1: Local, d: Dict, key: Key, subkey: Key, v: Bytes, e: real, t: Times)
    requires key in s0.items && s0.items[key].value == Dictionary(d) && key in s1.items
    requires s1
          == if d.latest.None? || e > d.latest.value then Stored(s0, key, Dictionary(d), e, t.first, t.second).0 else s0
    ensures var (dict, ok) := StoreEntry(d, subkey, v, e, t.third, t.last);
            StoreIntoDict(s0, key, subkey, v, e, t) == (WithDict(s1, key, dict), ok)
  {
  }

  /** The first entries of a reply are merged, each store after the one before. */
  ghost predicate MergedSoFar(s0: Local, s: Local, key: Key, xs: seq<Entry>, i: nat, ts: seq<Span>, from: real,
                              to: real)
  {
    && i <= |xs| && |ts| == i && key in s0.items && s0.items[key].value.Dictionary?
    && s == Merged(s0, key, xs[..i], ts) && Sequential(ts, from, to)
  }

  lemma {:induction false} MergeOne(s0: Local, s1: Local, key: Key, xs: seq<Entry>, i: nat, ts: seq<Span>,
                                    from: real, to: real, t: Span)
    requires MergedSoFar(s0, s1, key, xs, i, ts, from, to) && i < |xs| && to <= t.now <= t.later
    ensures var d, x := s1.items[key].value.dict, xs[i];
            var s2 := WithDict(s1, key, StoreEntry(d, x.subkey, x.value, x.expiration, t.now, t.later).0);
            MergedSoFar(s0, s2, key, xs, i + 1, ts + [t], from, t.later)
  {
    assert xs[..i + 1][..i] == xs[..i] && (ts + [t])[..i] == ts;
    SequentialLater(ts, from, to, t.now);
  }

  /** A dictionary object that is not stored yet does not matter. */
  lemma {:induction false} LiftFresh(items: Timed<Content>, snap: Snapshot, d: DictionaryDHTValue, dict: Dict)
    requires Owned(items, snap) && d !in snap
    ensures Owned(items, snap[d := dict]) && LiftItems(items, snap[d := dict]) == LiftItems(items, snap)
    ensures forall k :: k in items ==> items[k].value != Nested(d)
  {
  }
}
