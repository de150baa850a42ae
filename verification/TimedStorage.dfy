/** The timed dictionary: a map of values, and a heap of removal deadlines that is cleaned up lazily. */
module TimedStorages {
  import opened Basics
  import opened TimedSpec

  /** The time source; every reading is at least as late as the one before. */
  class Clock {
    var now: real

    constructor () {
      now := 0.0;
    }

    method Read() returns (t: real)
      modifies this
      ensures t == now && now >= old(now)
    {
      var elapsed: real := *;
      now := if elapsed > 0.0 then now + elapsed else now;
      t := now;
    }
  }

  datatype ValueWithExpiration<+V> = ValueWithExpiration(value: V, expiration: real)

  datatype HeapEntry = HeapEntry(expiration: real, key: Key)

  predicate Ordered(a: HeapEntry, b: HeapEntry) {
    a.expiration < b.expiration || (a.expiration == b.expiration && a.key <= b.key)
  }

  ghost predicate Sorted(h: seq<HeapEntry>) {
    forall i, j :: 0 <= i < j < |h| ==> Ordered(h[i], h[j])
  }

  /** Pushes an entry; the heap is kept as the ordered list of its entries. */
  function Push(h: seq<HeapEntry>, x: HeapEntry): (r: seq<HeapEntry>)
    requires Sorted(h)
    ensures Sorted(r)
    ensures forall y :: y in r <==> y in h || y == x
  {
    if h == [] || Ordered(x, h[0]) then [x] + h
    else
      var rest := Push(h[1..], x);
      assert forall y :: y in h <==> y == h[0] || y in h[1..];
      assert forall i :: 0 <= i < |rest| ==> Ordered(h[0], rest[i]) by {
        forall i | 0 <= i < |rest| ensures Ordered(h[0], rest[i]) {
          assert rest[i] in rest;
          if rest[i] != x { var j :| 0 <= j < |h[1..]| && h[1..][j] == rest[i]; assert h[j + 1] == rest[i]; }
        }
      }
      [h[0]] + rest
  }

  /** Every stored key has its live heap entry; other entries of the heap are leftovers. */
  ghost predicate Consistent<V>(data: map<Key, ValueWithExpiration<V>>, heap: seq<HeapEntry>,
                                keyToHeap: map<Key, HeapEntry>)
  {
    && data.Keys == keyToHeap.Keys
    && Sorted(heap)
    && forall k :: k in keyToHeap ==> keyToHeap[k].key == k && keyToHeap[k] in heap
  }

  ghost function Abstract<V>(data: map<Key, ValueWithExpiration<V>>, keyToHeap: map<Key, HeapEntry>): (m: Timed<V>)
    requires data.Keys == keyToHeap.Keys
  {
    map k | k in data :: Item(data[k].value, data[k].expiration, keyToHeap[k].expiration)
  }

  /** The root of the heap is no later than any stored entry. */
  lemma {:induction false} RootIsEarliest<V>(data: map<Key, ValueWithExpiration<V>>, heap: seq<HeapEntry>,
                                             keyToHeap: map<Key, HeapEntry>, k: Key)
    requires Consistent(data, heap, keyToHeap) && heap != [] && k in data
    ensures Ordered(heap[0], keyToHeap[k])
  {
    var i :| 0 <= i < |heap| && heap[i] == keyToHeap[k];
  }

  lemma {:induction false} LiveRoot<V>(data: map<Key, ValueWithExpiration<V>>, heap: seq<HeapEntry>,
                                       keyToHeap: map<Key, HeapEntry>)
    requires Consistent(data, heap, keyToHeap) && heap != []
    requires heap[0].key in keyToHeap && keyToHeap[heap[0].key] == heap[0]
    ensures IsEarliest(Abstract(data, keyToHeap), heap[0].key)
  {
    forall j | j in data ensures Before(Abstract(data, keyToHeap), heap[0].key, j) {
      RootIsEarliest(data, heap, keyToHeap, j);
    }
  }

  /** Popping the root and deleting it if it is live keeps the parts consistent. */
  lemma {:induction false} PopKeeps<V>(data: map<Key, ValueWithExpiration<V>>, heap: seq<HeapEntry>,
                                       keyToHeap: map<Key, HeapEntry>)
    requires Consistent(data, heap, keyToHeap) && heap != []
    ensures var x := heap[0];
            if x.key in keyToHeap && keyToHeap[x.key] == x
            then
              && Consistent(data - {x.key}, heap[1..], keyToHeap - {x.key})
              && Abstract(data - {x.key}, keyToHeap - {x.key}) == Abstract(data, keyToHeap) - {x.key}
            else Consistent(data, heap[1..], keyToHeap)
  {
    var x := heap[0];
    assert Sorted(heap[1..]);
    if x.key in keyToHeap && keyToHeap[x.key] == x {
      RestInHeap(heap, keyToHeap - {x.key});
      assert (data - {x.key}).Keys == data.Keys - {x.key} == (keyToHeap - {x.key}).Keys;
    } else {
      RestInHeap(heap, keyToHeap);
    }
  }

  /** Entries other than the root stay in the heap when it is popped. */
  lemma {:induction false} RestInHeap(heap: seq<HeapEntry>, keyToHeap: map<Key, HeapEntry>)
    requires heap != [] && forall k :: k in keyToHeap ==> keyToHeap[k] in heap && keyToHeap[k] != heap[0]
    ensures forall k :: k in keyToHeap ==> keyToHeap[k] in heap[1..]
  {
    assert heap == [heap[0]] + heap[1..];
  }

  class TimedStorage<V> {
    const clock: Clock
    var maxsize: Option<nat>
    var frozen: bool
    var data: map<Key, ValueWithExpiration<V>>
    var expirationHeap: seq<HeapEntry>
    var keyToHeap: map<Key, HeapEntry>

    ghost predicate Valid()
      reads this
    {
      Consistent(data, expirationHeap, keyToHeap)
    }

    ghost function View(): Storage<V>
      reads this
      requires Valid()
    {
      Storage(Abstract(data, keyToHeap), frozen, maxsize)
    }

    /** A size of zero means unlimited, like no size at all. */
    constructor (size: Option<nat>, clock: Clock)
      ensures Valid() && this.clock == clock
      ensures View() == Storage(map[], false, if size == Some(0) then None else size)
    {
      maxsize := if size == Some(0) then None else size;
      this.clock := clock;
      frozen, data, expirationHeap, keyToHeap := false, map[], [], map[];
    }

    /** Pops the root of the heap and removes its key, unless the root is a leftover. */
    method PopRoot(ghost before: Timed<V>, ghost now: real)
      requires Valid() && expirationHeap != [] && Ahead(Abstract(data, keyToHeap), before, maxsize, now)
      requires expirationHeap[0].expiration < now || (maxsize.Some? && |data| > maxsize.value)
      modifies this`data, this`expirationHeap, this`keyToHeap
      ensures Valid() && Ahead(Abstract(data, keyToHeap), before, maxsize, now)
      ensures |expirationHeap| < |old(expirationHeap)|
    {
      PopAhead(data, expirationHeap, keyToHeap, before, maxsize, now);
      var root := expirationHeap[0];
      if root.key in keyToHeap && keyToHeap[root.key] == root {
        data, keyToHeap := data - {root.key}, keyToHeap - {root.key};
      }
      expirationHeap := expirationHeap[1..];
    }

    method RemoveOutdated()
      requires Valid()
      modifies this`data, this`expirationHeap, this`keyToHeap, clock
      ensures Valid() && clock.now >= old(clock.now)
      ensures View() == Cleaned(old(View()), clock.now)
    {
      ghost var before := Abstract(data, keyToHeap);
      if frozen { return; }
      var outdated := true;
      while outdated && expirationHeap != []
        invariant Valid() && clock.now >= old(clock.now)
        invariant Ahead(Abstract(data, keyToHeap), before, maxsize, clock.now)
        invariant !outdated ==> Prune(Abstract(data, keyToHeap), maxsize, clock.now) == Abstract(data, keyToHeap)
        decreases if outdated then 1 else 0, |expirationHeap|
      {
        var now := clock.Read();
        var root := expirationHeap[0];
        outdated := root.expiration < now || (maxsize.Some? && |data| > maxsize.value);
        if outdated {
          PopRoot(before, now);
        } else {
          SettledRoot(data, expirationHeap, keyToHeap, maxsize, now);
        }
      }
      if expirationHeap == [] { SettledEmpty(data, expirationHeap, keyToHeap, maxsize, clock.now); }
    }

    /** Stores a value; the answer says whether it was accepted. */
    method Store(key: Key, value: V, expiration: real) returns (stored: bool, ghost now: real)
      requires Valid()
      modifies this`data, this`expirationHeap, this`keyToHeap, clock
      ensures Valid() && old(clock.now) <= now <= clock.now
      ensures View() == Stored(old(View()), key, value, expiration, now, clock.now).0
      ensures stored == Stored(old(View()), key, value, expiration, now, clock.now).1
    {
      var t := clock.Read();
      now := t;
      if expiration < t && !frozen { return false, now; }
      var isNew: bool := key !in data;
      stored := Enter(key, value, expiration);
      if isNew { RemoveOutdated(); }
    }

    /** Notes the deadline of a key and, unless it holds a later value, the value. */
    method Enter(key: Key, value: V, expiration: real) returns (stored: bool)
      requires Valid()
      modifies this`data, this`expirationHeap, this`keyToHeap
      ensures Valid()
      ensures var items := old(View()).items;
              && stored == (key in items ==> items[key].expiration < expiration)
              && View() == old(View()).(items := if stored then items[key := Item(value, expiration, expiration)]
                                                 else items[key := items[key].(deadline := expiration)])
    {
      PushKeeps(data, expirationHeap, keyToHeap, key, value, expiration);
      keyToHeap := keyToHeap[key := HeapEntry(expiration, key)];
      expirationHeap := Push(expirationHeap, keyToHeap[key]);
      if key in data && data[key].expiration >= expiration { return false; }
      data := data[key := ValueWithExpiration(value, expiration)];
      return true;
    }

    /** An unfrozen storage never returns a value that is past its expiration time. */
    method Get(key: Key) returns (found: Option<ValueWithExpiration<V>>)
      requires Valid()
      modifies this`data, this`expirationHeap, this`keyToHeap, clock
      ensures Valid() && clock.now >= old(clock.now)
      ensures View() == Cleaned(old(View()), clock.now)
      ensures found.Some? <==> key in View().items
      ensures found.Some? ==> found.value == ValueWithExpiration(View().items[key].value, View().items[key].expiration)
      ensures found.Some? && !frozen && Timely(old(View()).items) ==> found.value.expiration >= clock.now
    {
      RemoveOutdated();
      if !frozen { PruneMeaning(old(View()).items, maxsize, clock.now); }
      if key in data { return Some(data[key]); }
      return None;
    }

    method Contains(key: Key) returns (found: bool)
      requires Valid()
      modifies this`data, this`expirationHeap, this`keyToHeap, clock
      ensures Valid() && clock.now >= old(clock.now)
      ensures View() == Cleaned(old(View()), clock.now) && (found <==> key in View().items)
    {
      RemoveOutdated();
      found := key in data;
    }

    /** The number of entries, at most the maximum size unless the storage is frozen. */
    method Len() returns (n: nat)
      requires Valid()
      modifies this`data, this`expirationHeap, this`keyToHeap, clock
      ensures Valid() && clock.now >= old(clock.now)
      ensures View() == Cleaned(old(View()), clock.now) && n == |View().items|
      ensures !frozen && maxsize.Some? ==> n <= maxsize.value
    {
      RemoveOutdated();
      if !frozen { PruneMeaning(old(View()).items, maxsize, clock.now); }
      SameSize(data, keyToHeap);
      n := |data|;
    }

    /** The entry with the earliest deadline; only leftover heap entries are discarded on the way. */
    method Top() returns (top: Option<(Key, ValueWithExpiration<V>)>)
      requires Valid()
      modifies this`data, this`expirationHeap, this`keyToHeap, clock
      ensures Valid() && clock.now >= old(clock.now)
      ensures View() == Cleaned(old(View()), clock.now)
      ensures top.None? <==> View().items.Keys == {}
      ensures top.Some? ==> IsEarliest(View().items, top.value.0)
                            && var x := View().items[top.value.0];
                            top.value.1 == ValueWithExpiration(x.value, x.expiration)
    {
      RemoveOutdated();
      ghost var cleaned := View();
      if data.Keys == {} {
        assert View().items.Keys == {};
        return None;
      }
      HeapNotEmpty(data, expirationHeap, keyToHeap);
      while !(expirationHeap[0].key in keyToHeap && keyToHeap[expirationHeap[0].key] == expirationHeap[0])
        invariant Valid() && expirationHeap != [] && data.Keys != {} && View() == cleaned
        modifies this`expirationHeap
        decreases |expirationHeap|
      {
        PopKeeps(data, expirationHeap, keyToHeap);
        HeapNotEmpty(data, expirationHeap[1..], keyToHeap);
        expirationHeap := expirationHeap[1..];
      }
      LiveRoot(data, expirationHeap, keyToHeap);
      var topKey := expirationHeap[0].key;
      return Some((topKey, data[topKey]));
    }

    method Delete(key: Key)
      requires Valid()
      modifies this`data, this`keyToHeap
      ensures Valid() && View() == old(View()).(items := old(View()).items - {key})
    {
      ghost var before := View();
      if key in keyToHeap {
        data, keyToHeap := data - {key}, keyToHeap - {key};
      }
      assert View().items == before.items - {key};
    }

    method Clear()
      modifies this`data, this`expirationHeap, this`keyToHeap
      ensures Valid() && View() == Storage(map[], frozen, maxsize)
    {
      data, keyToHeap, expirationHeap := map[], map[], [];
    }

    /** Entering and leaving a frozen section; leaving restores what was there before. */
    method SetFrozen(value: bool) returns (previous: bool)
      requires Valid()
      modifies this`frozen
      ensures Valid() && previous == old(frozen) && View() == old(View()).(frozen := value)
    {
      previous := frozen;
      frozen := value;
    }
  }

  /** Removing entries ahead of time does not change what pruning leaves from now on. */
  ghost predicate Ahead<V>(m: Timed<V>, before: Timed<V>, maxsize: Option<nat>, now: real) {
    forall t :: t >= now ==> Prune(m, maxsize, t) == Prune(before, maxsize, t)
  }

  lemma {:induction false} DropAhead<V>(m: Timed<V>, before: Timed<V>, maxsize: Option<nat>, now: real, k: Key)
    requires Ahead(m, before, maxsize, now) && IsEarliest(m, k)
    requires m[k].deadline < now || (maxsize.Some? && |m| > maxsize.value)
    ensures Ahead(m - {k}, before, maxsize, now)
  {
    forall t | t >= now ensures Prune(m - {k}, maxsize, t) == Prune(before, maxsize, t) {
      PruneAhead(m, maxsize, now, k, t);
    }
  }

  /** One round of removal: consistent parts, and nothing lost that pruning would have kept. */
  lemma {:induction false} PopAhead<V>(data: map<Key, ValueWithExpiration<V>>, heap: seq<HeapEntry>,
                                       keyToHeap: map<Key, HeapEntry>, before: Timed<V>, maxsize: Option<nat>,
                                       now: real)
    requires Consistent(data, heap, keyToHeap) && heap != [] && Ahead(Abstract(data, keyToHeap), before, maxsize, now)
    requires heap[0].expiration < now || (maxsize.Some? && |data| > maxsize.value)
    ensures var x := heap[0];
            if x.key in keyToHeap && keyToHeap[x.key] == x
            then
              && Consistent(data - {x.key}, heap[1..], keyToHeap - {x.key})
              && Ahead(Abstract(data - {x.key}, keyToHeap - {x.key}), before, maxsize, now)
            else Consistent(data, heap[1..], keyToHeap)
  {
    PopKeeps(data, heap, keyToHeap);
    var x := heap[0];
    if x.key in keyToHeap && keyToHeap[x.key] == x {
      LiveRoot(data, heap, keyToHeap);
      SameSize(data, keyToHeap);
      DropAhead(Abstract(data, keyToHeap), before, maxsize, now, x.key);
    }
  }

  /** A new heap entry for a key, with or without a new value for it. */
  lemma {:induction false} PushKeeps<V>(data: map<Key, ValueWithExpiration<V>>, heap: seq<HeapEntry>,
                                        keyToHeap: map<Key, HeapEntry>, key: Key, value: V, e: real)
    requires Consistent(data, heap, keyToHeap)
    ensures var heap', keyToHeap' := Push(heap, HeapEntry(e, key)), keyToHeap[key := HeapEntry(e, key)];
            var data' := data[key := ValueWithExpiration(value, e)];
            && Consistent(data', heap', keyToHeap')
            && Abstract(data', keyToHeap') == Abstract(data, keyToHeap)[key := Item(value, e, e)]
            && (key in data ==>
                  && Consistent(data, heap', keyToHeap')
                  && var m := Abstract(data, keyToHeap);
                  Abstract(data, keyToHeap') == m[key := m[key].(deadline := e)])
  {
    PushEntry(heap, keyToHeap, key, e);
    var keyToHeap', data' := keyToHeap[key := HeapEntry(e, key)], data[key := ValueWithExpiration(value, e)];
    assert data'.Keys == keyToHeap'.Keys;
    assert Abstract(data', keyToHeap') == Abstract(data, keyToHeap)[key := Item(value, e, e)];
    if key in data {
      assert data.Keys == keyToHeap'.Keys;
      ShortenAbstract(data, keyToHeap, key, e);
    }
  }

  lemma {:induction false} ShortenAbstract<V>(data: map<Key, ValueWithExpiration<V>>, keyToHeap: map<Key, HeapEntry>,
                                              key: Key, e: real)
    requires data.Keys == keyToHeap.Keys && key in data
    ensures var keyToHeap' := keyToHeap[key := HeapEntry(e, key)];
            && data.Keys == keyToHeap'.Keys
            && var m := Abstract(data, keyToHeap);
            Abstract(data, keyToHeap') == m[key := m[key].(deadline := e)]
  {
    assert data.Keys == keyToHeap[key := HeapEntry(e, key)].Keys;
  }

  lemma {:induction false} PushEntry(heap: seq<HeapEntry>, keyToHeap: map<Key, HeapEntry>, key: Key, e: real)
    requires Sorted(heap) && forall k :: k in keyToHeap ==> keyToHeap[k].key == k && keyToHeap[k] in heap
    ensures var heap', keyToHeap' := Push(heap, HeapEntry(e, key)), keyToHeap[key := HeapEntry(e, key)];
            forall k :: k in keyToHeap' ==> keyToHeap'[k].key == k && keyToHeap'[k] in heap'
  {
  }

  lemma {:induction false} HeapNotEmpty<V>(data: map<Key, ValueWithExpiration<V>>, heap: seq<HeapEntry>,
                                           keyToHeap: map<Key, HeapEntry>)
    requires Consistent(data, heap, keyToHeap) && data.Keys != {}
    ensures heap != []
  {
    var k := SomeKey(data.Keys);
    assert keyToHeap[k] in heap;
  }

  lemma {:induction false} SameSize<V>(data: map<Key, ValueWithExpiration<V>>, keyToHeap: map<Key, HeapEntry>)
    requires data.Keys == keyToHeap.Keys
    ensures |Abstract(data, keyToHeap)| == |data|
  {
    assert Abstract(data, keyToHeap).Keys == data.Keys;
  }

  lemma {:induction false} SettledRoot<V>(data: map<Key, ValueWithExpiration<V>>, heap: seq<HeapEntry>,
                                          keyToHeap: map<Key, HeapEntry>, maxsize: Option<nat>, now: real)
    requires Consistent(data, heap, keyToHeap) && heap != [] && heap[0].expiration >= now
    requires maxsize.Some? ==> |data| <= maxsize.value
    ensures Prune(Abstract(data, keyToHeap), maxsize, now) == Abstract(data, keyToHeap)
  {
    forall k | k in data ensures keyToHeap[k].expiration >= now { RootIsEarliest(data, heap, keyToHeap, k); }
    SameSize(data, keyToHeap);
    PruneSettled(Abstract(data, keyToHeap), maxsize, now);
  }

  lemma {:induction false} SettledEmpty<V>(data: map<Key, ValueWithExpiration<V>>, heap: seq<HeapEntry>,
                                           keyToHeap: map<Key, HeapEntry>, maxsize: Option<nat>, now: real)
    requires Consistent(data, heap, keyToHeap) && heap == []
    ensures Prune(Abstract(data, keyToHeap), maxsize, now) == Abstract(data, keyToHeap)
  {
    assert data.Keys == {};
    SameSize(data, keyToHeap);
    PruneSettled(Abstract(data, keyToHeap), maxsize, now);
  }
}
