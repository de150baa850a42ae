/**
 * Timed storage as a plain map from keys to a value, its expiration time and the deadline at which
 * it is removed. Keys are naturals, standing for any totally ordered type of keys.
 */
module TimedSpec {
  import opened Basics
  import opened Counting

  type Key = nat

  datatype Item<+V> = Item(value: V, expiration: real, deadline: real)

  type Timed<V> = map<Key, Item<V>>

  /** Nothing is kept beyond its expiration time. */
  ghost predicate Timely<V>(m: Timed<V>) {
    forall k :: k in m ==> m[k].deadline <= m[k].expiration
  }

  // ---------------------------------------------------------------- removal

  /** The order in which entries are removed: by deadline, then by key. */
  ghost predicate Before<V>(m: Timed<V>, a: Key, b: Key)
    requires a in m && b in m
  {
    m[a].deadline < m[b].deadline || (m[a].deadline == m[b].deadline && a <= b)
  }

  ghost predicate IsEarliest<V>(m: Timed<V>, k: Key) {
    k in m && forall j :: j in m ==> Before(m, k, j)
  }

  lemma {:induction false} SomeKey(keys: set<Key>) returns (k: Key)
    requires keys != {}
    ensures k in keys
  {
    k :| k in keys;
  }

  lemma {:induction false} EarliestExists<V>(m: Timed<V>)
    requires m.Keys != {}
    ensures exists k :: IsEarliest(m, k)
    decreases |m|
  {
    var k := SomeKey(m.Keys);
    var rest := m - {k};
    assert rest.Keys == m.Keys - {k};
    if rest.Keys == {} {
      assert m.Keys == {k};
      assert IsEarliest(m, k);
    } else {
      EarliestExists(rest);
      var r :| IsEarliest(rest, r);
      var e := if Before(m, k, r) then k else r;
      forall j | j in m ensures Before(m, e, j) {
        if j != k { assert Before(rest, r, j); }
      }
      assert IsEarliest(m, e);
    }
  }

  ghost function Earliest<V>(m: Timed<V>): (k: Key)
    requires m.Keys != {}
    ensures IsEarliest(m, k)
  {
    EarliestExists(m);
    var k :| IsEarliest(m, k); k
  }

  lemma {:induction false} EarliestUnique<V>(m: Timed<V>, k: Key)
    requires IsEarliest(m, k)
    ensures m.Keys != {} && Earliest(m) == k
  {
    assert k in m.Keys;
    var e := Earliest(m);
    assert Before(m, k, e) && Before(m, e, k);
  }

  /** What is left when everything past its deadline is gone. */
  ghost function Expire<V>(m: Timed<V>, now: real): (r: Timed<V>) {
    map k | k in m && m[k].deadline >= now :: m[k]
  }

  /** What is left when the earliest deadlines make room. */
  ghost function Evict<V>(m: Timed<V>, size: nat): (r: Timed<V>)
    decreases |m|
  {
    if |m| <= size then m else Evict(m - {Earliest(m)}, size)
  }

  /** The result of removing outdated entries from an unfrozen storage. */
  ghost function Prune<V>(m: Timed<V>, maxsize: Option<nat>, now: real): (r: Timed<V>) {
    match maxsize
    case None => Expire(m, now)
    case Some(size) => Evict(Expire(m, now), size)
  }

  /** The entry can be removed ahead of pruning: it is past its deadline, or the storage is too full. */
  lemma {:induction false} PruneAhead<V>(m: Timed<V>, maxsize: Option<nat>, now: real, k: Key, later: real)
    requires IsEarliest(m, k) && later >= now
    requires m[k].deadline < now || (maxsize.Some? && |m| > maxsize.value)
    ensures Prune(m - {k}, maxsize, later) == Prune(m, maxsize, later)
  {
    if m[k].deadline < later {
      assert Expire(m - {k}, later) == Expire(m, later);
    } else {
      forall j | j in m ensures m[j].deadline >= later { assert Before(m, k, j); }
      NothingExpires(m, later);
      NothingExpires(m - {k}, later);
      EarliestUnique(m, k);
    }
  }

  lemma {:induction false} PruneSettled<V>(m: Timed<V>, maxsize: Option<nat>, now: real)
    requires forall k :: k in m ==> m[k].deadline >= now
    requires maxsize.Some? ==> |m| <= maxsize.value
    ensures Prune(m, maxsize, now) == m
  {
    NothingExpires(m, now);
  }

  lemma {:induction false} NothingExpires<V>(m: Timed<V>, now: real)
    requires forall k :: k in m ==> m[k].deadline >= now
    ensures Expire(m, now) == m
  {
    var keys: set<Key> := m.Keys;
    forall k | k in keys ensures k in Expire(m, now) { assert m[k].deadline >= now; }
    assert keys <= Expire(m, now).Keys;
  }

  /** Eviction keeps a part of the map, the part with the latest deadlines, and makes it fit. */
  lemma {:induction false} EvictLatest<V>(m: Timed<V>, size: nat)
    ensures var r := Evict(m, size);
            && |r| == (if |m| <= size then |m| else size)
            && (forall k :: k in r ==> k in m && r[k] == m[k])
            && (forall j, k :: j in m && j !in r && k in r ==> Before(m, j, k))
    decreases |m|
  {
    if |m| > size {
      var e := Earliest(m);
      var rest := m - {e};
      assert rest.Keys == m.Keys - {e};
      EvictLatest(rest, size);
      var r := Evict(m, size);
      forall j, k | j in m && j !in r && k in r ensures Before(m, j, k) {
        if j == e { assert IsEarliest(m, e); } else { assert Before(rest, j, k); }
      }
    }
  }

  /**
   * What survives pruning: unchanged entries that are still within their deadlines, as many as fit,
   * and nothing with an earlier deadline than something that was removed in time.
   */
  lemma {:induction false} PruneMeaning<V>(m: Timed<V>, maxsize: Option<nat>, now: real)
    ensures var r := Prune(m, maxsize, now);
            && (forall k :: k in r ==> k in m && r[k] == m[k] && m[k].deadline >= now)
            && (maxsize.Some? ==> |r| <= maxsize.value)
            && (forall k :: k in m && m[k].deadline >= now && k !in r ==> maxsize.Some? && |r| == maxsize.value)
            && (forall j, k :: j in m && m[j].deadline >= now && j !in r && k in r ==> Before(m, j, k))
            && (Timely(m) ==> Timely(r) && forall k :: k in r ==> r[k].expiration >= now)
  {
    if maxsize.Some? { EvictLatest(Expire(m, now), maxsize.value); }
    var e, r := Expire(m, now), Prune(m, maxsize, now);
    forall j, k | j in m && m[j].deadline >= now && j !in r && k in r ensures Before(m, j, k) {
      assert j in e && k in e && Before(e, j, k);
    }
  }

  // ---------------------------------------------------------------- operations

  /** The map, and whether removal is suspended. */
  datatype Storage<V> = Storage(items: Timed<V>, frozen: bool, maxsize: Option<nat>)

  ghost function Cleaned<V>(s: Storage<V>, now: real): (r: Storage<V>) {
    if s.frozen then s else s.(items := Prune(s.items, s.maxsize, now))
  }

  /** Storing at time `now`; pruning, where it happens, at time `later`. */
  ghost function Stored<V>(s: Storage<V>, k: Key, v: V, e: real, now: real, later: real): (r: (Storage<V>, bool)) {
    if e < now && !s.frozen then (s, false)
    else if k in s.items then
      if s.items[k].expiration < e then (s.(items := s.items[k := Item(v, e, e)]), true)
      else (s.(items := s.items[k := s.items[k].(deadline := e)]), false)
    else (Cleaned(s.(items := s.items[k := Item(v, e, e)]), later), true)
  }

  datatype Op<V> =
    | StoreOp(key: Key, value: V, expiration: real, now: real, later: real)
    | ReadOp(now: real)
    | DeleteOp(key: Key)
    | ClearOp
    | FreezeOp(frozen: bool)

  ghost function Apply<V>(s: Storage<V>, op: Op<V>): (r: Storage<V>) {
    match op
    case StoreOp(k, v, e, now, later) => Stored(s, k, v, e, now, later).0
    case ReadOp(now) => Cleaned(s, now)
    case DeleteOp(k) => s.(items := s.items - {k})
    case ClearOp => s.(items := map[])
    case FreezeOp(frozen) => s.(frozen := frozen)
  }

  ghost function ApplyAll<V>(s: Storage<V>, ops: seq<Op<V>>): (r: Storage<V>) {
    if ops == [] then s else Apply(ApplyAll(s, ops[..|ops| - 1]), ops[|ops| - 1])
  }

  /** No operation ever keeps a value beyond its expiration time. */
  lemma {:induction false} ApplyTimely<V>(s: Storage<V>, op: Op<V>)
    requires Timely(s.items)
    ensures Timely(Apply(s, op).items)
  {
    match op
    case StoreOp(k, v, e, now, later) => PruneMeaning(s.items[k := Item(v, e, e)], s.maxsize, later);
    case ReadOp(now) => PruneMeaning(s.items, s.maxsize, now);
    case _ =>
  }

  lemma {:induction false} RunTimely<V>(s: Storage<V>, ops: seq<Op<V>>)
    requires Timely(s.items)
    ensures Timely(ApplyAll(s, ops).items)
  {
    if ops != [] {
      RunTimely(s, ops[..|ops| - 1]);
      ApplyTimely(ApplyAll(s, ops[..|ops| - 1]), ops[|ops| - 1]);
    }
  }

  // ---------------------------------------------------------------- room in a limited storage

  /** The other entries that are removed later than an entry under the key with this deadline. */
  ghost function Behind<V>(m: Timed<V>, k: Key, deadline: real): (r: set<Key>) {
    set j | j in m && j != k && (deadline < m[j].deadline || (deadline == m[j].deadline && k <= j))
  }

  /** So many others have later deadlines that an entry with this one does not fit. */
  ghost predicate Crowded<V>(m: Timed<V>, maxsize: Option<nat>, k: Key, deadline: real) {
    maxsize.Some? && |Behind(m, k, deadline)| >= maxsize.value
  }

  /** Exactly which entries survive pruning: those within their deadlines with fewer later ones than fit. */
  lemma {:induction false} SurvivesIff<V>(m: Timed<V>, maxsize: Option<nat>, now: real, k: Key)
    ensures k in Prune(m, maxsize, now)
       <==> k in m && m[k].deadline >= now && !Crowded(m, maxsize, k, m[k].deadline)
  {
    PruneMeaning(m, maxsize, now);
    var r := Prune(m, maxsize, now);
    if k in m && m[k].deadline >= now && maxsize.Some? {
      var behind := Behind(m, k, m[k].deadline);
      if k in r {
        forall j | j in behind ensures j in r { assert !Before(m, j, k); }
        SubsetSize(behind + {k}, r.Keys);
      } else {
        forall j | j in r ensures j in behind { assert Before(m, k, j); }
        SubsetSize(r.Keys, behind);
      }
    }
  }

  /** The key is there at a time: removal is suspended, or its deadline has not passed and it fits. */
  ghost predicate Live<V>(s: Storage<V>, k: Key, now: real) {
    k in s.items && (s.frozen || (s.items[k].deadline >= now && !Crowded(s.items, s.maxsize, k, s.items[k].deadline)))
  }

  lemma {:induction false} LiveIff<V>(s: Storage<V>, k: Key, now: real)
    ensures k in Cleaned(s, now).items <==> Live(s, k, now)
    ensures k in Cleaned(s, now).items ==> Cleaned(s, now).items[k] == s.items[k]
  {
    SurvivesIff(s.items, s.maxsize, now, k);
    PruneMeaning(s.items, s.maxsize, now);
  }

  /**
   * When a store is accepted and what it leaves, told from the entry there before. It is accepted exactly if
   * it is not late and nothing that expires as late is there. A late one changes nothing; any other one
   * under a key that is there sets its deadline; and one under a new key may push out what does not fit.
   */
  lemma {:induction false} StoreMeaning<V>(s: Storage<V>, k: Key, v: V, e: real, now: real, later: real, j: Key)
    ensures var (s', ok) := Stored(s, k, v, e, now, later);
            var late := e < now && !s.frozen;
            && (ok <==> !late && (k in s.items ==> s.items[k].expiration < e))
            && (late ==> s' == s)
            && s'.frozen == s.frozen && s'.maxsize == s.maxsize
            && (!late && k in s.items ==>
                  && s'.items.Keys == s.items.Keys && (j in s.items && j != k ==> s'.items[j] == s.items[j])
                  && s'.items[k] == if ok then Item(v, e, e) else s.items[k].(deadline := e))
            && (!late && k !in s.items ==>
                  && (j in s'.items <==> Live(s.(items := s.items[k := Item(v, e, e)]), j, later))
                  && (j in s'.items ==> s'.items[j] == if j == k then Item(v, e, e) else s.items[j]))
  {
    LiveIff(s.(items := s.items[k := Item(v, e, e)]), j, later);
    assert k in s.items ==> s.items[k := Item(v, e, e)].Keys == s.items.Keys;
  }

  /** Pruning during the operation, where there is any, finds no room for the key. */
  ghost predicate Squeezes<V>(s: Storage<V>, op: Op<V>, k: Key) {
    match op
    case StoreOp(key, v, e, now, _) =>
      && !s.frozen && e >= now && key !in s.items
      && if key == k then Crowded(s.items, s.maxsize, k, e)
         else k in s.items && Crowded(s.items[key := Item(v, e, e)], s.maxsize, k, s.items[k].deadline)
    case ReadOp(_) => !s.frozen && k in s.items && Crowded(s.items, s.maxsize, k, s.items[k].deadline)
    case _ => false
  }

  // ---------------------------------------------------------------- how long a value lives

  /** The operation stores under the key and is not turned away for being late. */
  ghost predicate Takes<V>(s: Storage<V>, op: Op<V>, k: Key) {
    op.StoreOp? && op.key == k && (op.expiration >= op.now || s.frozen)
  }

  /** The operation removes the key whatever its deadline. */
  ghost predicate Removes<V>(s: Storage<V>, op: Op<V>, k: Key) {
    op.ClearOp? || (op.DeleteOp? && op.key == k) || Squeezes(s, op, k)
  }

  /** The expiration given by the last store that was taken, unless the key was removed afterwards. */
  ghost function Due<V>(s: Storage<V>, ops: seq<Op<V>>, k: Key): (r: Option<real>) {
    if ops == [] then if k in s.items then Some(s.items[k].deadline) else None
    else
      var before, op := ApplyAll(s, ops[..|ops| - 1]), ops[|ops| - 1];
      if Removes(before, op, k) then None
      else if Takes(before, op, k) then Some(op.expiration)
      else Due(s, ops[..|ops| - 1], k)
  }

  /** The operation removes nothing that is due at time `t` or later. */
  ghost predicate By<V>(op: Op<V>, t: real) {
    match op
    case StoreOp(_, _, _, _, later) => later <= t
    case ReadOp(now) => now <= t
    case _ => true
  }

  /** The key is in the map with this deadline, as far as deadlines from `t` on are concerned. */
  ghost predicate DueFrom<V>(m: Timed<V>, k: Key, due: Option<real>, t: real) {
    && (k in m && m[k].deadline >= t ==> due == Some(m[k].deadline))
    && (due.Some? && due.value >= t ==> k in m && m[k].deadline == due.value)
  }

  lemma {:induction false} DueStep<V>(s: Storage<V>, op: Op<V>, k: Key, due: Option<real>, t: real)
    requires DueFrom(s.items, k, due, t) && By(op, t)
    ensures DueFrom(Apply(s, op).items, k,
                    if Removes(s, op, k) then None else if Takes(s, op, k) then Some(op.expiration) else due, t)
  {
    match op
    case StoreOp(key, v, e, now, later) =>
      PruneStep(s, s.items[key := Item(v, e, e)], k, later);
      assert Behind(s.items[k := Item(v, e, e)], k, e) == Behind(s.items, k, e);
    case ReadOp(now) => PruneStep(s, s.items, k, now);
    case _ =>
  }

  lemma {:induction false} PruneStep<V>(s: Storage<V>, m: Timed<V>, k: Key, now: real)
    ensures k in Prune(m, s.maxsize, now)
       <==> k in m && m[k].deadline >= now && !Crowded(m, s.maxsize, k, m[k].deadline)
    ensures k in Prune(m, s.maxsize, now) ==> Prune(m, s.maxsize, now)[k] == m[k]
  {
    SurvivesIff(m, s.maxsize, now, k);
    PruneMeaning(m, s.maxsize, now);
  }

  lemma {:induction false} RunDue<V>(s: Storage<V>, ops: seq<Op<V>>, k: Key, t: real)
    requires forall i :: 0 <= i < |ops| ==> By(ops[i], t)
    ensures DueFrom(ApplyAll(s, ops).items, k, Due(s, ops, k), t)
  {
    if ops != [] {
      var n := |ops| - 1;
      RunDue(s, ops[..n], k, t);
      DueStep(ApplyAll(s, ops[..n]), ops[n], k, Due(s, ops[..n], k), t);
    }
  }

  /**
   * Over every run: a key is readable at time `t` exactly if the store under it that was taken last,
   * accepted or not, expires no earlier, nothing removed the key afterwards, and it fits now.
   */
  lemma {:induction false} ReadableIff<V>(s: Storage<V>, ops: seq<Op<V>>, k: Key, t: real)
    requires forall i :: 0 <= i < |ops| ==> By(ops[i], t)
    requires !ApplyAll(s, ops).frozen
    ensures var r, due := ApplyAll(s, ops), Due(s, ops, k);
            && (k in Cleaned(r, t).items
                <==> due.Some? && due.value >= t && !Crowded(r.items, r.maxsize, k, due.value))
  {
    RunDue(s, ops, k, t);
    SurvivesIff(ApplyAll(s, ops).items, ApplyAll(s, ops).maxsize, t, k);
  }

  /** The operation neither removes the key, nor stores under it, nor happens after time `e`. */
  ghost predicate Spares<V>(s: Storage<V>, op: Op<V>, k: Key, e: real) {
    By(op, e) && !Removes(s, op, k) && !(op.StoreOp? && op.key == k)
  }

  /** The operation stores under the key again, with an expiration that is not earlier. */
  ghost predicate Renews<V>(op: Op<V>, k: Key, e: real) {
    op.StoreOp? && op.key == k && op.expiration >= e
  }

  /**
   * A value is kept until its expiration time, or replaced by a later one, as long as nobody deletes its
   * key, nobody stores an earlier expiration under it, and later deadlines leave room for it.
   */
  lemma {:induction false} LivesToExpiration<V>(s: Storage<V>, ops: seq<Op<V>>, k: Key, e: real)
    requires k in s.items && s.items[k].deadline == s.items[k].expiration == e
    requires forall i :: 0 <= i < |ops| ==> Spares(ApplyAll(s, ops[..i]), ops[i], k, e) || Renews(ops[i], k, e)
    ensures var r := ApplyAll(s, ops);
            && k in r.items && r.items[k].deadline >= e && r.items[k].expiration >= e
            && (r.items[k].expiration == e ==> r.items[k].value == s.items[k].value)
  {
    if ops != [] {
      var n := |ops| - 1;
      forall i | 0 <= i < n ensures Spares(ApplyAll(s, ops[..n][..i]), ops[i], k, e) || Renews(ops[i], k, e) {
        assert ops[..n][..i] == ops[..i];
      }
      LivesToExpiration(s, ops[..n], k, e);
      if Spares(ApplyAll(s, ops[..n]), ops[n], k, e) { SparedOnce(ApplyAll(s, ops[..n]), ops[n], k, e); }
    }
  }

  lemma {:induction false} SparedOnce<V>(s: Storage<V>, op: Op<V>, k: Key, e: real)
    requires k in s.items && s.items[k].deadline >= e && Spares(s, op, k, e)
    ensures k in Apply(s, op).items && Apply(s, op).items[k] == s.items[k]
  {
    match op
    case StoreOp(key, v, e', now, later) => PruneStep(s, s.items[key := Item(v, e', e')], k, later);
    case ReadOp(now) => PruneStep(s, s.items, k, now);
    case _ =>
  }

  /**
   * The exact effect of storing under a live key, whether or not the value is accepted: the key is
   * readable at a later time exactly until the expiration given last, if that leaves it room.
   */
  lemma {:induction false} LastStoreDecides<V>(s: Storage<V>, k: Key, v: V, e: real, now: real, later: real, t: real)
    requires !s.frozen && k in s.items && now <= e
    ensures k in Cleaned(Stored(s, k, v, e, now, later).0, t).items
       <==> t <= e && !Crowded(s.items, s.maxsize, k, e)
  {
    var s' := Stored(s, k, v, e, now, later).0;
    assert Behind(s'.items, k, e) == Behind(s.items, k, e);
    SurvivesIff(s'.items, s.maxsize, t, k);
  }

  /**
   * So a stored value is kept until its expiration time exactly when the next store does not expire
   * earlier and, where there is time left, fewer entries expire after that store than fit.
   */
  lemma {:induction false} KeptIffNotShortened<V>(s: Storage<V>, k: Key, v: V, e: real, now: real, later: real)
    requires !s.frozen && k in s.items && now <= e
    ensures var last := s.items[k].expiration;
            && ((forall t :: now <= t <= last ==> k in Cleaned(Stored(s, k, v, e, now, later).0, t).items)
                <==> e >= last && (now <= last ==> !Crowded(s.items, s.maxsize, k, e)))
  {
    var s' := Stored(s, k, v, e, now, later).0;
    var last := s.items[k].expiration;
    LastStoreDecides(s, k, v, e, now, later, last);
    if e >= last && !Crowded(s.items, s.maxsize, k, e) {
      forall t | now <= t <= last ensures k in Cleaned(s', t).items { LastStoreDecides(s, k, v, e, now, later, t); }
    }
  }

  // ---------------------------------------------------------------- the first to expire

  /** No deadline was shortened: everything is removed exactly when it expires. */
  ghost predicate Unshortened<V>(m: Timed<V>) {
    forall j :: j in m ==> m[j].deadline == m[j].expiration
  }

  /** The entry with the earliest deadline, which `top` returns, is the first to expire. */
  ghost predicate TopExpiresFirst<V>(m: Timed<V>) {
    m.Keys != {} ==> forall j :: j in m ==> m[Earliest(m)].expiration <= m[j].expiration
  }

  lemma {:induction false} EarliestExpiresFirst<V>(m: Timed<V>)
    requires Unshortened(m)
    ensures TopExpiresFirst(m)
  {
    if m.Keys != {} {
      forall j | j in m ensures m[Earliest(m)].expiration <= m[j].expiration { assert Before(m, Earliest(m), j); }
    }
  }

  /** The operation stores an earlier expiration under a key that is there. */
  ghost predicate Shortens<V>(s: Storage<V>, op: Op<V>) {
    op.StoreOp? && Takes(s, op, op.key) && op.key in s.items && op.expiration < s.items[op.key].expiration
  }

  /** A shortened deadline comes about in one way only. */
  lemma {:induction false} UnshortenedIff<V>(s: Storage<V>, op: Op<V>)
    requires Unshortened(s.items)
    ensures Unshortened(Apply(s, op).items) <==> !Shortens(s, op)
  {
    match op
    case StoreOp(k, v, e, now, later) =>
      PruneMeaning(s.items[k := Item(v, e, e)], s.maxsize, later);
      if Shortens(s, op) { assert Apply(s, op).items[k].deadline == e; }
    case ReadOp(now) => PruneMeaning(s.items, s.maxsize, now);
    case _ =>
  }

  /** An entry under the key with this deadline would be removed before all others. */
  ghost predicate GoesFirst<V>(m: Timed<V>, k: Key, deadline: real) {
    Behind(m, k, deadline) == m.Keys - {k}
  }

  /**
   * After a rejected store `top` still returns the first entry to expire, exactly unless the rejected
   * expiration puts its key before all others while some other entry expires earlier.
   */
  lemma {:induction false} ShortenedTopIff<V>(s: Storage<V>, k: Key, v: V, e: real, now: real, later: real)
    requires Unshortened(s.items) && k in s.items && now <= e <= s.items[k].expiration
    ensures TopExpiresFirst(Stored(s, k, v, e, now, later).0.items)
       <==> !(GoesFirst(s.items, k, e) && exists j :: j in s.items && s.items[j].expiration < s.items[k].expiration)
  {
    var m, m' := s.items, Stored(s, k, v, e, now, later).0.items;
    assert m'.Keys == m.Keys && k in m'.Keys;
    var f := Earliest(m');
    if GoesFirst(m, k, e) {
      forall j | j in m' ensures Before(m', k, j) { if j != k { assert j in Behind(m, k, e); } }
      EarliestUnique(m', k);
    } else {
      NotFirst(m, m', k, e, f);
    }
  }

  lemma {:induction false} NotFirst<V>(m: Timed<V>, m': Timed<V>, k: Key, e: real, f: Key)
    requires Unshortened(m) && k in m && e <= m[k].expiration && m' == m[k := m[k].(deadline := e)]
    requires IsEarliest(m', f) && !GoesFirst(m, k, e)
    ensures forall j :: j in m' ==> m'[f].expiration <= m'[j].expiration
  {
    var j :| j in m && j != k && j !in Behind(m, k, e);
    assert Before(m', f, j) && f != k;
    forall i | i in m' ensures m'[f].expiration <= m'[i].expiration { assert Before(m', f, i); }
  }

  /** A rejected store that puts first what expires last. */
  lemma {:induction false} ShortenedComesFirst<V>(v: V, w: V)
    ensures var s := Storage(map[1 := Item(v, 10.0, 10.0), 2 := Item(w, 5.0, 5.0)], false, None);
            Unshortened(s.items) && !TopExpiresFirst(Stored(s, 1, w, 2.0, 0.0, 0.0).0.items)
  {
    var s := Storage(map[1 := Item(v, 10.0, 10.0), 2 := Item(w, 5.0, 5.0)], false, None);
    assert Behind(s.items, 1, 2.0) == {2} && s.items[2].expiration < s.items[1].expiration;
    ShortenedTopIff(s, 1, w, 2.0, 0.0, 0.0);
  }
}
