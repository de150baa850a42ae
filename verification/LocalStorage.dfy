/** The node's local storage, whose values may themselves be dictionaries with timed entries. */
module LocalStorages {
  import opened Basics
  import opened TimedSpec

  type Bytes = seq<nat>

  /** A dictionary value: timed entries and the latest expiration ever stored, `None` before the first. */
  datatype Dict = Dict(storage: Storage<Bytes>, latest: Option<real>)

  datatype Value = Binary(bytes: Bytes) | Dictionary(dict: Dict)

  type Local = Storage<Value>

  function Later(latest: Option<real>, e: real): (r: real)
    ensures r >= e && (latest.Some? ==> r >= latest.value)
    ensures r == e || latest == Some(r)
  {
    if latest.Some? && latest.value > e then latest.value else e
  }

  function EmptyDict(): (d: Dict) {
    Dict(Storage(map[], false, None), None)
  }

  ghost function StoreEntry(d: Dict, subkey: Key, v: Bytes, e: real, now: real, later: real): (r: (Dict, bool)) {
    var (storage, ok) := Stored(d.storage, subkey, v, e, now, later);
    (Dict(storage, Some(Later(d.latest, e))), ok)
  }

  /** The five readings of the clock a subkey store can make, in order. */
  datatype Times = Times(get: real, first: real, second: real, third: real, last: real)
  {
    predicate Ordered() {
      get <= first <= second <= third <= last
    }
  }

  /** Stores a subkey: into a new dictionary, into the one that is there, or not at all. */
  ghost function StoreSubkey(s: Local, key: Key, subkey: Key, v: Bytes, e: real, t: Times): (r: (Local, bool)) {
    var s0 := Cleaned(s, t.get);
    if key !in s0.items || (s0.items[key].value.Binary? && e > s0.items[key].expiration) then
      var d := StoreEntry(EmptyDict(), subkey, v, e, t.first, t.second).0;
      Stored(s0, key, Dictionary(d), d.latest.value, t.third, t.last)
    else if s0.items[key].value.Dictionary? then StoreIntoDict(s0, key, subkey, v, e, t)
    else (s0, false)
  }

  /** The storage with another dictionary under a key, its outer entry as before. */
  ghost function WithDict(s: Local, key: Key, d: Dict): (r: Local)
    requires key in s.items
  {
    s.(items := s.items[key := s.items[key].(value := Dictionary(d))])
  }

  /** Renews the outer entry if needed, then updates the dictionary, whatever became of the outer entry. */
  ghost function StoreIntoDict(s0: Local, key: Key, subkey: Key, v: Bytes, e: real, t: Times): (r: (Local, bool))
    requires key in s0.items && s0.items[key].value.Dictionary?
  {
    var d := s0.items[key].value.dict;
    var s1 :=
      if d.latest.None? || e > d.latest.value then Stored(s0, key, Dictionary(d), e, t.first, t.second).0 else s0;
    var (d', ok) := StoreEntry(d, subkey, v, e, t.third, t.last);
    (WithDict(s1, key, d'), ok)
  }

  /** A dictionary expires with the latest of its entries, and no entry outlives it. */
  ghost predicate DictOk(item: Item<Value>) {
    item.value.Dictionary? ==>
      var d := item.value.dict;
      && d.latest == Some(item.expiration)
      && forall k :: k in d.storage.items ==> d.storage.items[k].expiration <= item.expiration
  }

  ghost predicate DictsOk(s: Local) {
    forall k :: k in s.items ==> DictOk(s.items[k])
  }

  lemma {:induction false} CleanedOk(s: Local, now: real)
    requires DictsOk(s)
    ensures DictsOk(Cleaned(s, now))
    ensures forall k :: k in Cleaned(s, now).items ==> k in s.items && Cleaned(s, now).items[k] == s.items[k]
    ensures !s.frozen ==> forall k :: k in Cleaned(s, now).items ==> s.items[k].deadline >= now
  {
    if !s.frozen { PruneMeaning(s.items, s.maxsize, now); }
  }

  /** Storing a good value keeps every dictionary good. */
  lemma {:induction false} StoredOk(s: Local, key: Key, v: Value, e: real, now: real, later: real)
    requires DictsOk(s) && DictOk(Item(v, e, e))
    ensures DictsOk(Stored(s, key, v, e, now, later).0)
  {
    var s1 := s.(items := s.items[key := Item(v, e, e)]);
    assert DictsOk(s1);
    CleanedOk(s1, later);
  }

  lemma {:induction false} EntriesBounded(d: Dict, subkey: Key, v: Bytes, e: real, now: real, later: real, bound: real)
    requires e <= bound && forall k :: k in d.storage.items ==> d.storage.items[k].expiration <= bound
    ensures var d' := StoreEntry(d, subkey, v, e, now, later).0;
            forall k :: k in d'.storage.items ==> d'.storage.items[k].expiration <= bound
  {
    var s1 := d.storage.items[subkey := Item(v, e, e)];
    PruneMeaning(s1, d.storage.maxsize, later);
  }

  /** The dictionary's outer entry could not be renewed because the new expiration passed during the call. */
  ghost predicate MissedRenewal(s: Local, key: Key, e: real, t: Times) {
    var s0 := Cleaned(s, t.get);
    && key in s0.items && s0.items[key].value.Dictionary?
    && e > s0.items[key].expiration && e < t.first && !s.frozen
  }

  lemma {:induction false} NewDictionaryOk(s0: Local, key: Key, subkey: Key, v: Bytes, e: real, t: Times)
    requires DictsOk(s0)
    ensures var d := StoreEntry(EmptyDict(), subkey, v, e, t.first, t.second).0;
            d.latest == Some(e) && DictsOk(Stored(s0, key, Dictionary(d), e, t.third, t.last).0)
  {
    var d := StoreEntry(EmptyDict(), subkey, v, e, t.first, t.second).0;
    EntriesBounded(EmptyDict(), subkey, v, e, t.first, t.second, e);
    StoredOk(s0, key, Dictionary(d), e, t.third, t.last);
  }

  /** Updating the dictionary under a key keeps the others; its own fate is the renewal of its outer entry. */
  lemma {:induction false} UpdatedDictionaryOk(s0: Local, key: Key, subkey: Key, v: Bytes, e: real, t: Times)
    requires DictsOk(s0) && key in s0.items && s0.items[key].value.Dictionary? && t.Ordered()
    ensures DictsOk(StoreIntoDict(s0, key, subkey, v, e, t).0)
       <==> !(e > s0.items[key].expiration && e < t.first && !s0.frozen)
  {
    var d := s0.items[key].value.dict;
    var outer := s0.items[key].expiration;
    assert DictOk(s0.items[key]);
    var d' := StoreEntry(d, subkey, v, e, t.third, t.last).0;
    var s1 :=
      if d.latest.None? || e > d.latest.value then Stored(s0, key, Dictionary(d), e, t.first, t.second).0 else s0;
    EntriesBounded(d, subkey, v, e, t.third, t.last, Later(d.latest, e));
    var s2 := s1.(items := s1.items[key := s1.items[key].(value := Dictionary(d'))]);
    assert forall k :: k in s2.items && k != key ==> k in s0.items && s2.items[k] == s0.items[k];
    assert DictsOk(s2) <==> DictOk(s2.items[key]);
  }

  /**
   * A subkey store keeps the outer expiration of every dictionary equal to the latest expiration
   * inside it, exactly unless the new expiration passes between the lookup and the renewal.
   */
  lemma {:induction false} SubkeyKeepsIff(s: Local, key: Key, subkey: Key, v: Bytes, e: real, t: Times)
    requires DictsOk(s) && t.Ordered()
    ensures DictsOk(StoreSubkey(s, key, subkey, v, e, t).0) <==> !MissedRenewal(s, key, e, t)
  {
    var s0 := Cleaned(s, t.get);
    CleanedOk(s, t.get);
    if key !in s0.items || (s0.items[key].value.Binary? && e > s0.items[key].expiration) {
      NewDictionaryOk(s0, key, subkey, v, e, t);
    } else if s0.items[key].value.Dictionary? {
      UpdatedDictionaryOk(s0, key, subkey, v, e, t);
    }
  }

  /** A call during which the clock stands still never misses the renewal. */
  lemma {:induction false} InstantNeverMisses(s: Local, key: Key, e: real, t: Times)
    requires Timely(s.items) && DictsOk(s) && t.get == t.first
    ensures !MissedRenewal(s, key, e, t)
  {
    CleanedOk(s, t.get);
  }

  /** A plain value gives way to a dictionary only to a strictly later expiration. */
  lemma {:induction false} OnlyLaterReplaces(s: Local, key: Key, subkey: Key, v: Bytes, e: real, t: Times)
    requires var s0 := Cleaned(s, t.get); key in s0.items && s0.items[key].value.Binary?
    ensures var (s', ok) := StoreSubkey(s, key, subkey, v, e, t);
            && (e <= Cleaned(s, t.get).items[key].expiration ==> !ok && s' == Cleaned(s, t.get))
            && (key in s'.items && s'.items[key].value.Dictionary? ==>
                  s'.items[key].expiration == e > Cleaned(s, t.get).items[key].expiration)
  {
  }

  // ---------------------------------------------------------------- what a subkey store does

  /** A plain value that expires as late is under the key. */
  ghost predicate PlainBlocks(s: Local, key: Key, e: real, now: real) {
    Live(s, key, now) && s.items[key].value.Binary? && s.items[key].expiration >= e
  }

  /** A dictionary is under the key. */
  ghost predicate HasDict(s: Local, key: Key, now: real) {
    Live(s, key, now) && s.items[key].value.Dictionary?
  }

  /** A new entry that expires at `e` is there at this time. */
  ghost predicate HasRoom(s: Local, key: Key, e: real, now: real) {
    s.frozen || (e >= now && !Crowded(s.items, s.maxsize, key, e))
  }

  /** The dictionary with one entry only, or none if that was late already. */
  ghost predicate OnlyEntry(d: Dict, subkey: Key, v: Bytes, e: real, second: real) {
    && d.latest == Some(e) && !d.storage.frozen && d.storage.maxsize.None?
    && d.storage.items == if e >= second then map[subkey := Item(v, e, e)] else map[]
  }

  lemma {:induction false} FirstEntry(subkey: Key, v: Bytes, e: real, now: real, later: real)
    requires now <= later
    ensures OnlyEntry(StoreEntry(EmptyDict(), subkey, v, e, now, later).0, subkey, v, e, later)
  {
    var m := map[subkey := Item(v, e, e)];
    assert map[][subkey := Item(v, e, e)] == m;
    if e >= later { NothingExpires(m, later); }
    assert forall k :: k in Expire(m, later) ==> k == subkey && m[k].deadline >= later;
  }

  /**
   * Under a key with nothing, or with a plain value that expires earlier, the call creates a dictionary. It
   * answers yes exactly if the clock has not passed the expiration, and then the key, if it fits, has a
   * dictionary with just this entry.
   */
  lemma {:induction false} SubkeyCreates(s: Local, key: Key, subkey: Key, v: Bytes, e: real, t: Times)
    requires t.Ordered() && !PlainBlocks(s, key, e, t.get) && !HasDict(s, key, t.get)
    ensures var (s', ok) := StoreSubkey(s, key, subkey, v, e, t);
            && (ok <==> s.frozen || e >= t.third)
            && (!ok ==> s' == Cleaned(s, t.get))
            && (ok ==> (key in s'.items <==> Live(s, key, t.get) || HasRoom(Cleaned(s, t.get), key, e, t.last)))
            && (ok && key in s'.items ==>
                  && s'.items[key].value.Dictionary? && s'.items[key].expiration == s'.items[key].deadline == e
                  && OnlyEntry(s'.items[key].value.dict, subkey, v, e, t.second))
  {
    var s0 := Cleaned(s, t.get);
    LiveIff(s, key, t.get);
    var d := StoreEntry(EmptyDict(), subkey, v, e, t.first, t.second).0;
    FirstEntry(subkey, v, e, t.first, t.second);
    StoreMeaning(s0, key, Dictionary(d), e, t.third, t.last, key);
    var m := s0.items[key := Item(Dictionary(d), e, e)];
    assert Behind(m, key, e) == Behind(s0.items, key, e);
  }

  /**
   * Under a key with a dictionary the call stores into it. It answers yes exactly if it is not late and the
   * dictionary has nothing under the subkey that expires as late; of two entries the later-expiring stays,
   * with the deadline given last, and all other subkeys are as before, except that a new one may push out
   * what is outdated or does not fit.
   */
  lemma {:induction false} SubkeyUpdates(s: Local, key: Key, subkey: Key, v: Bytes, e: real, t: Times, j: Key)
    requires t.Ordered() && HasDict(s, key, t.get)
    ensures var (s', ok) := StoreSubkey(s, key, subkey, v, e, t);
            var d := s.items[key].value.dict;
            var m, late := d.storage.items, e < t.third && !d.storage.frozen;
            && (ok <==> !late && (subkey in m ==> m[subkey].expiration < e))
            && key in s'.items && s'.items[key].value.Dictionary?
            && var d' := s'.items[key].value.dict;
            var m' := d'.storage.items;
            && d'.latest == Some(Later(d.latest, e))
            && (late ==> m' == m)
            && (!late && subkey in m ==>
                  && m'.Keys == m.Keys && (j in m && j != subkey ==> m'[j] == m[j])
                  && m'[subkey] == if ok then Item(v, e, e) else m[subkey].(deadline := e))
            && (!late && subkey !in m ==>
                  && (j in m' <==> Live(d.storage.(items := m[subkey := Item(v, e, e)]), j, t.last))
                  && (j in m' ==> m'[j] == if j == subkey then Item(v, e, e) else m[j]))
  {
    LiveIff(s, key, t.get);
    StoreMeaning(s.items[key].value.dict.storage, subkey, v, e, t.third, t.last, j);
  }

  /** Its outer entry is renewed exactly if the new entry outlives all there were and the clock is not past it. */
  lemma {:induction false} SubkeyRenews(s: Local, key: Key, subkey: Key, v: Bytes, e: real, t: Times)
    requires HasDict(s, key, t.get) && DictsOk(s)
    ensures var s', outer := StoreSubkey(s, key, subkey, v, e, t).0, s.items[key];
            && key in s'.items
            && var renewed := e > outer.expiration && (e >= t.first || s.frozen);
            && s'.items[key].expiration == (if renewed then e else outer.expiration)
            && s'.items[key].deadline == if renewed then e else outer.deadline
  {
    LiveIff(s, key, t.get);
    assert DictOk(s.items[key]);
  }

  /** The answer in all cases, and what becomes of other keys. */
  lemma {:induction false} SubkeyAnswer(s: Local, key: Key, subkey: Key, v: Bytes, e: real, t: Times, j: Key)
    requires t.Ordered() && j != key
    ensures var (s', ok) := StoreSubkey(s, key, subkey, v, e, t);
            && (PlainBlocks(s, key, e, t.get) ==> !ok && s' == Cleaned(s, t.get))
            && (ok ==> !PlainBlocks(s, key, e, t.get))
            && (j in s'.items ==> Live(s, j, t.get) && s'.items[j] == s.items[j])
            && (Live(s, key, t.get) && Live(s, j, t.get) ==> j in s'.items)
            && (s.maxsize.None? && Live(s, j, t.get) && s.items[j].deadline >= t.last ==> j in s'.items)
  {
    var s0 := Cleaned(s, t.get);
    LiveIff(s, key, t.get);
    LiveIff(s, j, t.get);
    var d := StoreEntry(EmptyDict(), subkey, v, e, t.first, t.second).0;
    StoreMeaning(s0, key, Dictionary(d), e, t.third, t.last, j);
    if HasDict(s, key, t.get) { StoreMeaning(s0, key, s0.items[key].value, e, t.first, t.second, j); }
  }

  // ---------------------------------------------------------------- runs

  datatype LocalCall =
    | Plain(key: Key, value: Bytes, expiration: real, now: real, later: real)
    | Sub(key: Key, subkey: Key, value: Bytes, expiration: real, times: Times)
    | Lookup(now: real)
  {
    predicate Ordered() {
      Sub? ==> times.Ordered()
    }
  }

  ghost function Call(s: Local, c: LocalCall): (r: Local) {
    match c
    case Plain(key, v, e, now, later) => Stored(s, key, Binary(v), e, now, later).0
    case Sub(key, subkey, v, e, t) => StoreSubkey(s, key, subkey, v, e, t).0
    case Lookup(now) => Cleaned(s, now)
  }

  ghost function Calls(s: Local, cs: seq<LocalCall>): (r: Local) {
    if cs == [] then s else Call(Calls(s, cs[..|cs| - 1]), cs[|cs| - 1])
  }

  ghost predicate Misses(s: Local, c: LocalCall) {
    c.Sub? && MissedRenewal(s, c.key, c.expiration, c.times)
  }

  lemma {:induction false} CallKeepsIff(s: Local, c: LocalCall)
    requires DictsOk(s) && c.Ordered()
    ensures DictsOk(Call(s, c)) <==> !Misses(s, c)
  {
    match c
    case Plain(key, v, e, now, later) => StoredOk(s, key, Binary(v), e, now, later);
    case Sub(key, subkey, v, e, t) => SubkeyKeepsIff(s, key, subkey, v, e, t);
    case Lookup(now) => CleanedOk(s, now);
  }

  ghost predicate AlwaysOk(s: Local, cs: seq<LocalCall>) {
    forall i :: 0 <= i <= |cs| ==> DictsOk(Calls(s, cs[..i]))
  }

  ghost predicate NeverMisses(s: Local, cs: seq<LocalCall>) {
    forall i :: 0 <= i < |cs| ==> !Misses(Calls(s, cs[..i]), cs[i])
  }

  /**
   * Every run keeps the outer expiration of every dictionary equal to the latest inside it at all
   * times, exactly if no subkey store of the run misses the renewal of an outer entry.
   */
  lemma {:induction false} RunKeepsDictsIff(s: Local, cs: seq<LocalCall>)
    requires DictsOk(s) && forall i :: 0 <= i < |cs| ==> cs[i].Ordered()
    ensures AlwaysOk(s, cs) <==> NeverMisses(s, cs)
  {
    if AlwaysOk(s, cs) {
      forall i | 0 <= i < |cs| ensures !Misses(Calls(s, cs[..i]), cs[i]) { KeepsAt(s, cs, i); }
    } else if NeverMisses(s, cs) {
      forall i | 0 <= i <= |cs| ensures DictsOk(Calls(s, cs[..i])) { KeepsUpTo(s, cs, i); }
    }
  }

  lemma {:induction false} KeepsAt(s: Local, cs: seq<LocalCall>, i: nat)
    requires i < |cs| && cs[i].Ordered() && DictsOk(Calls(s, cs[..i]))
    ensures DictsOk(Calls(s, cs[..i + 1])) <==> !Misses(Calls(s, cs[..i]), cs[i])
  {
    assert cs[..i + 1][..i] == cs[..i];
    CallKeepsIff(Calls(s, cs[..i]), cs[i]);
  }

  lemma {:induction false} KeepsUpTo(s: Local, cs: seq<LocalCall>, i: nat)
    requires DictsOk(s) && i <= |cs| && NeverMisses(s, cs) && forall j :: 0 <= j < |cs| ==> cs[j].Ordered()
    ensures DictsOk(Calls(s, cs[..i]))
  {
    if i > 0 {
      KeepsUpTo(s, cs, i - 1);
      KeepsAt(s, cs, i - 1);
    }
  }

  /**
   * A renewal that is missed: a dictionary that expires at 10 is looked up at 5 and offered an entry
   * that expires at 20, but it is 21 when the outer entry should be renewed.
   */
  lemma {:induction false} RenewalIsMissed(d: Storage<Bytes>, v: Bytes)
    requires forall k :: k in d.items ==> d.items[k].expiration <= 10.0
    ensures var s := Storage(map[0 := Item(Dictionary(Dict(d, Some(10.0))), 10.0, 10.0)], false, None);
            var t := Times(5.0, 21.0, 21.0, 21.0, 21.0);
            DictsOk(s) && t.Ordered() && Misses(s, Sub(0, 1, v, 20.0, t)) && !DictsOk(Call(s, Sub(0, 1, v, 20.0, t)))
  {
    var s := Storage(map[0 := Item(Dictionary(Dict(d, Some(10.0))), 10.0, 10.0)], false, None);
    var t := Times(5.0, 21.0, 21.0, 21.0, 21.0);
    assert DictsOk(s);
    NothingExpires(s.items, 5.0);
    CallKeepsIff(s, Sub(0, 1, v, 20.0, t));
  }

  // ---------------------------------------------------------------- replies merged into a stored dictionary

  /** One entry of a dictionary that a peer sends. */
  datatype Entry = Entry(subkey: Key, value: Bytes, expiration: real)

  /** The clock at the start of a store and at its end. */
  datatype Span = Span(now: real, later: real)

  /** The stores happen one after the other, between the two given times. */
  ghost predicate Sequential(ts: seq<Span>, from: real, to: real) {
    if ts == [] then from <= to
    else
      var last := ts[|ts| - 1];
      last.now <= last.later <= to && Sequential(ts[..|ts| - 1], from, last.now)
  }

  lemma {:induction false} SequentialLater(ts: seq<Span>, from: real, to: real, later: real)
    requires Sequential(ts, from, to) && to <= later
    ensures Sequential(ts, from, later)
  {
  }

  lemma {:induction false} SequentialAt(ts: seq<Span>, from: real, to: real, i: nat)
    requires Sequential(ts, from, to) && i < |ts|
    ensures from <= ts[i].now <= ts[i].later <= to
  {
    SequentialStarts(ts, from, to);
    var n := |ts| - 1;
    if i < n {
      SequentialAt(ts[..n], from, ts[n].now, i);
    } else {
      SequentialStarts(ts[..n], from, ts[n].now);
    }
  }

  lemma {:induction false} SequentialStarts(ts: seq<Span>, from: real, to: real)
    requires Sequential(ts, from, to)
    ensures from <= to
  {
    if ts != [] { SequentialStarts(ts[..|ts| - 1], from, ts[|ts| - 1].now); }
  }

  /** Stores entries one after the other, each at its own time. */
  ghost function StoreEntries(d: Dict, xs: seq<Entry>, ts: seq<Span>): (r: Dict)
    requires |ts| == |xs|
  {
    if xs == [] then d
    else
      var n := |xs| - 1;
      var d', x, t := StoreEntries(d, xs[..n], ts[..n]), xs[n], ts[n];
      StoreEntry(d', x.subkey, x.value, x.expiration, t.now, t.later).0
  }

  /**
   * A GET that finds a dictionary in local storage goes on with the same object, so the entries of later
   * replies are stored into it; its outer entry is left alone.
   */
  ghost function Merged(s: Local, key: Key, xs: seq<Entry>, ts: seq<Span>): (r: Local)
    requires key in s.items && s.items[key].value.Dictionary? && |ts| == |xs|
  {
    var d := StoreEntries(s.items[key].value.dict, xs, ts);
    WithDict(s, key, d)
  }

  /** The same stores as operations of the timed storage. */
  ghost function StoreOps(xs: seq<Entry>, ts: seq<Span>): (r: seq<Op<Bytes>>)
    requires |ts| == |xs|
    ensures |r| == |xs|
  {
    seq(|xs|, i requires 0 <= i < |xs| =>
      StoreOp(xs[i].subkey, xs[i].value, xs[i].expiration, ts[i].now, ts[i].later))
  }

  /** Storing entries into a dictionary is a run of its storage, so all that is known of runs applies. */
  lemma {:induction false} StoreEntriesIsRun(d: Dict, xs: seq<Entry>, ts: seq<Span>)
    requires |ts| == |xs|
    ensures StoreEntries(d, xs, ts).storage == ApplyAll(d.storage, StoreOps(xs, ts))
  {
    if xs != [] {
      var n := |xs| - 1;
      StoreEntriesIsRun(d, xs[..n], ts[..n]);
      assert StoreOps(xs, ts)[..n] == StoreOps(xs[..n], ts[..n]);
    }
  }

  lemma {:induction false} EntriesWithin(d: Dict, xs: seq<Entry>, ts: seq<Span>, bound: real)
    requires |ts| == |xs| && d.latest == Some(bound) && forall i :: 0 <= i < |xs| ==> xs[i].expiration <= bound
    requires forall k :: k in d.storage.items ==> d.storage.items[k].expiration <= bound
    ensures var d' := StoreEntries(d, xs, ts);
            && d'.latest == Some(bound)
            && forall k :: k in d'.storage.items ==> d'.storage.items[k].expiration <= bound
  {
    if xs != [] {
      var n := |xs| - 1;
      EntriesWithin(d, xs[..n], ts[..n], bound);
      var d', x, t := StoreEntries(d, xs[..n], ts[..n]), xs[n], ts[n];
      EntriesBounded(d', x.subkey, x.value, x.expiration, t.now, t.later, bound);
    }
  }

  lemma {:induction false} LatestCovers(d: Dict, xs: seq<Entry>, ts: seq<Span>, i: nat)
    requires |ts| == |xs| && i < |xs|
    ensures var latest := StoreEntries(d, xs, ts).latest; latest.Some? && latest.value >= xs[i].expiration
  {
    var n := |xs| - 1;
    if i < n { LatestCovers(d, xs[..n], ts[..n], i); }
  }

  /**
   * Such a GET keeps the outer expirations of local storage equal to the latest inside, exactly if no
   * entry of the replies expires after the local dictionary does.
   */
  lemma {:induction false} MergeKeepsIff(s: Local, key: Key, xs: seq<Entry>, ts: seq<Span>)
    requires DictsOk(s) && key in s.items && s.items[key].value.Dictionary? && |ts| == |xs|
    ensures DictsOk(Merged(s, key, xs, ts))
       <==> forall i :: 0 <= i < |xs| ==> xs[i].expiration <= s.items[key].expiration
  {
    var d, outer := s.items[key].value.dict, s.items[key].expiration;
    var s' := Merged(s, key, xs, ts);
    assert DictOk(s.items[key]);
    assert DictsOk(s') <==> DictOk(s'.items[key]) by {
      forall k | k in s'.items && k != key ensures DictOk(s'.items[k]) { assert s'.items[k] == s.items[k]; }
    }
    if forall i :: 0 <= i < |xs| ==> xs[i].expiration <= outer {
      EntriesWithin(d, xs, ts, outer);
    } else {
      var i :| 0 <= i < |xs| && xs[i].expiration > outer;
      LatestCovers(d, xs, ts, i);
    }
  }

  /** A GET after which local storage holds, in a dictionary that expires at 10, an entry that expires at 20. */
  lemma {:induction false} GetOutgrowsStorage(d: Storage<Bytes>, v: Bytes, t: Span)
    requires d.maxsize.None? && t.now <= t.later <= 20.0
    requires forall k :: k in d.items ==> d.items[k].expiration <= 10.0
    ensures var s := Storage(map[0 := Item(Dictionary(Dict(d, Some(10.0))), 10.0, 10.0)], false, None);
            && DictsOk(s)
            && var item := Merged(s, 0, [Entry(1, v, 20.0)], [t]).items[0];
            && item.expiration == 10.0 && item.value.Dictionary?
            && 1 in item.value.dict.storage.items && item.value.dict.storage.items[1] == Item(v, 20.0, 20.0)
            && !DictsOk(Merged(s, 0, [Entry(1, v, 20.0)], [t]))
  {
    var s := Storage(map[0 := Item(Dictionary(Dict(d, Some(10.0))), 10.0, 10.0)], false, None);
    var x := Entry(1, v, 20.0);
    assert DictsOk(s);
    assert [x][0].expiration > s.items[0].expiration;
    MergeKeepsIff(s, 0, [x], [t]);
    assert [x][..0] == [] && [t][..0] == [];
    assert StoreEntries(Dict(d, Some(10.0)), [x], [t]) == StoreEntry(Dict(d, Some(10.0)), 1, v, 20.0, t.now, t.later).0;
  }
}
