/** Merging the replies of a GET search: the best plain value, or a dictionary of the best entries. */
module SearchStates {
  import opened Basics
  import opened Ranked
  import opened Counting
  import opened TimedSpec
  import opened TimedStorages
  import opened LocalStorages
  import opened DhtStorages

  /** What a candidate holds: plain bytes, or a dictionary. */
  datatype Payload = Raw(bytes: Bytes) | Items(dict: Dict)

  /** One entry that is stored into the dictionary found so far, and when. */
  datatype Put = Put(entry: Entry, span: Span)

  /**
   * A candidate. Where it is merged into a dictionary, `read` is the time at which its own outdated entries
   * are dropped, `puts` are its other entries, in the order in which they are stored, and `shared` says that
   * it is the very object found before, as when two searches for a key share the one in local storage.
   */
  datatype Candidate = Candidate(payload: Payload, expiration: real, source: nat,
                                 shared: bool, read: real, puts: seq<Put>)

  function Plain(bytes: Bytes, expiration: real, source: nat): (c: Candidate) {
    Candidate(Raw(bytes), expiration, source, false, 0.0, [])
  }

  function EntriesOf(puts: seq<Put>): (xs: seq<Entry>)
    ensures |xs| == |puts|
  {
    seq(|puts|, i requires 0 <= i < |puts| => puts[i].entry)
  }

  function SpansOf(puts: seq<Put>): (ts: seq<Span>)
    ensures |ts| == |puts|
  {
    seq(|puts|, i requires 0 <= i < |puts| => puts[i].span)
  }

  ghost function StorePuts(d: Dict, puts: seq<Put>): (r: Dict) {
    StoreEntries(d, EntriesOf(puts), SpansOf(puts))
  }

  lemma {:induction false} PutsPush(d: Dict, puts: seq<Put>, x: Put)
    ensures var y := x.entry;
            StorePuts(d, puts + [x])
            == StoreEntry(StorePuts(d, puts), y.subkey, y.value, y.expiration, x.span.now, x.span.later).0
  {
    var n := |puts|;
    assert EntriesOf(puts + [x])[..n] == EntriesOf(puts) && SpansOf(puts + [x])[..n] == SpansOf(puts);
  }

  /** The best value found so far. */
  datatype Best = BestPlain(bytes: Bytes) | BestDict(dict: Dict)

  datatype Progress = Progress(best: Option<Best>, expiration: Option<real>, source: Option<nat>, finished: bool)

  const START: Progress := Progress(None, None, None, false)

  /** The stored expiration counts as minus infinity when it is missing or exactly zero. */
  predicate Exceeds(e: real, current: Option<real>) {
    current.None? || current.value == 0.0 || e > current.value
  }

  function Adopt(payload: Payload): (b: Best) {
    match payload
    case Raw(bytes) => BestPlain(bytes)
    case Items(dict) => BestDict(dict)
  }

  /** The larger of two maximum sizes, where none is unlimited. */
  function Larger(a: Option<nat>, b: Option<nat>): (r: Option<nat>) {
    if a.None? || b.None? then None else if a.value < b.value then b else a
  }

  /** A dictionary that may hold as much as another one. */
  ghost function Widened(d: Dict, e: Dict): (r: Dict) {
    d.(storage := d.storage.(maxsize := Larger(d.storage.maxsize, e.storage.maxsize)))
  }

  /** The dictionary found before, with the larger size, after the candidate has dropped its outdated entries. */
  ghost function MergeBase(d: Dict, c: Candidate): (r: Dict)
    requires c.payload.Items?
  {
    if c.shared then Dict(Cleaned(d.storage, c.read), d.latest) else Widened(d, c.payload.dict)
  }

  /** What is found after a candidate: merged into the dictionary found before, replaced by it, or as before. */
  ghost function BestAfter(p: Progress, c: Candidate): (r: Option<Best>) {
    if c.payload.Items? && p.best.Some? && p.best.value.BestDict?
    then Some(BestDict(StorePuts(MergeBase(p.best.value.dict, c), c.puts)))
    else if Exceeds(c.expiration, p.expiration) then Some(Adopt(c.payload))
    else p.best
  }

  /** The later expiration and its source are noted, and whether it is enough. */
  ghost function Noted(p: Progress, sufficient: Option<real>, expiration: real, source: nat): (r: Progress) {
    if !Exceeds(expiration, p.expiration) then p
    else Progress(p.best, Some(expiration), Some(source), sufficient.Some? && expiration >= sufficient.value)
  }

  /** `sufficient` is the expiration that ends the search early, `None` for infinity. */
  ghost function Absorb(p: Progress, sufficient: Option<real>, c: Candidate): (r: Progress) {
    if p.finished then p else Noted(p.(best := BestAfter(p, c)), sufficient, c.expiration, c.source)
  }

  // ---------------------------------------------------------------- the search object

  ghost function EntryAt(m: Timed<Bytes>, k: Key): (x: Entry)
    requires k in m
  {
    Entry(k, m[k].value, m[k].expiration)
  }

  /** The list holds every entry of the dictionary exactly once. */
  ghost predicate Lists(m: Timed<Bytes>, xs: seq<Entry>) {
    && (forall i :: 0 <= i < |xs| ==> xs[i].subkey in m && xs[i] == EntryAt(m, xs[i].subkey))
    && (forall i, j :: 0 <= i < j < |xs| ==> xs[i].subkey != xs[j].subkey)
    && (forall k :: k in m ==> exists i :: 0 <= i < |xs| && xs[i].subkey == k)
  }

  /** The entries merged are those of the candidate that are not outdated when it is read. */
  ghost predicate Faithful(c: Candidate) {
    c.payload.Items? ==> Lists(Cleaned(c.payload.dict.storage, c.read).items, EntriesOf(c.puts))
  }

  /** A candidate as it arrives: bytes or a dictionary object, its expiration and its source. */
  datatype Reply = Reply(content: Content, expiration: real, source: nat)

  /** The objects that make up a content. */
  ghost function Objects(content: Content): (r: set<object>) {
    if content.Nested? then {content.dict, content.dict.storage} else {}
  }

  ghost function Parts(content: Option<Content>): (r: set<object>) {
    if content.Some? then Objects(content.value) else {}
  }

  /** The object holds bytes, or a dictionary that is in order and goes by this clock. */
  ghost predicate InOrder(content: Option<Content>, clock: Clock)
    reads Parts(content)
  {
    content.Some? && content.value.Nested? ==>
      content.value.dict.Valid() && content.value.dict.storage.clock == clock
  }

  ghost function PayloadOf(content: Content): (r: Payload)
    reads if content.Nested? then {content.dict, content.dict.storage as object} else {}
    requires content.Nested? ==> content.dict.Valid()
  {
    match content
    case Bytes(b) => Raw(b)
    case Nested(d) => Items(d.View())
  }

  /** All entries but those under the remaining keys are stored, in this order and within these times. */
  ghost predicate MergedBut(m: Timed<Bytes>, keys: set<Key>, puts: seq<Put>, from: real, to: real) {
    && keys <= m.Keys && Lists(m - keys, EntriesOf(puts)) && Sequential(SpansOf(puts), from, to)
  }

  lemma {:induction false} MergedOneMore(m: Timed<Bytes>, keys: set<Key>, puts: seq<Put>, from: real, to: real, k: Key,
                                         span: Span)
    requires MergedBut(m, keys, puts, from, to) && k in keys && to <= span.now <= span.later
    ensures MergedBut(m, keys - {k}, puts + [Put(EntryAt(m, k), span)], from, span.later)
  {
    var n, more := |puts|, puts + [Put(EntryAt(m, k), span)];
    var xs, xs' := EntriesOf(puts), EntriesOf(more);
    assert xs' == xs + [EntryAt(m, k)] && SpansOf(more)[..n] == SpansOf(puts);
    SequentialLater(SpansOf(puts), from, to, span.now);
    forall j | j in m - (keys - {k}) ensures exists i :: 0 <= i < |xs'| && xs'[i].subkey == j {
      if j == k {
        assert xs'[n].subkey == k;
      } else {
        assert j in m - keys;
        var i :| 0 <= i < |xs| && xs[i].subkey == j;
        assert xs'[i].subkey == j;
      }
    }
  }

  class SearchState {
    const sufficient: Option<real>
    const clock: Clock
    var best: Option<Content>
    var expiration: Option<real>
    var source: Option<nat>
    var finished: bool

    ghost predicate Valid()
      reads this, Parts(best)
    {
      InOrder(best, clock)
    }

    ghost function View(): Progress
      requires Valid()
      reads this, Parts(best)
    {
      Progress(if best.None? then None else Some(Adopt(PayloadOf(best.value))), expiration, source, finished)
    }

    constructor (sufficient: Option<real>, clock: Clock)
      ensures Valid() && View() == START && this.sufficient == sufficient && this.clock == clock
    {
      this.sufficient, this.clock := sufficient, clock;
      best, expiration, source, finished := None, None, None, false;
    }

    /** Stores one entry into a dictionary object. */
    method MergeOne(d: DictionaryDHTValue, k: Key, value: Bytes, expiration: real, ghost d0: Dict,
                    ghost m: Timed<Bytes>, ghost keys: set<Key>, ghost puts: seq<Put>, ghost read: real)
      returns (ghost puts': seq<Put>)
      requires d.Valid() && d.storage.clock == clock && d.View() == StorePuts(d0, puts)
      requires MergedBut(m, keys, puts, read, clock.now) && k in keys && EntryAt(m, k) == Entry(k, value, expiration)
      modifies d, d.storage, clock
      ensures d.Valid() && d.View() == StorePuts(d0, puts') && clock.now >= old(clock.now)
      ensures MergedBut(m, keys - {k}, puts', read, clock.now)
    {
      ghost var before := clock.now;
      var _, now := d.Store(k, value, expiration);
      ghost var x := Put(EntryAt(m, k), Span(now, clock.now));
      PutsPush(d0, puts, x);
      MergedOneMore(m, keys, puts, read, before, k, x.span);
      puts' := puts + [x];
    }

    /**
     * Stores every entry of one dictionary object that is not outdated into another, in any order, after
     * giving the latter the larger of both sizes.
     */
    method Merge(d: DictionaryDHTValue, e: DictionaryDHTValue) returns (ghost read: real, ghost puts: seq<Put>)
      requires d.Valid() && e.Valid() && d.storage.clock == e.storage.clock == clock
      requires d != e ==> d.storage != e.storage
      modifies d, d.storage, e.storage, clock
      ensures d.Valid() && e.Valid() && old(clock.now) <= read <= clock.now
      ensures var d0 := old(d.View());
              var base := if d == e then Dict(Cleaned(d0.storage, read), d0.latest) else Widened(d0, old(e.View()));
              d.View() == StorePuts(base, puts)
      ensures d != e ==> e.View().storage == Cleaned(old(e.View()).storage, read)
      ensures Lists(Cleaned(old(e.View()).storage, read).items, EntriesOf(puts))
      ensures Sequential(SpansOf(puts), read, clock.now)
    {
      d.storage.maxsize := Larger(d.storage.maxsize, e.storage.maxsize);
      e.storage.RemoveOutdated();
      read, puts := clock.now, [];
      ghost var m, d0 := e.storage.View().items, d.View();
      var data := e.storage.data;
      puts := MergeAll(d, data, d0, m, read);
    }

    /** Stores all entries of a dictionary that has been read. */
    method MergeAll(d: DictionaryDHTValue, data: map<Key, ValueWithExpiration<Bytes>>, ghost d0: Dict,
                    ghost m: Timed<Bytes>, ghost read: real)
      returns (ghost puts: seq<Put>)
      requires d.Valid() && d.storage.clock == clock && d.View() == d0 && read == clock.now && m.Keys == data.Keys
      requires forall k :: k in data ==> m[k].value == data[k].value && m[k].expiration == data[k].expiration
      modifies d, d.storage, clock
      ensures d.Valid() && d.View() == StorePuts(d0, puts) && read <= clock.now
      ensures Lists(m, EntriesOf(puts)) && Sequential(SpansOf(puts), read, clock.now)
    {
      puts := [];
      var keys := data.Keys;
      while keys != {}
        invariant d.Valid() && keys <= data.Keys && read <= clock.now
        invariant d.View() == StorePuts(d0, puts) && MergedBut(m, keys, puts, read, clock.now)
        decreases |keys|
      {
        var k: nat :| k in keys;
        puts := MergeOne(d, k, data[k].value, data[k].expiration, d0, m, keys, puts, read);
        keys := keys - {k};
      }
      assert m - {} == m;
    }

    /** The candidate as a value, given when and in which order its entries are merged. */
    ghost function Lifted(reply: Reply, read: real, puts: seq<Put>): (c: Candidate)
      reads this, if reply.content.Nested? then {reply.content.dict, reply.content.dict.storage as object} else {}
      requires reply.content.Nested? ==> reply.content.dict.Valid()
    {
      Candidate(PayloadOf(reply.content), reply.expiration, reply.source, best == Some(reply.content), read, puts)
    }

    /** The candidate is in order and shares no part with what was found, unless it is the same object. */
    ghost predicate Acceptable(reply: Reply)
      reads this, Objects(reply.content)
    {
      && InOrder(Some(reply.content), clock)
      && (best.Some? && reply.content != best.value ==> Parts(best) !! Objects(reply.content))
    }

    /** Merges or adopts the content of a candidate. */
    method Take(reply: Reply) returns (ghost read: real, ghost puts: seq<Put>)
      requires Valid() && Acceptable(reply)
      modifies this`best, clock, Parts(best), Objects(reply.content)
      ensures Valid() && old(clock.now) <= read && Sequential(SpansOf(puts), read, clock.now)
      ensures View() == old(View()).(best := BestAfter(old(View()), old(Lifted(reply, read, puts))))
      ensures old(best).Some? && old(best).value.Nested? ==> old(Faithful(Lifted(reply, read, puts)))
    {
      read, puts := clock.now, [];
      if reply.content.Nested? && best.Some? && best.value.Nested? {
        read, puts := Merge(best.value.dict, reply.content.dict);
      } else if Exceeds(reply.expiration, expiration) {
        best := Some(reply.content);
      }
    }

    /** Notes a later expiration and its source. */
    method Note(expiration: real, source: nat)
      requires Valid() && !finished
      modifies this`expiration, this`source, this`finished
      ensures Valid() && View() == Noted(old(View()), sufficient, expiration, source)
    {
      if Exceeds(expiration, this.expiration) {
        this.expiration := Some(expiration);
        this.source := Some(source);
        if sufficient.Some? && expiration >= sufficient.value { finished := true; }
      }
    }

    /**
     * Takes a candidate into account: a dictionary is merged into the dictionary found before, anything else
     * replaces what was found if it expires later. The object that is adopted or merged into is the
     * sender's own.
     */
    method AddCandidate(reply: Option<Reply>) returns (ghost read: real, ghost puts: seq<Put>)
      requires Valid() && (reply.Some? ==> Acceptable(reply.value))
      modifies this, clock, Parts(best), if reply.Some? then Objects(reply.value.content) else {}
      ensures Valid() && old(clock.now) <= read && Sequential(SpansOf(puts), read, clock.now)
      ensures View() == if reply.None? then old(View())
                        else Absorb(old(View()), sufficient, old(Lifted(reply.value, read, puts)))
      ensures reply.Some? && !old(finished) && old(best).Some? && old(best).value.Nested? ==>
                old(Faithful(Lifted(reply.value, read, puts)))
    {
      read, puts := clock.now, [];
      if finished || reply.None? { return; }
      var c := reply.value;
      read, puts := Take(c);
      Note(c.expiration, c.source);
    }
  }

  // ---------------------------------------------------------------- whole searches

  ghost function AbsorbAll(sufficient: Option<real>, cs: seq<Candidate>): (r: Progress) {
    if cs == [] then START else Absorb(AbsorbAll(sufficient, cs[..|cs| - 1]), sufficient, cs[|cs| - 1])
  }

  /** Candidate `i` is the first of those with the greatest expiration. */
  ghost predicate Winner(cs: seq<Candidate>, i: nat) {
    && i < |cs|
    && (forall j :: 0 <= j < |cs| ==> cs[j].expiration <= cs[i].expiration)
    && (forall j :: 0 <= j < i ==> cs[j].expiration < cs[i].expiration)
  }

  /** Expiration, source and plain value are those of candidate `i`. */
  ghost predicate GivenBy(p: Progress, cs: seq<Candidate>, i: nat)
    requires i < |cs|
  {
    && p.expiration == Some(cs[i].expiration) && p.source == Some(cs[i].source)
    && ((forall j :: 0 <= j < |cs| ==> cs[j].payload.Raw?) ==> p.best == Some(BestPlain(cs[i].payload.bytes)))
  }

  /**
   * In whatever order replies come, the latest expiration is the one found, exactly unless it is zero
   * and the last reply has an earlier one. If it is not zero the first reply that has it gives
   * expiration, source and plain value; if it is zero and found, the last reply does.
   */
  lemma {:induction false} LatestWinsIff(cs: seq<Candidate>) returns (i: nat)
    requires cs != []
    ensures Winner(cs, i)
    ensures var p, last := AbsorbAll(None, cs), |cs| - 1;
            && !p.finished && p.expiration.Some? && p.expiration.value <= cs[i].expiration
            && (p.expiration == Some(cs[i].expiration) <==> cs[i].expiration != 0.0 || cs[last].expiration == 0.0)
            && (cs[i].expiration != 0.0 ==> GivenBy(p, cs, i))
            && (cs[i].expiration == cs[last].expiration == 0.0 ==> GivenBy(p, cs, last))
  {
    var n := |cs| - 1;
    if n == 0 {
      i := 0;
      assert cs[..0] == [];
    } else {
      var k := LatestWinsIff(cs[..n]);
      assert forall j :: 0 <= j < n ==> cs[..n][j] == cs[j];
      i := if cs[n].expiration > cs[k].expiration then n else k;
    }
  }

  // ---------------------------------------------------------------- replies of both kinds

  /** Reply `k` expires later than what was found before it. */
  ghost predicate Adopts(cs: seq<Candidate>, k: nat)
    requires k < |cs|
  {
    Exceeds(cs[k].expiration, AbsorbAll(None, cs[..k]).expiration)
  }

  /** Unless the latest expiration before it is zero, that means that it expires later than all before it. */
  lemma {:induction false} AdoptsIff(cs: seq<Candidate>, k: nat, i: nat)
    requires k < |cs| && (k > 0 ==> Winner(cs[..k], i) && cs[i].expiration != 0.0)
    ensures Adopts(cs, k) <==> forall m :: 0 <= m < k ==> cs[m].expiration < cs[k].expiration
  {
    if k > 0 {
      var w := LatestWinsIff(cs[..k]);
      assert cs[..k][i] == cs[i] && cs[..k][w] == cs[w];
      if Adopts(cs, k) {
        forall m | 0 <= m < k ensures cs[m].expiration < cs[k].expiration {
          assert cs[..k][m].expiration <= cs[..k][i].expiration;
        }
      }
    }
  }

  /** The dictionaries among the replies. */
  ghost function Dictionaries(cs: seq<Candidate>): (r: seq<Candidate>) {
    if cs == [] then []
    else
      var n := |cs| - 1;
      Dictionaries(cs[..n]) + (if cs[n].payload.Items? then [cs[n]] else [])
  }

  /** The last reply that expires later than what was found before it. */
  ghost predicate LastAdopted(cs: seq<Candidate>, j: nat) {
    j < |cs| && Adopts(cs, j) && forall k :: j < k < |cs| ==> !Adopts(cs, k)
  }

  ghost predicate PlainAdopted(cs: seq<Candidate>) {
    exists k: nat :: LastAdopted(cs, k) && cs[k].payload.Raw?
  }

  /**
   * Reply `a` is the dictionary found: it was adopted, as the first reply or instead of a plain value, and
   * no plain value was adopted after it.
   */
  ghost predicate DictionaryAdopted(cs: seq<Candidate>, a: nat) {
    && a < |cs| && Adopts(cs, a) && cs[a].payload.Items?
    && (a > 0 ==> PlainAdopted(cs[..a]))
    && forall k :: a < k < |cs| && Adopts(cs, k) ==> cs[k].payload.Items?
  }

  /** What was found: the bytes of the last reply adopted, or what the dictionaries since `a` merge to. */
  ghost predicate FoundSince(cs: seq<Candidate>, j: nat, a: nat) {
    var p := AbsorbAll(None, cs);
    && !p.finished && LastAdopted(cs, j)
    && match cs[j].payload
       case Raw(bytes) => p.best == Some(BestPlain(bytes))
       case Items(_) =>
         a <= j && DictionaryAdopted(cs, a) && MergedFrom(cs, a)
  }

  /** A dictionary is found: the one that the dictionaries among the replies from `a` on merge to. */
  ghost predicate MergedFrom(cs: seq<Candidate>, a: nat)
    requires a < |cs|
  {
    var p, q := AbsorbAll(None, cs), AbsorbAll(None, Dictionaries(cs[a..]));
    !p.finished && !q.finished && p.best.Some? && p.best.value.BestDict? && q.best == p.best
  }

  lemma {:induction false} AdoptsBefore(cs: seq<Candidate>, k: nat)
    requires k < |cs| - 1
    ensures Adopts(cs, k) <==> Adopts(cs[..|cs| - 1], k)
  {
    assert cs[..|cs| - 1][..k] == cs[..k];
  }

  lemma {:induction false} AdoptedBefore(cs: seq<Candidate>, j: nat)
    requires |cs| > 1 && LastAdopted(cs[..|cs| - 1], j)
    ensures LastAdopted(cs, if Adopts(cs, |cs| - 1) then |cs| - 1 else j)
  {
    var n := |cs| - 1;
    forall k | 0 <= k < n ensures Adopts(cs, k) <==> Adopts(cs[..n], k) { AdoptsBefore(cs, k); }
  }

  /** The dictionary stays the one found as long as only dictionaries are adopted. */
  lemma {:induction false} DictionaryStays(cs: seq<Candidate>, a: nat)
    requires |cs| > 1 && DictionaryAdopted(cs[..|cs| - 1], a)
    requires Adopts(cs, |cs| - 1) ==> cs[|cs| - 1].payload.Items?
    ensures DictionaryAdopted(cs, a)
  {
    var n := |cs| - 1;
    forall k | 0 <= k < n ensures Adopts(cs, k) <==> Adopts(cs[..n], k) { AdoptsBefore(cs, k); }
    assert cs[..n][..a] == cs[..a];
  }

  lemma {:induction false} DictionariesPush(cs: seq<Candidate>, a: nat)
    requires a < |cs| - 1
    ensures var n := |cs| - 1;
            Dictionaries(cs[a..]) == Dictionaries(cs[..n][a..]) + (if cs[n].payload.Items? then [cs[n]] else [])
  {
    var n := |cs| - 1;
    assert cs[a..][..n - a] == cs[..n][a..];
  }

  /** One more reply while a dictionary is found. */
  lemma {:induction false} MergeSince(cs: seq<Candidate>, j: nat, a: nat)
    requires |cs| > 1 && FoundSince(cs[..|cs| - 1], j, a) && cs[j].payload.Items?
    requires Adopts(cs, |cs| - 1) ==> cs[|cs| - 1].payload.Items?
    ensures FoundSince(cs, if Adopts(cs, |cs| - 1) then |cs| - 1 else j, a)
  {
    AdoptedBefore(cs, j);
    DictionaryStays(cs, a);
    MergeOneMore(cs, a);
  }

  lemma {:induction false} MergeOneMore(cs: seq<Candidate>, a: nat)
    requires a < |cs| - 1 && MergedFrom(cs[..|cs| - 1], a)
    requires Adopts(cs, |cs| - 1) ==> cs[|cs| - 1].payload.Items?
    ensures MergedFrom(cs, a)
  {
    var n := |cs| - 1;
    var ds := Dictionaries(cs[..n][a..]);
    DictionariesPush(cs, a);
    AbsorbBoth(AbsorbAll(None, cs[..n]), AbsorbAll(None, ds), cs[n]);
    if cs[n].payload.Items? { AbsorbPush(ds, cs[n]); } else { assert ds + [] == ds; }
  }

  lemma {:induction false} AbsorbPush(cs: seq<Candidate>, c: Candidate)
    ensures AbsorbAll(None, cs + [c]) == Absorb(AbsorbAll(None, cs), None, c)
  {
    assert (cs + [c])[..|cs|] == cs;
  }

  lemma {:induction false} AbsorbBoth(p: Progress, q: Progress, c: Candidate)
    requires !p.finished && !q.finished && p.best == q.best && p.best.Some? && p.best.value.BestDict?
    requires c.payload.Items? || !Exceeds(c.expiration, p.expiration)
    ensures var p' := Absorb(p, None, c);
            && !p'.finished && p'.best.Some? && p'.best.value.BestDict?
            && p'.best == (if c.payload.Items? then Absorb(q, None, c).best else q.best)
            && !Absorb(q, None, c).finished
  {
  }

  /** What every search without a goal finds, whatever kinds of replies it gets. */
  lemma {:induction false} FoundKinds(cs: seq<Candidate>) returns (j: nat, a: nat)
    requires cs != []
    ensures FoundSince(cs, j, a)
  {
    var n := |cs| - 1;
    if n == 0 {
      j, a := 0, 0;
      assert cs[..0] == [] && cs[0..] == cs;
    } else {
      j, a := FoundKinds(cs[..n]);
      if cs[j].payload.Items? && (Adopts(cs, n) ==> cs[n].payload.Items?) {
        MergeSince(cs, j, a);
        j := if Adopts(cs, n) then n else j;
      } else {
        AdoptedBefore(cs, j);
        if Adopts(cs, n) {
          if cs[n].payload.Items? { StartOver(cs, j); }
          j, a := n, n;
        }
      }
    }
  }

  lemma {:induction false} StartOver(cs: seq<Candidate>, j: nat)
    requires |cs| > 1 && LastAdopted(cs[..|cs| - 1], j) && cs[j].payload.Raw?
    requires Adopts(cs, |cs| - 1) && cs[|cs| - 1].payload.Items?
    ensures DictionaryAdopted(cs, |cs| - 1)
    ensures var q := AbsorbAll(None, Dictionaries(cs[|cs| - 1..]));
            !q.finished && q.best == Some(Adopt(cs[|cs| - 1].payload))
  {
    var c := cs[|cs| - 1];
    assert cs[|cs| - 1..] == [c] && [c][..0] == [];
    assert Dictionaries([c]) == [c];
  }

  /**
   * The first reply with the latest expiration decides what is found, unless that expiration is zero: its
   * bytes, or what the dictionaries merge to since the one they are merged into was adopted.
   */
  lemma {:induction false} LatestDecides(cs: seq<Candidate>, i: nat) returns (a: nat)
    requires Winner(cs, i) && cs[i].expiration != 0.0
    ensures FoundSince(cs, i, a)
  {
    var j;
    j, a := FoundKinds(cs);
    LatestIsAdopted(cs, i);
  }

  lemma {:induction false} LatestIsAdopted(cs: seq<Candidate>, i: nat)
    requires Winner(cs, i) && cs[i].expiration != 0.0
    ensures LastAdopted(cs, i)
  {
    if i > 0 {
      var w := LatestWinsIff(cs[..i]);
      assert cs[..i][w] == cs[w];
    }
    forall k | i < k < |cs| ensures !Adopts(cs, k) {
      var w := LatestWinsIff(cs[..k]);
      assert cs[..k][w] == cs[w] && cs[..k][i] == cs[i];
    }
  }

  /** The candidates up to and including the first one that reaches the goal, or all of them. */
  ghost function UpToGoal(goal: real, cs: seq<Candidate>): (r: seq<Candidate>) {
    if cs == [] then []
    else
      var before := UpToGoal(goal, cs[..|cs| - 1]);
      if before != [] && before[|before| - 1].expiration >= goal then before else before + [cs[|cs| - 1]]
  }

  /** Before the goal is reached, whatever was found expires before it. */
  ghost predicate BelowGoal(p: Progress, goal: real) {
    !p.finished && (p.expiration.Some? ==> p.expiration.value < goal)
  }

  /** A search with a finite goal ends with the first candidate that reaches it, and ignores everything after. */
  lemma {:induction false} FirstSufficientEnds(goal: real, cs: seq<Candidate>)
    ensures var p, r := AbsorbAll(Some(goal), cs), UpToGoal(goal, cs);
            if r != [] && r[|r| - 1].expiration >= goal
            then p.finished && p.expiration == Some(r[|r| - 1].expiration) && p.source == Some(r[|r| - 1].source)
            else BelowGoal(p, goal) && r == cs
  {
    if cs != [] {
      var n := |cs| - 1;
      FirstSufficientEnds(goal, cs[..n]);
      AbsorbTowardsGoal(AbsorbAll(Some(goal), cs[..n]), goal, cs[n]);
    }
  }

  /** Up to there it is the search without a goal, so all that is known of that holds of it. */
  lemma {:induction false} GoalOnlyEnds(goal: real, cs: seq<Candidate>)
    ensures var r := UpToGoal(goal, cs);
            AbsorbAll(Some(goal), cs)
            == AbsorbAll(None, r).(finished := r != [] && r[|r| - 1].expiration >= goal)
  {
    if cs != [] {
      var n := |cs| - 1;
      var before := UpToGoal(goal, cs[..n]);
      GoalOnlyEnds(goal, cs[..n]);
      FirstSufficientEnds(goal, cs[..n]);
      NeverFinished(before);
      AbsorbPush(before, cs[n]);
    }
  }

  lemma {:induction false} NeverFinished(cs: seq<Candidate>)
    ensures !AbsorbAll(None, cs).finished
  {
    if cs != [] { NeverFinished(cs[..|cs| - 1]); }
  }

  lemma {:induction false} AbsorbTowardsGoal(p: Progress, goal: real, c: Candidate)
    requires p.finished || BelowGoal(p, goal)
    ensures var p' := Absorb(p, Some(goal), c);
            if p.finished then p' == p
            else if c.expiration >= goal then
              p'.finished && p'.expiration == Some(c.expiration) && p'.source == Some(c.source)
            else BelowGoal(p', goal)
  {
  }

  /** An expiration of exactly zero is forgotten: an earlier one replaces it. */
  lemma {:induction false} ZeroIsForgotten(a: Bytes, b: Bytes)
    ensures AbsorbAll(None, [Plain(a, 0.0, 1), Plain(b, -1.0, 2)])
         == Progress(Some(BestPlain(b)), Some(-1.0), Some(2), false)
  {
    var c, d := Plain(a, 0.0, 1), Plain(b, -1.0, 2);
    assert [c, d][..1] == [c] && [c][..0] == [];
    assert AbsorbAll(None, [c]) == Absorb(START, None, c);
  }

  // ---------------------------------------------------------------- order and expiration

  /** A candidate as it arrives, whatever becomes of it and when. */
  ghost function Arrived(c: Candidate): (r: Candidate) {
    c.(shared := false, read := 0.0, puts := [])
  }

  ghost function Arrivals(cs: seq<Candidate>): (r: seq<Candidate>) {
    seq(|cs|, i requires 0 <= i < |cs| => Arrived(cs[i]))
  }

  /** Two searches get the same replies, each in its own order and at its own times. */
  ghost predicate Reordered(cs: seq<Candidate>, ds: seq<Candidate>) {
    multiset(Arrivals(cs)) == multiset(Arrivals(ds))
  }

  ghost function ExpirationsOf(cs: seq<Candidate>): (r: set<real>) {
    set i | 0 <= i < |cs| :: cs[i].expiration
  }

  lemma {:induction false} SomeExpires(cs: seq<Candidate>, e: real) returns (i: nat)
    requires e in ExpirationsOf(cs)
    ensures i < |cs| && cs[i].expiration == e
  {
    i :| 0 <= i < |cs| && cs[i].expiration == e;
  }

  lemma {:induction false} ReorderedExpirations(cs: seq<Candidate>, ds: seq<Candidate>)
    requires Reordered(cs, ds)
    ensures ExpirationsOf(cs) <= ExpirationsOf(ds)
  {
    SameMembers(Arrivals(cs), Arrivals(ds));
    forall i | 0 <= i < |cs| ensures cs[i].expiration in ExpirationsOf(ds) {
      assert Arrivals(cs)[i] in Arrivals(ds);
      var j :| 0 <= j < |ds| && Arrivals(ds)[j] == Arrivals(cs)[i];
      assert ds[j].expiration == cs[i].expiration;
    }
  }

  /** The latest expiration is not zero, or all expirations are. */
  ghost predicate ZeroHarmless(cs: seq<Candidate>, i: nat)
    requires i < |cs|
  {
    cs[i].expiration != 0.0 || forall j :: 0 <= j < |cs| ==> cs[j].expiration == 0.0
  }

  lemma {:induction false} SameExpiration(cs: seq<Candidate>, ds: seq<Candidate>, i: nat)
    requires ExpirationsOf(cs) == ExpirationsOf(ds) && Winner(cs, i) && ZeroHarmless(cs, i)
    ensures AbsorbAll(None, ds).expiration == AbsorbAll(None, cs).expiration == Some(cs[i].expiration)
  {
    var k := LatestWinsIff(cs);
    var i' := SomeExpires(ds, cs[i].expiration);
    var j := LatestWinsIff(ds);
    var j' := SomeExpires(cs, ds[j].expiration);
    var last := SomeExpires(cs, ds[|ds| - 1].expiration);
  }

  /** The candidates with one of them moved to the end. */
  ghost function MovedLast(cs: seq<Candidate>, i: nat): (r: seq<Candidate>)
    requires i < |cs|
  {
    cs[..i] + cs[i + 1..] + [cs[i]]
  }

  lemma {:induction false} MovedLastReorders(cs: seq<Candidate>, j: nat)
    requires j < |cs|
    ensures Reordered(MovedLast(cs, j), cs)
  {
    var a := Arrivals(cs);
    assert Arrivals(MovedLast(cs, j)) == a[..j] + a[j + 1..] + [a[j]];
    RemoveAt(a, j);
    assert a[j] in multiset(a);
  }

  lemma {:induction false} MovedLastFinds(cs: seq<Candidate>, i: nat, j: nat)
    requires Winner(cs, i) && cs[i].expiration == 0.0 && j < |cs|
    ensures Reordered(MovedLast(cs, j), cs)
    ensures AbsorbAll(None, MovedLast(cs, j)).expiration == Some(0.0) <==> cs[j].expiration == 0.0
  {
    var ds := MovedLast(cs, j);
    MovedLastReorders(cs, j);
    ReorderedExpirations(cs, ds);
    ReorderedExpirations(ds, cs);
    assert cs[i].expiration in ExpirationsOf(cs);
    var i' := SomeExpires(ds, 0.0);
    var k := LatestWinsIff(ds);
    assert ds[k].expiration in ExpirationsOf(ds) && ds[|ds| - 1] == cs[j];
    var k' := SomeExpires(cs, ds[k].expiration);
  }

  /** Every search that gets the same replies finds the same expiration. */
  ghost predicate ExpirationStable(cs: seq<Candidate>) {
    forall ds :: Reordered(ds, cs) ==> AbsorbAll(None, ds).expiration == AbsorbAll(None, cs).expiration
  }

  /** So does every search that gets replies with these expirations, however often each. */
  ghost predicate ExpirationsDecide(cs: seq<Candidate>) {
    forall ds :: ExpirationsOf(ds) == ExpirationsOf(cs) ==>
      AbsorbAll(None, ds).expiration == AbsorbAll(None, cs).expiration
  }

  lemma {:induction false} DecidedIsStable(cs: seq<Candidate>)
    requires ExpirationsDecide(cs)
    ensures ExpirationStable(cs)
  {
    forall ds | Reordered(ds, cs) ensures AbsorbAll(None, ds).expiration == AbsorbAll(None, cs).expiration {
      ReorderedExpirations(cs, ds);
      ReorderedExpirations(ds, cs);
    }
  }

  /**
   * The expiration found is the same for every order and timing of the replies exactly if the latest one is
   * not zero, or all of them are. Then it depends on nothing but which expirations occur.
   */
  lemma {:induction false} ExpirationStableIff(cs: seq<Candidate>, i: nat)
    requires Winner(cs, i)
    ensures ExpirationStable(cs) <==> ZeroHarmless(cs, i)
    ensures ExpirationsDecide(cs) <==> ZeroHarmless(cs, i)
  {
    if ZeroHarmless(cs, i) {
      forall ds | ExpirationsOf(ds) == ExpirationsOf(cs)
        ensures AbsorbAll(None, ds).expiration == AbsorbAll(None, cs).expiration
      {
        SameExpiration(cs, ds, i);
      }
      DecidedIsStable(cs);
    } else {
      var j :| 0 <= j < |cs| && cs[j].expiration != 0.0;
      MovedLastFinds(cs, i, i);
      MovedLastFinds(cs, i, j);
      assert !ExpirationStable(cs);
      if ExpirationsDecide(cs) { DecidedIsStable(cs); }
    }
  }

  // ---------------------------------------------------------------- dictionaries while nothing expires

  /** Adds an entry to a dictionary none of whose entries expires meanwhile. */
  function AddEntry(m: Timed<Bytes>, x: Entry): (r: Timed<Bytes>) {
    if x.subkey in m && m[x.subkey].expiration >= x.expiration
    then m[x.subkey := m[x.subkey].(deadline := x.expiration)]
    else m[x.subkey := Item(x.value, x.expiration, x.expiration)]
  }

  /** That is what the timed storage does as long as no deadline has passed. */
  lemma {:induction false} AddEntryIsStore(m: Timed<Bytes>, x: Entry, now: real, later: real)
    requires now <= x.expiration && later <= x.expiration
    requires forall k :: k in m ==> later <= m[k].deadline
    ensures Stored(Storage(m, false, None), x.subkey, x.value, x.expiration, now, later).0
         == Storage(AddEntry(m, x), false, None)
  {
    var m1 := m[x.subkey := Item(x.value, x.expiration, x.expiration)];
    NothingExpires(m1, later);
  }

  function AddEntries(m: Timed<Bytes>, xs: seq<Entry>): (r: Timed<Bytes>) {
    if xs == [] then m else AddEntry(AddEntries(m, xs[..|xs| - 1]), xs[|xs| - 1])
  }

  /** Nothing in the dictionary expires before this time, and nothing can be squeezed out of it. */
  ghost predicate Lasting(s: Storage<Bytes>, t: real) {
    && !s.frozen && s.maxsize.None?
    && forall k :: k in s.items ==> s.items[k].deadline >= t && s.items[k].expiration >= t
  }

  /** The candidate is a dictionary, and nothing in it expires before this time. */
  ghost predicate LastsUntil(c: Candidate, t: real) {
    c.payload.Items? && Lasting(c.payload.dict.storage, t)
  }

  /** It is read and merged by this time as well. */
  ghost predicate InTime(c: Candidate, t: real) {
    && LastsUntil(c, t) && c.read <= t && Faithful(c)
    && forall i :: 0 <= i < |c.puts| ==> c.puts[i].span.now <= t && c.puts[i].span.later <= t
  }

  /** All replies last until this time, and all but the first, which is adopted, are merged by it. */
  ghost predicate AllInTime(cs: seq<Candidate>, t: real) {
    && (forall i :: 0 <= i < |cs| ==> LastsUntil(cs[i], t))
    && forall i :: 1 <= i < |cs| ==> InTime(cs[i], t)
  }

  /** Merging at times in order within a call, as the search object does, is in time after the call. */
  lemma {:induction false} MergedWithin(c: Candidate, t: real)
    requires LastsUntil(c, t) && Faithful(c) && Sequential(SpansOf(c.puts), c.read, t)
    ensures InTime(c, t)
  {
    var ts := SpansOf(c.puts);
    SequentialStarts(ts, c.read, t);
    forall i | 0 <= i < |c.puts| ensures c.puts[i].span.now <= t && c.puts[i].span.later <= t {
      SequentialAt(ts, c.read, t, i);
    }
  }

  lemma {:induction false} LastingMerge(d: Dict, xs: seq<Entry>, ts: seq<Span>, t: real)
    requires |xs| == |ts| && Lasting(d.storage, t) && forall i :: 0 <= i < |xs| ==> xs[i].expiration >= t
    requires forall i :: 0 <= i < |ts| ==> ts[i].now <= t && ts[i].later <= t
    ensures Lasting(StoreEntries(d, xs, ts).storage, t)
    ensures StoreEntries(d, xs, ts).storage.items == AddEntries(d.storage.items, xs)
  {
    if xs != [] {
      var n := |xs| - 1;
      LastingMerge(d, xs[..n], ts[..n], t);
      AddEntryIsStore(AddEntries(d.storage.items, xs[..n]), xs[n], ts[n].now, ts[n].later);
    }
  }

  /** What a dictionary offers. */
  ghost function OfferedIn(m: Timed<Bytes>): (r: set<Entry>) {
    set k | k in m :: EntryAt(m, k)
  }

  ghost function OfferedBy(xs: seq<Entry>): (r: set<Entry>) {
    set x | x in xs
  }

  /** A candidate in time offers all it holds. */
  lemma {:induction false} InTimeOffers(c: Candidate, t: real)
    requires InTime(c, t)
    ensures OfferedBy(EntriesOf(c.puts)) == OfferedIn(c.payload.dict.storage.items)
    ensures forall i :: 0 <= i < |c.puts| ==> c.puts[i].entry.expiration >= t
  {
    var m, xs := c.payload.dict.storage.items, EntriesOf(c.puts);
    NothingExpires(m, c.read);
    assert Lists(m, xs);
    forall x | x in OfferedIn(m) ensures x in xs {
      var i :| 0 <= i < |xs| && xs[i].subkey == x.subkey;
      assert xs[i] == EntryAt(m, x.subkey);
    }
    forall i | 0 <= i < |c.puts| ensures c.puts[i].entry.expiration >= t { assert xs[i] == c.puts[i].entry; }
  }

  ghost function AllOffered(cs: seq<Candidate>): (r: set<Entry>) {
    if cs == [] then {}
    else
      var last := cs[|cs| - 1].payload;
      AllOffered(cs[..|cs| - 1]) + (if last.Items? then OfferedIn(last.dict.storage.items) else {})
  }

  /** The dictionary holds, for every subkey offered, an offered entry with the latest expiration. */
  ghost predicate BestOf(offered: set<Entry>, m: Timed<Bytes>) {
    && (forall x :: x in offered ==> x.subkey in m && x.expiration <= m[x.subkey].expiration)
    && (forall k :: k in m ==> EntryAt(m, k) in offered)
  }

  lemma {:induction false} AddEntryBest(offered: set<Entry>, m: Timed<Bytes>, x: Entry)
    requires BestOf(offered, m)
    ensures BestOf(offered + {x}, AddEntry(m, x))
  {
  }

  lemma {:induction false} AddEntriesBest(offered: set<Entry>, m: Timed<Bytes>, xs: seq<Entry>)
    requires BestOf(offered, m)
    ensures BestOf(offered + OfferedBy(xs), AddEntries(m, xs))
  {
    if xs == [] {
      assert offered + OfferedBy(xs) == offered;
    } else {
      var n := |xs| - 1;
      AddEntriesBest(offered, m, xs[..n]);
      OfferedPush(offered, xs);
      AddEntryBest(offered + OfferedBy(xs[..n]), AddEntries(m, xs[..n]), xs[n]);
    }
  }

  lemma {:induction false} OfferedPush(offered: set<Entry>, xs: seq<Entry>)
    requires xs != []
    ensures var n := |xs| - 1; offered + OfferedBy(xs) == offered + OfferedBy(xs[..n]) + {xs[n]}
  {
    assert xs == xs[..|xs| - 1] + [xs[|xs| - 1]];
  }

  /** What the search shows at a time: the dictionary found, without outdated entries. */
  ghost function Shown(p: Progress, t: real): (m: Timed<Bytes>) {
    if p.best.Some? && p.best.value.BestDict? then Cleaned(p.best.value.dict.storage, t).items else map[]
  }

  /** A dictionary was found, and none of it expires before this time. */
  ghost predicate FoundLasting(p: Progress, t: real) {
    !p.finished && p.best.Some? && p.best.value.BestDict? && Lasting(p.best.value.dict.storage, t)
  }

  lemma {:induction false} AbsorbInTime(p: Progress, c: Candidate, t: real)
    requires FoundLasting(p, t) && InTime(c, t)
    ensures var p' := Absorb(p, None, c);
            && FoundLasting(p', t)
            && p'.best.value.dict.storage.items == AddEntries(p.best.value.dict.storage.items, EntriesOf(c.puts))
  {
    InTimeOffers(c, t);
    NothingExpires(p.best.value.dict.storage.items, c.read);
    LastingMerge(p.best.value.dict, EntriesOf(c.puts), SpansOf(c.puts), t);
  }

  lemma {:induction false} MergedInTime(cs: seq<Candidate>, t: real)
    requires cs != [] && AllInTime(cs, t)
    ensures var p := AbsorbAll(None, cs);
            FoundLasting(p, t) && BestOf(AllOffered(cs), p.best.value.dict.storage.items)
  {
    var n := |cs| - 1;
    if n == 0 {
      assert cs[..0] == [] && LastsUntil(cs[0], t);
    } else {
      assert InTime(cs[n], t);
      MergedInTime(cs[..n], t);
      var p := AbsorbAll(None, cs[..n]);
      AbsorbInTime(p, cs[n], t);
      InTimeOffers(cs[n], t);
      AddEntriesBest(AllOffered(cs[..n]), p.best.value.dict.storage.items, EntriesOf(cs[n].puts));
    }
  }

  /** So if the latest reply is a dictionary, the replies merged since one was adopted decide what is shown. */
  lemma {:induction false} ShownSince(cs: seq<Candidate>, i: nat, t: real) returns (a: nat)
    requires Winner(cs, i) && cs[i].expiration != 0.0 && cs[i].payload.Items?
    ensures a <= i && DictionaryAdopted(cs, a)
    ensures var ds := Dictionaries(cs[a..]);
            && Shown(AbsorbAll(None, cs), t) == Shown(AbsorbAll(None, ds), t)
            && (AllInTime(ds, t) ==> BestOf(AllOffered(ds), Shown(AbsorbAll(None, cs), t)))
  {
    a := LatestDecides(cs, i);
    var ds := Dictionaries(cs[a..]);
    if AllInTime(ds, t) { MergeIsBest(ds, t); }
  }

  /**
   * Dictionary replies of which nothing expires before a time show at that time an offered entry with the
   * latest expiration for every subkey that any of them has.
   */
  lemma {:induction false} MergeIsBest(cs: seq<Candidate>, t: real)
    requires cs != [] && AllInTime(cs, t)
    ensures BestOf(AllOffered(cs), Shown(AbsorbAll(None, cs), t))
  {
    MergedInTime(cs, t);
    NothingExpires(AbsorbAll(None, cs).best.value.dict.storage.items, t);
  }

  /** Nothing offered for the entry's subkey expires later. */
  ghost predicate Latest(offered: set<Entry>, x: Entry) {
    x in offered && forall y :: y in offered && y.subkey == x.subkey ==> y.expiration <= x.expiration
  }

  /** The latest entries of a subkey carry the same value. */
  ghost predicate NoConflict(offered: set<Entry>) {
    forall x, y :: Latest(offered, x) && Latest(offered, y) && x.subkey == y.subkey ==> x.value == y.value
  }

  /** Values and expirations of a dictionary. */
  ghost function Contents(m: Timed<Bytes>): (r: map<Key, (Bytes, real)>) {
    map k | k in m :: (m[k].value, m[k].expiration)
  }

  lemma {:induction false} BestLatest(offered: set<Entry>, m: Timed<Bytes>, k: Key)
    requires BestOf(offered, m) && k in m
    ensures Latest(offered, EntryAt(m, k))
  {
    assert EntryAt(m, k) in offered;
  }

  lemma {:induction false} BestSame(offered: set<Entry>, m: Timed<Bytes>, m': Timed<Bytes>, k: Key)
    requires NoConflict(offered) && BestOf(offered, m) && BestOf(offered, m') && k in m
    ensures k in m' && EntryAt(m, k) == EntryAt(m', k)
  {
    var x := EntryAt(m, k);
    assert x in offered && x.subkey == k;
    BestLatest(offered, m, k);
    BestLatest(offered, m', k);
  }

  lemma {:induction false} BestUnique(offered: set<Entry>, m: Timed<Bytes>, m': Timed<Bytes>)
    requires NoConflict(offered) && BestOf(offered, m) && BestOf(offered, m')
    ensures Contents(m) == Contents(m')
  {
    forall k ensures SameAt(m, m', k) { BestSameAt(offered, m, m', k); }
    SameEverywhere(m, m');
  }

  /** The dictionaries agree on one subkey. */
  ghost predicate SameAt(m: Timed<Bytes>, m': Timed<Bytes>, k: Key) {
    (k in m <==> k in m') && (k in m ==> EntryAt(m, k) == EntryAt(m', k))
  }

  lemma {:induction false} BestSameAt(offered: set<Entry>, m: Timed<Bytes>, m': Timed<Bytes>, k: Key)
    requires NoConflict(offered) && BestOf(offered, m) && BestOf(offered, m')
    ensures SameAt(m, m', k)
  {
    if k in m { BestSame(offered, m, m', k); }
    if k in m' { BestSame(offered, m', m, k); }
  }

  lemma {:induction false} SameEverywhere(m: Timed<Bytes>, m': Timed<Bytes>)
    requires forall k :: SameAt(m, m', k)
    ensures Contents(m) == Contents(m')
  {
    forall k ensures k in m <==> k in m' { assert SameAt(m, m', k); }
    forall k | k in m ensures Contents(m)[k] == Contents(m')[k] { assert SameAt(m, m', k); }
  }

  /** Values and expirations that a search shows at a time. */
  ghost function Found(cs: seq<Candidate>, t: real): (r: map<Key, (Bytes, real)>) {
    Contents(Shown(AbsorbAll(None, cs), t))
  }

  /**
   * While nothing expires the merged dictionary depends only on what was offered: not on the order of the
   * replies, nor on the times at which they are merged, nor on which of them offers what.
   */
  lemma {:induction false} OrderDoesNotMatter(cs: seq<Candidate>, ds: seq<Candidate>, t: real)
    requires cs != [] && ds != [] && AllInTime(cs, t) && AllInTime(ds, t)
    requires AllOffered(cs) == AllOffered(ds) && NoConflict(AllOffered(cs))
    ensures Found(cs, t) == Found(ds, t)
  {
    MergeIsBest(cs, t);
    MergeIsBest(ds, t);
    BestUnique(AllOffered(cs), Shown(AbsorbAll(None, cs), t), Shown(AbsorbAll(None, ds), t));
  }

  lemma {:induction false} OfferedMembers(cs: seq<Candidate>, x: Entry)
    ensures x in AllOffered(cs)
       <==> exists c :: c in cs && c.payload.Items? && x in OfferedIn(c.payload.dict.storage.items)
  {
    if cs != [] {
      OfferedMembers(cs[..|cs| - 1], x);
      assert cs == cs[..|cs| - 1] + [cs[|cs| - 1]];
    }
  }

  lemma {:induction false} SameOffers(cs: seq<Candidate>, ds: seq<Candidate>)
    requires forall c :: c in cs <==> c in ds
    ensures AllOffered(cs) == AllOffered(ds)
  {
    forall x ensures x in AllOffered(cs) <==> x in AllOffered(ds) {
      OfferedMembers(cs, x);
      OfferedMembers(ds, x);
    }
  }

  // ---------------------------------------------------------------- order and contents

  ghost predicate HoldsEntry(m: Timed<Bytes>, x: Entry) {
    x.subkey in m && EntryAt(m, x.subkey) == x
  }

  /** An entry is not replaced by entries that do not expire later. */
  lemma {:induction false} EntryStays(m: Timed<Bytes>, xs: seq<Entry>, x: Entry)
    requires HoldsEntry(m, x) && forall y :: y in xs && y.subkey == x.subkey ==> y.expiration <= x.expiration
    ensures HoldsEntry(AddEntries(m, xs), x)
  {
    if xs != [] {
      var n := |xs| - 1;
      EntryStays(m, xs[..n], x);
      assert xs[n] in xs;
    }
  }

  /** The first reply keeps its say about a subkey for which it has a latest entry. */
  lemma {:induction false} FirstStays(cs: seq<Candidate>, x: Entry, t: real)
    requires cs != [] && AllInTime(cs, t) && Latest(AllOffered(cs), x)
    requires HoldsEntry(cs[0].payload.dict.storage.items, x)
    ensures var p := AbsorbAll(None, cs); FoundLasting(p, t) && HoldsEntry(p.best.value.dict.storage.items, x)
  {
    var n := |cs| - 1;
    if n == 0 {
      assert cs[..0] == [] && LastsUntil(cs[0], t);
    } else {
      assert InTime(cs[n], t) && cs[..n][0] == cs[0];
      OfferedMembers(cs[..n], x);
      assert cs[0] in cs[..n] && x in OfferedIn(cs[0].payload.dict.storage.items);
      FirstStays(cs[..n], x, t);
      var p := AbsorbAll(None, cs[..n]);
      AbsorbInTime(p, cs[n], t);
      InTimeOffers(cs[n], t);
      forall y | y in EntriesOf(cs[n].puts) && y.subkey == x.subkey ensures y.expiration <= x.expiration {
        assert y in OfferedBy(EntriesOf(cs[n].puts)) && y in AllOffered(cs);
      }
      EntryStays(p.best.value.dict.storage.items, EntriesOf(cs[n].puts), x);
    }
  }

  /** The candidates with one of them moved to the front. */
  ghost function MovedFirst(cs: seq<Candidate>, i: nat): (r: seq<Candidate>)
    requires i < |cs|
  {
    [cs[i]] + (cs[..i] + cs[i + 1..])
  }

  lemma {:induction false} MovedFirstReorders(cs: seq<Candidate>, j: nat)
    requires j < |cs|
    ensures Reordered(MovedFirst(cs, j), cs)
  {
    var a := Arrivals(cs);
    assert Arrivals(MovedFirst(cs, j)) == [a[j]] + (a[..j] + a[j + 1..]);
    RemoveAt(a, j);
    assert a[j] in multiset(a);
  }

  lemma {:induction false} ArrivalsOffer(cs: seq<Candidate>)
    ensures AllOffered(Arrivals(cs)) == AllOffered(cs)
  {
    if cs != [] {
      var n := |cs| - 1;
      ArrivalsOffer(cs[..n]);
      assert Arrivals(cs)[..n] == Arrivals(cs[..n]);
    }
  }

  lemma {:induction false} ReorderedOffers(cs: seq<Candidate>, ds: seq<Candidate>)
    requires Reordered(cs, ds)
    ensures |cs| == |ds| && AllOffered(cs) == AllOffered(ds)
  {
    SameLength(Arrivals(cs), Arrivals(ds));
    SameMembers(Arrivals(cs), Arrivals(ds));
    SameOffers(Arrivals(cs), Arrivals(ds));
    ArrivalsOffer(cs);
    ArrivalsOffer(ds);
  }

  /** The candidate was read and merged by this time. */
  ghost predicate MergedBy(c: Candidate, t: real) {
    c.read <= t && forall j :: 0 <= j < |c.puts| ==> c.puts[j].span.later <= t
  }

  /** Each reply after the first is merged at times in order, after the replies before it and by time `t`. */
  ghost predicate InTurn(cs: seq<Candidate>, t: real) {
    && (forall i :: 1 <= i < |cs| ==> Sequential(SpansOf(cs[i].puts), cs[i].read, t))
    && forall i, j :: 1 <= i < j < |cs| ==> MergedBy(cs[i], cs[j].read)
  }

  /** The entries of a dictionary, in some order. */
  ghost function ListOf(m: Timed<Bytes>): (xs: seq<Entry>)
    decreases |m|
  {
    if m == map[] then [] else var k :| k in m; ListOf(m - {k}) + [EntryAt(m, k)]
  }

  lemma {:induction false} ListOfLists(m: Timed<Bytes>)
    ensures Lists(m, ListOf(m))
    decreases |m|
  {
    if m != map[] {
      var k :| k in m && ListOf(m) == ListOf(m - {k}) + [EntryAt(m, k)];
      ListOfLists(m - {k});
      ListsPush(m, k, ListOf(m - {k}));
    }
  }

  lemma {:induction false} ListsPush(m: Timed<Bytes>, k: Key, xs: seq<Entry>)
    requires k in m && Lists(m - {k}, xs)
    ensures Lists(m, xs + [EntryAt(m, k)])
  {
    var ys := xs + [EntryAt(m, k)];
    forall j | j in m ensures exists i :: 0 <= i < |ys| && ys[i].subkey == j {
      if j == k {
        assert ys[|xs|].subkey == k;
      } else {
        assert j in m - {k};
        var i :| 0 <= i < |xs| && xs[i].subkey == j;
        assert ys[i].subkey == j;
      }
    }
  }

  /** The candidate merged at one moment, all its entries in some order. */
  ghost function MergedAt(c: Candidate, t: real): (r: Candidate) {
    var xs := if c.payload.Items? then ListOf(c.payload.dict.storage.items) else [];
    c.(shared := false, read := t, puts := seq(|xs|, i requires 0 <= i < |xs| => Put(xs[i], Span(t, t))))
  }

  lemma {:induction false} MergedAtOnce(c: Candidate, t: real)
    requires LastsUntil(c, t)
    ensures var d := MergedAt(c, t);
            Arrived(d) == Arrived(c) && InTime(d, t) && MergedBy(d, t) && Sequential(SpansOf(d.puts), d.read, t)
  {
    var m, d := c.payload.dict.storage.items, MergedAt(c, t);
    ListOfLists(m);
    NothingExpires(m, t);
    assert EntriesOf(d.puts) == ListOf(m);
    AtOnce(SpansOf(d.puts), t);
    MergedWithin(d, t);
  }

  lemma {:induction false} AtOnce(ts: seq<Span>, t: real)
    requires forall i :: 0 <= i < |ts| ==> ts[i] == Span(t, t)
    ensures Sequential(ts, t, t)
  {
    if ts != [] { AtOnce(ts[..|ts| - 1], t); }
  }

  /** The same replies in the same order, all merged at one moment. */
  ghost function AllMergedAt(cs: seq<Candidate>, t: real): (r: seq<Candidate>) {
    seq(|cs|, i requires 0 <= i < |cs| => MergedAt(cs[i], t))
  }

  lemma {:induction false} AllMergedAtOnce(cs: seq<Candidate>, t: real)
    requires forall i :: 0 <= i < |cs| ==> LastsUntil(cs[i], t)
    ensures var ds := AllMergedAt(cs, t); Reordered(ds, cs) && AllInTime(ds, t) && InTurn(ds, t)
  {
    var ds := AllMergedAt(cs, t);
    forall i | 0 <= i < |cs|
      ensures Arrived(ds[i]) == Arrived(cs[i]) && InTime(ds[i], t) && MergedBy(ds[i], t) && ds[i].read == t
           && Sequential(SpansOf(ds[i].puts), ds[i].read, t)
    {
      MergedAtOnce(cs[i], t);
    }
    assert Arrivals(ds) == Arrivals(cs);
  }

  /** Some order of the replies shows a given latest entry. */
  lemma {:induction false} FirstDecides(cs: seq<Candidate>, x: Entry, t: real) returns (ds: seq<Candidate>)
    requires AllInTime(cs, t) && Latest(AllOffered(cs), x)
    ensures Reordered(ds, cs) && AllInTime(ds, t) && InTurn(ds, t) && ds != []
    ensures HoldsEntry(Shown(AbsorbAll(None, ds), t), x)
  {
    var i := Offerer(cs, x);
    ds := AllMergedAt(MovedFirst(cs, i), t);
    MovedFirstReorders(cs, i);
    AllMergedAtOnce(MovedFirst(cs, i), t);
    ReorderedOffers(ds, cs);
    FirstStays(ds, x, t);
    NothingExpires(AbsorbAll(None, ds).best.value.dict.storage.items, t);
  }

  /** Every search that gets the same replies, in turn and in time, shows the same at this time. */
  ghost predicate SameInAnyOrder(cs: seq<Candidate>, t: real) {
    forall ds :: Reordered(ds, cs) && AllInTime(ds, t) && InTurn(ds, t) ==> Found(ds, t) == Found(cs, t)
  }

  /** So does every search that is offered the same, by whatever replies and at whatever times. */
  ghost predicate OffersDecide(cs: seq<Candidate>, t: real) {
    forall ds :: ds != [] && AllInTime(ds, t) && AllOffered(ds) == AllOffered(cs) ==> Found(ds, t) == Found(cs, t)
  }

  lemma {:induction false} DecidedInAnyOrder(cs: seq<Candidate>, t: real)
    requires cs != [] && OffersDecide(cs, t)
    ensures SameInAnyOrder(cs, t)
  {
    forall ds | Reordered(ds, cs) && AllInTime(ds, t) && InTurn(ds, t) ensures Found(ds, t) == Found(cs, t) {
      ReorderedOffers(ds, cs);
    }
  }

  lemma {:induction false} ConflictMatters(cs: seq<Candidate>, t: real, x: Entry, y: Entry)
    requires cs != [] && AllInTime(cs, t) && Latest(AllOffered(cs), x) && Latest(AllOffered(cs), y)
    requires x.subkey == y.subkey && x.value != y.value
    ensures !SameInAnyOrder(cs, t)
  {
    var ds := FirstDecides(cs, x, t);
    var ds' := FirstDecides(cs, y, t);
    assert Found(ds, t)[x.subkey].0 == x.value && Found(ds', t)[x.subkey].0 == y.value;
    assert Found(ds, t) != Found(ds', t);
  }

  /**
   * While nothing expires, the merged dictionary is the same for every order and timing of the replies
   * exactly if no two latest entries of a subkey carry different values. Then it depends on nothing but
   * what is offered.
   */
  lemma {:induction false} ContentsStableIff(cs: seq<Candidate>, t: real)
    requires cs != [] && AllInTime(cs, t)
    ensures SameInAnyOrder(cs, t) <==> NoConflict(AllOffered(cs))
    ensures OffersDecide(cs, t) <==> NoConflict(AllOffered(cs))
  {
    if NoConflict(AllOffered(cs)) {
      forall ds | ds != [] && AllInTime(ds, t) && AllOffered(ds) == AllOffered(cs)
        ensures Found(ds, t) == Found(cs, t)
      {
        OrderDoesNotMatter(cs, ds, t);
      }
      DecidedInAnyOrder(cs, t);
    } else {
      var x, y :| Latest(AllOffered(cs), x) && Latest(AllOffered(cs), y) && x.subkey == y.subkey && x.value != y.value;
      ConflictMatters(cs, t, x, y);
      if OffersDecide(cs, t) { DecidedInAnyOrder(cs, t); }
    }
  }

  lemma {:induction false} Offerer(cs: seq<Candidate>, x: Entry) returns (i: nat)
    requires x in AllOffered(cs)
    ensures i < |cs| && cs[i].payload.Items? && HoldsEntry(cs[i].payload.dict.storage.items, x)
  {
    OfferedMembers(cs, x);
    var c :| c in cs && c.payload.Items? && x in OfferedIn(c.payload.dict.storage.items);
    i :| 0 <= i < |cs| && cs[i] == c;
  }

  // ---------------------------------------------------------------- what is shown as time goes on

  /** The deadline the merged dictionary has for a subkey: that of the reply merged last that has it. */
  ghost function LastOffer(cs: seq<Candidate>, k: Key): (r: Option<real>) {
    if cs == [] then None
    else
      var n := |cs| - 1;
      if !cs[n].payload.Items? || k !in cs[n].payload.dict.storage.items then LastOffer(cs[..n], k)
      else if n == 0 then Some(cs[0].payload.dict.storage.items[k].deadline)
      else Some(cs[n].payload.dict.storage.items[k].expiration)
  }

  lemma {:induction false} AddEntriesDeadline(m: Timed<Bytes>, source: Timed<Bytes>, xs: seq<Entry>, k: Key)
    requires forall i :: 0 <= i < |xs| ==> xs[i].subkey in source && xs[i] == EntryAt(source, xs[i].subkey)
    ensures var r := AddEntries(m, xs);
            if exists i :: 0 <= i < |xs| && xs[i].subkey == k
            then k in source && k in r && r[k].deadline == source[k].expiration
            else (k in r <==> k in m) && (k in m ==> r[k] == m[k])
  {
    if xs != [] {
      var n := |xs| - 1;
      AddEntriesDeadline(m, source, xs[..n], k);
      if i :| 0 <= i < |xs| && xs[i].subkey == k { assert i < n ==> xs[..n][i].subkey == k; }
      if i :| 0 <= i < n && xs[..n][i].subkey == k { assert xs[i].subkey == k; }
    }
  }

  /** The dictionary found lasts until `u`, and has this deadline for the subkey. */
  ghost predicate DeadlineIs(p: Progress, u: real, k: Key, due: Option<real>) {
    && FoundLasting(p, u)
    && var m := p.best.value.dict.storage.items;
    (k in m <==> due.Some?) && (k in m ==> due == Some(m[k].deadline))
  }

  lemma {:induction false} DeadlineFirst(c: Candidate, u: real, k: Key)
    requires LastsUntil(c, u)
    ensures var m := c.payload.dict.storage.items;
            DeadlineIs(Absorb(START, None, c), u, k, if k in m then Some(m[k].deadline) else None)
  {
  }

  lemma {:induction false} DeadlineStep(p: Progress, c: Candidate, u: real, k: Key, due: Option<real>)
    requires DeadlineIs(p, u, k, due) && InTime(c, u)
    ensures var m := c.payload.dict.storage.items;
            DeadlineIs(Absorb(p, None, c), u, k, if k in m then Some(m[k].expiration) else due)
  {
    var source, xs := c.payload.dict.storage.items, EntriesOf(c.puts);
    AbsorbInTime(p, c, u);
    NothingExpires(source, c.read);
    assert Lists(source, xs);
    AddEntriesDeadline(p.best.value.dict.storage.items, source, xs, k);
  }

  lemma {:induction false} MergedDeadline(cs: seq<Candidate>, u: real, k: Key)
    requires cs != [] && AllInTime(cs, u)
    ensures DeadlineIs(AbsorbAll(None, cs), u, k, LastOffer(cs, k))
  {
    var n := |cs| - 1;
    if n == 0 {
      assert cs[..0] == [];
      DeadlineFirst(cs[0], u, k);
    } else {
      MergedDeadline(cs[..n], u, k);
      DeadlineStep(AbsorbAll(None, cs[..n]), cs[n], u, k, LastOffer(cs[..n], k));
    }
  }

  lemma {:induction false} ShownFrom(p: Progress, offered: set<Entry>, u: real, t: real, k: Key, due: Option<real>)
    requires DeadlineIs(p, u, k, due) && BestOf(offered, p.best.value.dict.storage.items) && u <= t
    ensures var m := Shown(p, t);
            && (k in m <==> due.Some? && due.value >= t)
            && (k in m ==> Latest(offered, EntryAt(m, k)))
  {
  }

  /**
   * Replies merged by time `u`, before anything expires: at a later time the best entry of a subkey is shown
   * exactly if the reply merged last that has the subkey gives it an expiration no earlier. So an older
   * reply that comes last takes the best entry away when it expires itself.
   */
  lemma {:induction false} BestShownIff(cs: seq<Candidate>, u: real, t: real, k: Key)
    requires cs != [] && AllInTime(cs, u) && u <= t
    ensures var m := Shown(AbsorbAll(None, cs), t);
            && (k in m <==> LastOffer(cs, k).Some? && LastOffer(cs, k).value >= t)
            && (k in m ==> Latest(AllOffered(cs), EntryAt(m, k)))
  {
    MergedDeadline(cs, u, k);
    MergedInTime(cs, u);
    ShownFrom(AbsorbAll(None, cs), AllOffered(cs), u, t, k, LastOffer(cs, k));
  }

  /** From time `u` on the best entries of all subkeys are shown as long as they live. */
  ghost predicate BestKept(cs: seq<Candidate>, u: real) {
    forall x, t :: Latest(AllOffered(cs), x) && u <= t <= x.expiration ==> x.subkey in Shown(AbsorbAll(None, cs), t)
  }

  /** The best entries of all subkeys are shown as long as they live exactly if none is followed by an older offer. */
  lemma {:induction false} BestKeptIff(cs: seq<Candidate>, u: real)
    requires cs != [] && AllInTime(cs, u)
    ensures BestKept(cs, u)
       <==> forall x :: Latest(AllOffered(cs), x) ==>
              LastOffer(cs, x.subkey).Some? && LastOffer(cs, x.subkey).value >= x.expiration
  {
    MergedInTime(cs, u);
    if BestKept(cs, u) {
      forall x | Latest(AllOffered(cs), x)
        ensures LastOffer(cs, x.subkey).Some? && LastOffer(cs, x.subkey).value >= x.expiration
      {
        OfferedInTime(cs, u, x);
        BestShownIff(cs, u, x.expiration, x.subkey);
      }
    } else {
      var x, t :| Latest(AllOffered(cs), x) && u <= t <= x.expiration && x.subkey !in Shown(AbsorbAll(None, cs), t);
      BestShownIff(cs, u, t, x.subkey);
    }
  }

  lemma {:induction false} OfferedInTime(cs: seq<Candidate>, u: real, x: Entry)
    requires AllInTime(cs, u) && x in AllOffered(cs)
    ensures x.expiration >= u
  {
    var i := Offerer(cs, x);
    assert LastsUntil(cs[i], u);
  }

  // ---------------------------------------------------------------- searches during which entries expire

  /** Everything that is stored into the dictionary of the first reply. */
  ghost function AllOps(cs: seq<Candidate>): (r: seq<Op<Bytes>>) {
    if |cs| <= 1 then [] else AllOps(cs[..|cs| - 1]) + OpsOf(cs[|cs| - 1])
  }

  ghost function OpsOf(c: Candidate): (r: seq<Op<Bytes>>) {
    (if c.shared then [ReadOp(c.read)] else []) + StoreOps(EntriesOf(c.puts), SpansOf(c.puts))
  }

  lemma {:induction false} ApplyConcat(s: Storage<Bytes>, a: seq<Op<Bytes>>, b: seq<Op<Bytes>>)
    ensures ApplyAll(s, a + b) == ApplyAll(ApplyAll(s, a), b)
  {
    if b == [] {
      assert a + b == a;
    } else {
      var n := |b| - 1;
      ApplyConcat(s, a, b[..n]);
      assert (a + b)[..|a + b| - 1] == a + b[..n];
    }
  }

  lemma {:induction false} SearchIsRun(cs: seq<Candidate>)
    requires cs != [] && forall i :: 0 <= i < |cs| ==> cs[i].payload.Items?
    requires cs[0].payload.dict.storage.maxsize.None?
    ensures var p := AbsorbAll(None, cs);
            && !p.finished && p.best.Some? && p.best.value.BestDict? && p.best.value.dict.storage.maxsize.None?
            && p.best.value.dict.storage == ApplyAll(cs[0].payload.dict.storage, AllOps(cs))
  {
    var n := |cs| - 1;
    if n == 0 {
      assert cs[..0] == [];
    } else {
      SearchIsRun(cs[..n]);
      MergeIsRun(AbsorbAll(None, cs[..n]).best.value.dict, cs[n]);
      ApplyConcat(cs[0].payload.dict.storage, AllOps(cs[..n]), OpsOf(cs[n]));
    }
  }

  lemma {:induction false} MergeIsRun(d: Dict, c: Candidate)
    requires c.payload.Items? && d.storage.maxsize.None?
    ensures StorePuts(MergeBase(d, c), c.puts).storage.maxsize.None?
    ensures StorePuts(MergeBase(d, c), c.puts).storage == ApplyAll(d.storage, OpsOf(c))
  {
    var read: seq<Op<Bytes>> := if c.shared then [ReadOp(c.read)] else [];
    StoreEntriesIsRun(MergeBase(d, c), EntriesOf(c.puts), SpansOf(c.puts));
    ApplyConcat(d.storage, read, StoreOps(EntriesOf(c.puts), SpansOf(c.puts)));
    assert c.shared ==> read[..0] == [];
    assert ApplyAll(d.storage, read) == MergeBase(d, c).storage;
    StoresKeepSettings(MergeBase(d, c).storage, StoreOps(EntriesOf(c.puts), SpansOf(c.puts)));
  }

  lemma {:induction false} AllOpsBy(cs: seq<Candidate>, t: real)
    requires forall i :: 0 <= i < |cs| ==> MergedBy(cs[i], t)
    ensures forall i :: 0 <= i < |AllOps(cs)| ==>
              By(AllOps(cs)[i], t) && (AllOps(cs)[i].StoreOp? || AllOps(cs)[i].ReadOp?)
  {
    if |cs| > 1 {
      AllOpsBy(cs[..|cs| - 1], t);
      assert MergedBy(cs[|cs| - 1], t);
    }
  }

  lemma {:induction false} StoresKeepSettings(s: Storage<Bytes>, ops: seq<Op<Bytes>>)
    requires forall i :: 0 <= i < |ops| ==> ops[i].StoreOp? || ops[i].ReadOp?
    ensures ApplyAll(s, ops).frozen == s.frozen && ApplyAll(s, ops).maxsize == s.maxsize
  {
    if ops != [] { StoresKeepSettings(s, ops[..|ops| - 1]); }
  }

  /** A size limit allows as much as another one; no limit allows everything. */
  predicate Allows(limit: Option<nat>, other: Option<nat>) {
    limit.None? || (other.Some? && other.value <= limit.value)
  }

  /**
   * What the dictionaries merge to may hold as much as any of them, so merging never evicts for a limit
   * that one of them did not have, and no more than one of them may. A reply that is the very object
   * found already brings no limit of its own.
   */
  lemma {:induction false} MergedSize(cs: seq<Candidate>) returns (k: nat)
    requires cs != [] && forall i :: 0 <= i < |cs| ==> cs[i].payload.Items?
    ensures var p := AbsorbAll(None, cs);
            && !p.finished && p.best.Some? && p.best.value.BestDict?
            && k < |cs| && p.best.value.dict.storage.maxsize == cs[k].payload.dict.storage.maxsize
            && forall i :: 0 <= i < |cs| && (i == 0 || !cs[i].shared) ==>
                 Allows(p.best.value.dict.storage.maxsize, cs[i].payload.dict.storage.maxsize)
  {
    var n := |cs| - 1;
    k := 0;
    if n == 0 {
      assert cs[..0] == [];
    } else {
      k := MergedSize(cs[..n]);
      var d := AbsorbAll(None, cs[..n]).best.value.dict;
      MergeSize(d, cs[n]);
      forall i | 0 <= i < n ensures cs[..n][i] == cs[i] {}
      if StorePuts(MergeBase(d, cs[n]), cs[n].puts).storage.maxsize != d.storage.maxsize { k := n; }
    }
  }

  lemma {:induction false} MergeSize(d: Dict, c: Candidate)
    requires c.payload.Items?
    ensures var a, b, m := d.storage.maxsize, c.payload.dict.storage.maxsize,
                           StorePuts(MergeBase(d, c), c.puts).storage.maxsize;
            && Allows(m, a) && (m == a || (m == b && !c.shared)) && (!c.shared ==> Allows(m, b))
  {
    StoreEntriesIsRun(MergeBase(d, c), EntriesOf(c.puts), SpansOf(c.puts));
    StoresKeepSettings(MergeBase(d, c).storage, StoreOps(EntriesOf(c.puts), SpansOf(c.puts)));
  }

  /**
   * Exactly which subkeys a search over dictionaries shows at a time after all merging, whatever expired
   * meanwhile: those for which the entry stored last that was not too late expires no earlier.
   */
  lemma {:induction false} ShownIff(cs: seq<Candidate>, k: Key, t: real)
    requires cs != [] && forall i :: 0 <= i < |cs| ==> cs[i].payload.Items?
    requires var s := cs[0].payload.dict.storage; !s.frozen && s.maxsize.None?
    requires forall i :: 0 <= i < |cs| ==> MergedBy(cs[i], t)
    ensures var due := Due(cs[0].payload.dict.storage, AllOps(cs), k);
            k in Shown(AbsorbAll(None, cs), t) <==> due.Some? && due.value >= t
  {
    SearchIsRun(cs);
    AllOpsBy(cs, t);
    StoresKeepSettings(cs[0].payload.dict.storage, AllOps(cs));
    ReadableIff(cs[0].payload.dict.storage, AllOps(cs), k, t);
  }

  /** A search that loses its best entry: 100 is offered first, 50 is merged at 10, and at 60 nothing is shown. */
  lemma {:induction false} OlderReplyLoses(v: Bytes, w: Bytes)
    ensures var first := Dict(Storage(map[7 := Item(v, 100.0, 100.0)], false, None), Some(100.0));
            var second := Dict(Storage(map[7 := Item(w, 50.0, 50.0)], false, None), Some(50.0));
            var c := Candidate(Items(first), 100.0, 1, false, 0.0, []);
            var d := Candidate(Items(second), 50.0, 2, false, 10.0, [Put(Entry(7, w, 50.0), Span(10.0, 10.0))]);
            && AllInTime([c, d], 10.0) && Entry(7, v, 100.0) in AllOffered([c, d])
            && 7 in Shown(AbsorbAll(None, [c, d]), 10.0) && 7 !in Shown(AbsorbAll(None, [c, d]), 60.0)
  {
    var m, m' := map[7 := Item(v, 100.0, 100.0)], map[7 := Item(w, 50.0, 50.0)];
    var x, y := Entry(7, v, 100.0), Entry(7, w, 50.0);
    var first, second := Dict(Storage(m, false, None), Some(100.0)), Dict(Storage(m', false, None), Some(50.0));
    var c := Candidate(Items(first), 100.0, 1, false, 0.0, []);
    var d := Candidate(Items(second), 50.0, 2, false, 10.0, [Put(y, Span(10.0, 10.0))]);
    NothingExpires(m', 10.0);
    assert EntriesOf(d.puts) == [y] && [y][0].subkey == 7;
    assert LastsUntil(c, 10.0) && InTime(d, 10.0);
    assert [c, d][..1] == [c] && [c][..0] == [];
    assert EntryAt(m, 7) == x && x in OfferedIn(m);
    assert LastOffer([c, d], 7) == Some(50.0);
    BestShownIff([c, d], 10.0, 10.0, 7);
    BestShownIff([c, d], 10.0, 60.0, 7);
  }
}
