/** The record predicate of the subnet: key types, per-epoch limits and commit-reveal windows. */
module CommitReveal {
  import opened Basics
  import opened Epochs

  datatype KeyType = Heartbeat | ScoresReveal | VerifierCommit | VerifierReveal | ScoresCommit

  /** Record keys are hashes of names; distinct names are taken to have distinct hashes. */
  datatype RecordKey = NodeKey | EpochKey(kind: KeyType, epoch: nat) | OtherKey(id: nat)

  /** `caller` is the peer whose public key is in the subkey, if there is one. */
  datatype Record = Record(key: RecordKey, caller: Caller, expiration: real)

  datatype Caller = Unknown | Known(peer: PeerId)

  datatype RequestType = Get | Post

  const EPOCH_LENGTH: nat := 300
  const EPOCH_SECS: real := (BLOCK_SECS * EPOCH_LENGTH) as real
  const MAX_HEART_BEAT_TIME: real := EPOCH_SECS * 1.1
  const MAX_COMMIT_TIME: real := EPOCH_SECS * 5.0
  const MAX_REVEAL_TIME: real := EPOCH_SECS * 5.0
  const VERIFIER_COMMIT_DEADLINE: real := 0.5
  const VERIFIER_REVEAL_DEADLINE: real := 0.6
  const SCORES_REVEAL_DEADLINE: real := 0.6
  const MAX_EPOCH_HISTORY: nat := 5

  function Limit(kind: KeyType): (n: nat) {
    if kind.Heartbeat? then 100 else 1
  }

  datatype Slot = Slot(epoch: nat, kind: KeyType, peer: PeerId)

  /** Stores counted per epoch, key type and peer; what is missing counts as zero. */
  type Tracker = map<Slot, nat>

  function Count(t: Tracker, s: Slot): (n: nat) {
    if s in t then t[s] else 0
  }

  function KeyTypeOf(key: RecordKey, epoch: nat): (r: Option<KeyType>) {
    match key
    case NodeKey => Some(Heartbeat)
    case EpochKey(kind, e) => if e == epoch && !kind.Heartbeat? then Some(kind) else None
    case OtherKey(_) => None
  }

  /** The part of the epoch in which a key type may be stored. */
  predicate InWindow(kind: KeyType, percent: real) {
    match kind
    case Heartbeat => true
    case VerifierCommit => percent <= VERIFIER_COMMIT_DEADLINE
    case VerifierReveal => VERIFIER_COMMIT_DEADLINE < percent <= VERIFIER_REVEAL_DEADLINE
    case ScoresReveal => VERIFIER_COMMIT_DEADLINE < percent <= SCORES_REVEAL_DEADLINE
    case ScoresCommit => percent > SCORES_REVEAL_DEADLINE
  }

  function MaxLifetime(kind: KeyType): (t: real) {
    match kind
    case Heartbeat => MAX_HEART_BEAT_TIME
    case VerifierCommit => MAX_COMMIT_TIME
    case ScoresCommit => MAX_COMMIT_TIME
    case _ => MAX_REVEAL_TIME
  }

  function Cleanup(t: Tracker, epoch: nat): (r: Tracker) {
    map s | s in t && s.epoch + MAX_EPOCH_HISTORY >= epoch :: t[s]
  }

  /** What the chain and the clock say when a record arrives. */
  datatype Moment = Moment(block: nat, time: real)

  /** The answer for a record and the tracker afterwards. */
  function Decide(t: Tracker, slot: nat, length: nat, record: Record, request: RequestType, now: Moment)
    : (r: (Tracker, bool))
    requires length > 0
  {
    if record.caller.Unknown? then (t, false)
    else if request.Get? then (t, true)
    else
      var d := SubnetEpochData(now.block, slot, length);
      var t1 := Cleanup(t, d.epoch);
      match KeyTypeOf(record.key, d.epoch)
      case None => (t1, false)
      case Some(kind) =>
        var s := Slot(d.epoch, kind, record.caller.peer);
        if Count(t1, s) >= Limit(kind) then (t1, false)
        else if !InWindow(kind, d.percentComplete) || record.expiration > now.time + MaxLifetime(kind) then (t1, false)
        else (t1[s := Count(t1, s) + 1], true)
  }

  /** The object behind the predicate. */
  class CommitRevealPredicate {
    const slot: nat
    const length: nat
    var tracker: Tracker

    constructor (slot: nat, length: nat)
      ensures this.slot == slot && this.length == length && tracker == map[]
    {
      this.slot, this.length, tracker := slot, length, map[];
    }

    /** Deletes the counters of one old epoch after the other. */
    method CleanupOldEpochs(epoch: nat)
      modifies this
      ensures forall s :: s in tracker <==> s in old(tracker) && s.epoch + MAX_EPOCH_HISTORY >= epoch
      ensures forall s :: s in tracker ==> tracker[s] == old(tracker)[s]
    {
      var oldEpochs := set s | s in tracker && s.epoch + MAX_EPOCH_HISTORY < epoch :: s.epoch;
      while oldEpochs != {}
        invariant forall e :: e in oldEpochs ==> e + MAX_EPOCH_HISTORY < epoch
        invariant forall s :: s in tracker ==> s in old(tracker) && tracker[s] == old(tracker)[s]
        invariant forall s :: s in old(tracker) && s !in tracker ==> s.epoch + MAX_EPOCH_HISTORY < epoch
        invariant forall s :: s in tracker && s.epoch + MAX_EPOCH_HISTORY < epoch ==> s.epoch in oldEpochs
        decreases oldEpochs
      {
        var e :| e in oldEpochs;
        tracker := map s | s in tracker && s.epoch != e :: tracker[s];
        oldEpochs := oldEpochs - {e};
      }
    }

    method Call(record: Record, request: RequestType, now: Moment) returns (ok: bool)
      requires length > 0
      modifies this
      ensures (tracker, ok) == Decide(old(tracker), slot, length, record, request, now)
    {
      if record.caller.Unknown? { return false; }
      if request.Get? { return true; }
      var data := SubnetEpochData(now.block, slot, length);
      CleanupOldEpochs(data.epoch);
      assert tracker == Cleanup(old(tracker), data.epoch);
      var found := KeyTypeOf(record.key, data.epoch);
      if found.None? { return false; }
      var kind := found.value;
      var s := Slot(data.epoch, kind, record.caller.peer);
      if Count(tracker, s) >= Limit(kind) { return false; }
      if kind.Heartbeat? {
        if record.expiration > now.time + MAX_HEART_BEAT_TIME { return false; }
      } else if kind.VerifierCommit? {
        if data.percentComplete > VERIFIER_COMMIT_DEADLINE { return false; }
        if record.expiration > now.time + MAX_COMMIT_TIME { return false; }
      } else if kind.VerifierReveal? {
        if data.percentComplete <= VERIFIER_COMMIT_DEADLINE { return false; }
        if data.percentComplete > VERIFIER_REVEAL_DEADLINE { return false; }
        if record.expiration > now.time + MAX_REVEAL_TIME { return false; }
      } else if kind.ScoresReveal? {
        if data.percentComplete <= VERIFIER_COMMIT_DEADLINE { return false; }
        if data.percentComplete > SCORES_REVEAL_DEADLINE { return false; }
        if record.expiration > now.time + MAX_REVEAL_TIME { return false; }
      } else {
        if data.percentComplete <= SCORES_REVEAL_DEADLINE { return false; }
        if record.expiration > now.time + MAX_COMMIT_TIME { return false; }
      }
      tracker := tracker[s := Count(tracker, s) + 1];
      return true;
    }
  }

  // ---------------------------------------------------------------- whole runs

  datatype Request = Request(record: Record, request: RequestType, now: Moment)

  /** An accepted store: its slot and the block at which it was accepted. */
  datatype Accepted = Accepted(slot: Slot, block: nat)

  function After(slot: nat, length: nat, rs: seq<Request>): (t: Tracker)
    requires length > 0
  {
    if rs == [] then map[]
    else
      var r := rs[|rs| - 1];
      Decide(After(slot, length, rs[..|rs| - 1]), slot, length, r.record, r.request, r.now).0
  }

  /** All accepted stores of a run, in order. */
  function History(slot: nat, length: nat, rs: seq<Request>): (h: seq<Accepted>)
    requires length > 0
  {
    if rs == [] then []
    else
      var r, before := rs[|rs| - 1], rs[..|rs| - 1];
      var h := History(slot, length, before);
      if r.request.Post? && Decide(After(slot, length, before), slot, length, r.record, r.request, r.now).1
      then
        var e := EpochAt(r.now.block, slot, length);
        assert r.record.caller.Known? && KeyTypeOf(r.record.key, e).Some?;
        h + [Accepted(Slot(e, KeyTypeOf(r.record.key, e).value, r.record.caller.peer), r.now.block)]
      else h
  }

  function Times(h: seq<Accepted>, s: Slot): (n: nat) {
    if h == [] then 0 else Times(h[..|h| - 1], s) + (if h[|h| - 1].slot == s then 1 else 0)
  }

  ghost predicate BlocksAdvance(rs: seq<Request>) {
    forall i, j :: 0 <= i < j < |rs| ==> rs[i].now.block <= rs[j].now.block
  }

  /** The tracker still knows everything about the recent epochs. */
  ghost predicate Tracks(t: Tracker, h: seq<Accepted>, epoch: nat) {
    forall s: Slot :: s.epoch + MAX_EPOCH_HISTORY >= epoch ==> Count(t, s) == Times(h, s)
  }

  lemma {:induction false} TimesPush(h: seq<Accepted>, a: Accepted, s: Slot)
    ensures Times(h + [a], s) == Times(h, s) + (if a.slot == s then 1 else 0)
  {
    assert (h + [a])[..|h|] == h;
  }

  lemma {:induction false} CleanupTracks(t: Tracker, h: seq<Accepted>, before: nat, epoch: nat)
    requires Tracks(t, h, before) && before <= epoch
    ensures Tracks(Cleanup(t, epoch), h, epoch)
  {
    forall s: Slot | s.epoch + MAX_EPOCH_HISTORY >= epoch ensures Count(Cleanup(t, epoch), s) == Times(h, s) {
      assert Count(t, s) == Times(h, s);
    }
  }

  lemma {:induction false} AcceptTracks(t: Tracker, h: seq<Accepted>, epoch: nat, s: Slot, block: nat)
    requires Tracks(t, h, epoch) && s.epoch == epoch
    ensures Tracks(t[s := Count(t, s) + 1], h + [Accepted(s, block)], epoch)
  {
    forall s': Slot | s'.epoch + MAX_EPOCH_HISTORY >= epoch
      ensures Count(t[s := Count(t, s) + 1], s') == Times(h + [Accepted(s, block)], s')
    {
      TimesPush(h, Accepted(s, block), s');
      assert Count(t, s') == Times(h, s');
    }
  }

  /** The epoch of the latest request that reached the chain data, zero before the first. */
  ghost function LastEpoch(slot: nat, length: nat, rs: seq<Request>): nat
    requires length > 0
  {
    if rs == [] then 0
    else
      var r := rs[|rs| - 1];
      if r.record.caller.Known? && r.request.Post? then EpochAt(r.now.block, slot, length)
      else LastEpoch(slot, length, rs[..|rs| - 1])
  }

  lemma {:induction false} LastEpochBounded(slot: nat, length: nat, rs: seq<Request>, block: nat)
    requires length > 0 && forall i :: 0 <= i < |rs| ==> rs[i].now.block <= block
    ensures LastEpoch(slot, length, rs) <= EpochAt(block, slot, length)
  {
    if rs != [] {
      EpochsAdvance(rs[|rs| - 1].now.block, block, slot, length);
      LastEpochBounded(slot, length, rs[..|rs| - 1], block);
    }
  }

  ghost predicate WithinLimits(h: seq<Accepted>) {
    forall s: Slot :: Times(h, s) <= Limit(s.kind)
  }

  lemma {:induction false} OneDecision(t: Tracker, h: seq<Accepted>, before: nat, slot: nat, length: nat, r: Request)
    requires length > 0 && Tracks(t, h, before) && WithinLimits(h)
    requires r.record.caller.Known? && r.request.Post? && before <= EpochAt(r.now.block, slot, length)
    ensures var (t', ok) := Decide(t, slot, length, r.record, r.request, r.now);
            var e := EpochAt(r.now.block, slot, length);
            if ok then
              && KeyTypeOf(r.record.key, e).Some?
              && var a := Accepted(Slot(e, KeyTypeOf(r.record.key, e).value, r.record.caller.peer), r.now.block);
              Tracks(t', h + [a], e) && WithinLimits(h + [a])
            else Tracks(t', h, e)
  {
    var e := EpochAt(r.now.block, slot, length);
    CleanupTracks(t, h, before, e);
    var t1 := Cleanup(t, e);
    var (t', ok) := Decide(t, slot, length, r.record, r.request, r.now);
    if ok {
      var s := Slot(e, KeyTypeOf(r.record.key, e).value, r.record.caller.peer);
      AcceptTracks(t1, h, e, s, r.now.block);
      forall s': Slot ensures Times(h + [Accepted(s, r.now.block)], s') <= Limit(s'.kind) {
        TimesPush(h, Accepted(s, r.now.block), s');
        assert Times(h, s') <= Limit(s'.kind);
        assert s' == s ==> Count(t1, s) == Times(h, s);
      }
    }
  }

  /**
   * In every run with non-decreasing block numbers, no peer gets more stores of a key type accepted
   * in an epoch than its limit, although counters of old epochs are thrown away.
   */
  lemma {:induction false} LimitsHold(slot: nat, length: nat, rs: seq<Request>)
    requires length > 0 && BlocksAdvance(rs)
    ensures WithinLimits(History(slot, length, rs))
    ensures Tracks(After(slot, length, rs), History(slot, length, rs), LastEpoch(slot, length, rs))
  {
    if rs != [] {
      var n := |rs| - 1;
      LimitsHold(slot, length, rs[..n]);
      if rs[n].record.caller.Known? && rs[n].request.Post? {
        LastEpochBounded(slot, length, rs[..n], rs[n].now.block);
        OneDecision(After(slot, length, rs[..n]), History(slot, length, rs[..n]), LastEpoch(slot, length, rs[..n]),
                    slot, length, rs[n]);
      }
    }
  }

  // ---------------------------------------------------------------- order of phases

  /** The phase of the epoch a key type belongs to. */
  function Phase(kind: KeyType): (n: nat)
    requires !kind.Heartbeat?
  {
    match kind
    case VerifierCommit => 0
    case VerifierReveal => 1
    case ScoresReveal => 1
    case ScoresCommit => 2
  }

  /** Accepted at a block of the slot's own epoch, inside the window of its key type. */
  ghost predicate Timed(a: Accepted, slot: nat, length: nat)
    requires length > 0
  {
    EpochAt(a.block, slot, length) == a.slot.epoch && InWindow(a.slot.kind, PercentAt(a.block, slot, length))
  }

  lemma {:induction false} HistoryTimed(slot: nat, length: nat, rs: seq<Request>)
    requires length > 0
    ensures forall i :: 0 <= i < |History(slot, length, rs)| ==> Timed(History(slot, length, rs)[i], slot, length)
  {
    if rs != [] { HistoryTimed(slot, length, rs[..|rs| - 1]); }
  }

  lemma {:induction false} HistoryBounded(slot: nat, length: nat, rs: seq<Request>, block: nat)
    requires length > 0 && forall i :: 0 <= i < |rs| ==> rs[i].now.block <= block
    ensures forall i :: 0 <= i < |History(slot, length, rs)| ==> History(slot, length, rs)[i].block <= block
  {
    if rs != [] { HistoryBounded(slot, length, rs[..|rs| - 1], block); }
  }

  ghost predicate Advancing(h: seq<Accepted>) {
    forall i, j :: 0 <= i < j < |h| ==> h[i].block <= h[j].block
  }

  lemma {:induction false} HistoryAdvances(slot: nat, length: nat, rs: seq<Request>)
    requires length > 0 && BlocksAdvance(rs)
    ensures Advancing(History(slot, length, rs))
  {
    if rs != [] {
      var n := |rs| - 1;
      HistoryAdvances(slot, length, rs[..n]);
      HistoryBounded(slot, length, rs[..n], rs[n].now.block);
    }
  }

  /**
   * Accepted records come in the order of their phases: commits of an epoch before its reveals,
   * those before its score commits, and everything of an epoch before anything of a later one.
   */
  lemma {:induction false} PhasesInOrder(slot: nat, length: nat, rs: seq<Request>, i: nat, j: nat)
    requires length > 0 && BlocksAdvance(rs)
    requires var h := History(slot, length, rs);
             && i < |h| && j < |h|
             && (h[i].slot.epoch < h[j].slot.epoch ||
                 (h[i].slot.epoch == h[j].slot.epoch && !h[i].slot.kind.Heartbeat? && !h[j].slot.kind.Heartbeat?
                  && Phase(h[i].slot.kind) < Phase(h[j].slot.kind)))
    ensures History(slot, length, rs)[i].block < History(slot, length, rs)[j].block && i < j
  {
    var h := History(slot, length, rs);
    HistoryTimed(slot, length, rs);
    HistoryAdvances(slot, length, rs);
    assert Timed(h[i], slot, length) && Timed(h[j], slot, length);
    if h[j].block <= h[i].block { EpochsAdvance(h[j].block, h[i].block, slot, length); }
  }

  /** In particular a score commit of an epoch is accepted before the score reveal two epochs later. */
  lemma {:induction false} CommitBeforeReveal(slot: nat, length: nat, rs: seq<Request>, i: nat, j: nat)
    requires length > 0 && BlocksAdvance(rs)
    requires var h := History(slot, length, rs);
             && i < |h| && j < |h| && h[i].slot.kind.ScoresCommit? && h[j].slot.kind.ScoresReveal?
             && h[j].slot.epoch == h[i].slot.epoch + 2
    ensures i < j
  {
    PhasesInOrder(slot, length, rs, i, j);
  }

  // ---------------------------------------------------------------- who gets accepted

  /** A store of this key type and epoch by this peer. */
  ghost predicate Posts(r: Request, s: Slot) {
    && r.request.Post? && r.record.caller == Known(s.peer)
    && r.record.key == EpochKey(s.kind, s.epoch) && !s.kind.Heartbeat?
  }

  /** The store is made in its own epoch, inside its window, with an expiration that is not too late. */
  ghost predicate WellTimed(r: Request, s: Slot, slot: nat, length: nat)
    requires length > 0
  {
    && EpochAt(r.now.block, slot, length) == s.epoch && InWindow(s.kind, PercentAt(r.now.block, slot, length))
    && r.record.expiration <= r.now.time + MaxLifetime(s.kind)
  }

  /** Request `i` of the run was accepted as a store of this slot. */
  ghost predicate AcceptedAs(slot: nat, length: nat, rs: seq<Request>, i: nat, s: Slot)
    requires length > 0 && i < |rs|
  {
    var r := rs[i];
    && r.request.Post? && r.record.caller == Known(s.peer)
    && EpochAt(r.now.block, slot, length) == s.epoch && KeyTypeOf(r.record.key, s.epoch) == Some(s.kind)
    && Decide(After(slot, length, rs[..i]), slot, length, r.record, r.request, r.now).1
  }

  lemma {:induction false} TimesStep(slot: nat, length: nat, rs: seq<Request>, n: nat, s: Slot)
    requires length > 0 && n < |rs|
    ensures Times(History(slot, length, rs[..n + 1]), s)
         == Times(History(slot, length, rs[..n]), s) + (if AcceptedAs(slot, length, rs, n, s) then 1 else 0)
  {
    assert rs[..n + 1][..n] == rs[..n] && rs[..n + 1][n] == rs[n];
    var r, h := rs[n], History(slot, length, rs[..n]);
    if r.request.Post? && Decide(After(slot, length, rs[..n]), slot, length, r.record, r.request, r.now).1 {
      var e := EpochAt(r.now.block, slot, length);
      TimesPush(h, Accepted(Slot(e, KeyTypeOf(r.record.key, e).value, r.record.caller.peer), r.now.block), s);
    }
  }

  /** Counted stores are those that were accepted. */
  lemma {:induction false} CountedIff(slot: nat, length: nat, rs: seq<Request>, n: nat, s: Slot)
    requires length > 0 && n <= |rs|
    ensures Times(History(slot, length, rs[..n]), s) > 0
       <==> exists i :: 0 <= i < n && AcceptedAs(slot, length, rs, i, s)
  {
    if n > 0 {
      CountedIff(slot, length, rs, n - 1, s);
      TimesStep(slot, length, rs, n - 1, s);
    }
  }

  /**
   * Exactly which stores are accepted in a run, in terms of what was accepted before: the key belongs to
   * the current epoch, the peer has not used up its limit, the window is open, and the expiration is
   * not too late.
   */
  lemma {:induction false} AcceptedIff(slot: nat, length: nat, rs: seq<Request>, n: nat)
    requires length > 0 && BlocksAdvance(rs) && n < |rs| && rs[n].request.Post? && rs[n].record.caller.Known?
    ensures var r, e := rs[n], EpochAt(rs[n].now.block, slot, length);
            Decide(After(slot, length, rs[..n]), slot, length, r.record, r.request, r.now).1
            <==> && KeyTypeOf(r.record.key, e).Some?
                 && var kind := KeyTypeOf(r.record.key, e).value;
                 && Times(History(slot, length, rs[..n]), Slot(e, kind, r.record.caller.peer)) < Limit(kind)
                 && InWindow(kind, PercentAt(r.now.block, slot, length))
                 && r.record.expiration <= r.now.time + MaxLifetime(kind)
  {
    var before, r, e := rs[..n], rs[n], EpochAt(rs[n].now.block, slot, length);
    LimitsHold(slot, length, before);
    LastEpochBounded(slot, length, before, r.now.block);
    CleanupTracks(After(slot, length, before), History(slot, length, before), LastEpoch(slot, length, before), e);
    if KeyTypeOf(r.record.key, e).Some? {
      var s := Slot(e, KeyTypeOf(r.record.key, e).value, r.record.caller.peer);
      assert Count(Cleanup(After(slot, length, before), e), s) == Times(History(slot, length, before), s);
    }
  }

  /** Everybody who names a public key may read anything at any time, and nobody else may do anything. */
  lemma {:induction false} GetGranted(t: Tracker, slot: nat, length: nat, record: Record, request: RequestType,
                                      now: Moment)
    requires length > 0
    ensures var r := Decide(t, slot, length, record, request, now);
            && (record.caller.Unknown? ==> r == (t, false))
            && (record.caller.Known? && request.Get? ==> r == (t, true))
  {
  }

  ghost function Below(p: nat -> bool, n: nat): (r: set<nat>) {
    set i: nat | i < n && p(i)
  }

  lemma {:induction false} BelowStep(p: nat -> bool, n: nat)
    ensures |Below(p, n + 1)| == |Below(p, n)| + (if p(n) then 1 else 0)
  {
    if p(n) { assert Below(p, n + 1) == Below(p, n) + {n}; } else { assert Below(p, n + 1) == Below(p, n); }
  }

  ghost function IsAccepted(slot: nat, length: nat, rs: seq<Request>, s: Slot): (p: nat -> bool)
    requires length > 0
  {
    (i: nat) => i < |rs| && AcceptedAs(slot, length, rs, i, s)
  }

  /** The requests before `n` that were accepted as stores of this slot. */
  ghost function Earlier(slot: nat, length: nat, rs: seq<Request>, n: nat, s: Slot): (r: set<nat>)
    requires length > 0
  {
    Below(IsAccepted(slot, length, rs, s), n)
  }

  lemma {:induction false} EarlierCounts(slot: nat, length: nat, rs: seq<Request>, n: nat, s: Slot)
    requires length > 0 && n <= |rs|
    ensures Times(History(slot, length, rs[..n]), s) == |Earlier(slot, length, rs, n, s)|
  {
    if n == 0 {
      assert Earlier(slot, length, rs, 0, s) == {};
    } else {
      EarlierCounts(slot, length, rs, n - 1, s);
      TimesStep(slot, length, rs, n - 1, s);
      BelowStep(IsAccepted(slot, length, rs, s), n - 1);
    }
  }

  /** What may be stored when, for how long and how often: heartbeats, and the four keys of the current epoch. */
  ghost predicate Admits(key: RecordKey, epoch: nat, percent: real, lifetime: real, stored: KeyType -> nat) {
    match key
    case NodeKey => stored(Heartbeat) < 100 && lifetime <= 1980.0
    case OtherKey(_) => false
    case EpochKey(kind, e) =>
      && e == epoch && lifetime <= 9000.0 && stored(kind) == 0
      && match kind
         case Heartbeat => false
         case VerifierCommit => percent <= 0.5
         case VerifierReveal => 0.5 < percent <= 0.6
         case ScoresReveal => 0.5 < percent <= 0.6
         case ScoresCommit => 0.6 < percent
  }

  /** The rules in numbers: a known peer's store is accepted in a run exactly if they admit it. */
  lemma {:induction false} AcceptedByRules(slot: nat, length: nat, rs: seq<Request>, n: nat)
    requires length > 0 && BlocksAdvance(rs) && n < |rs| && rs[n].request.Post? && rs[n].record.caller.Known?
    ensures var r, e := rs[n], EpochAt(rs[n].now.block, slot, length);
            Decide(After(slot, length, rs[..n]), slot, length, r.record, r.request, r.now).1
            <==> Admits(r.record.key, e, PercentAt(r.now.block, slot, length), r.record.expiration - r.now.time,
                        kind => |Earlier(slot, length, rs, n, Slot(e, kind, r.record.caller.peer))|)
  {
    var r, e := rs[n], EpochAt(rs[n].now.block, slot, length);
    AcceptedIff(slot, length, rs, n);
    if KeyTypeOf(r.record.key, e).Some? {
      EarlierCounts(slot, length, rs, n, Slot(e, KeyTypeOf(r.record.key, e).value, r.record.caller.peer));
    }
  }

  /** For a key of an epoch: accepted exactly if well timed and no store of the key was accepted before. */
  lemma {:induction false} KeyAcceptedIff(slot: nat, length: nat, rs: seq<Request>, n: nat, s: Slot)
    requires length > 0 && BlocksAdvance(rs) && n < |rs| && Posts(rs[n], s)
    ensures AcceptedAs(slot, length, rs, n, s)
       <==> WellTimed(rs[n], s, slot, length) && !exists i :: 0 <= i < n && AcceptedAs(slot, length, rs, i, s)
  {
    AcceptedIff(slot, length, rs, n);
    CountedIff(slot, length, rs, n, s);
  }

  /** The first well-timed store of a peer for a key is always accepted, whatever others do. */
  lemma {:induction false} FirstIsAccepted(slot: nat, length: nat, rs: seq<Request>, n: nat, s: Slot)
    requires length > 0 && BlocksAdvance(rs) && n < |rs|
    requires Posts(rs[n], s) && WellTimed(rs[n], s, slot, length)
    requires forall i :: 0 <= i < n ==> !(Posts(rs[i], s) && WellTimed(rs[i], s, slot, length))
    ensures AcceptedAs(slot, length, rs, n, s)
  {
    KeyAcceptedIff(slot, length, rs, n, s);
    if i :| 0 <= i < n && AcceptedAs(slot, length, rs, i, s) {
      assert Posts(rs[i], s);
      KeyAcceptedIff(slot, length, rs, i, s);
    }
  }
}
