/** The process that runs the consensus, and how its stores fare with an acceptor. */
module Producer {
  import opened Basics
  import opened XorMetric
  import opened Epochs
  import opened CommitReveal
  import opened ProducerSpec

  /**
   * The consensus process. Everything it reads from the chain comes from `setup`, running out of readings
   * is the stop event, and attempt number `k` at an epoch meets the answers and exceptions `answers(k)`.
   */
  class Consensus {
    const setup: Setup
    const answers: nat -> Answers
    var position: nat
    var stores: seq<Store>
    var latestTaskCommit: Option<Commit>
    var latestScoresCommit: map<nat, nat>
    var epochScores: set<nat>

    function View(): Node
      reads this
    {
      Node(position, stores, latestTaskCommit, latestScoresCommit, epochScores)
    }

    constructor (setup: Setup, answers: nat -> Answers)
      ensures View() == FRESH_NODE && this.setup == setup && this.answers == answers
    {
      this.setup, this.answers := setup, answers;
      position, stores, latestTaskCommit, latestScoresCommit, epochScores := 0, [], None, map[], {};
    }

    method Read() returns (data: EpochData)
      requires position < |setup.readings|
      modifies this`position
      ensures position == old(position) + 1 && data == setup.readings[old(position)]
    {
      data := setup.readings[position];
      position := position + 1;
    }

    /** Sends out a store right after the last reading, unless that raises before anything is sent. */
    method Send(kind: KeyType, epoch: nat, content: nat, fault: Fault) returns (raised: bool)
      requires 0 < position <= |setup.readings|
      modifies this`stores
      ensures (View(), raised) == Publish(setup, old(View()), kind, epoch, content, fault)
    {
      if fault == StoreFault(false) { return true; }
      stores := stores + [Store(kind, epoch, setup.readings[position - 1].block, content)];
      return fault.StoreFault?;
    }

    /** The attestation phase reads the chain as often as it is told to. */
    method RunConsensus(a: Answers) returns (raised: bool)
      requires position <= |setup.readings|
      modifies this`position
      ensures (View(), raised) == Attest(setup, old(View()), a)
    {
      var done := 0;
      while done < a.attestReadings && position < |setup.readings|
        invariant done <= a.attestReadings && position == old(position) + done <= |setup.readings|
      {
        var _ := Read();
        done := done + 1;
      }
      return a.attestRaises;
    }

    /** Commits at the very next reading, if that is early enough and there are peers to score. */
    method RunTaskCommit(current: nat, a: Answers) returns (raised: bool)
      requires position <= |setup.readings|
      modifies this`position, this`stores, this`latestTaskCommit
      ensures (View(), raised) == TaskCommit(setup, old(View()), current, a)
    {
      if position == |setup.readings| { return false; }
      if !a.taskFault.Reaches(position, position) { return true; }
      var data := Read();
      if data.epoch != current || data.percentComplete > VERIFIER_COMMIT_DEADLINE { return false; }
      if !a.anyPeers { return a.taskFault.StoreFault?; }
      raised := Send(VerifierCommit, current, a.taskContent, a.taskFault);
      if !raised { latestTaskCommit := Some(Commit(current, a.taskContent)); }
    }

    /**
     * Reads until the epoch or the given progress is left behind, and says whether the reading that ends
     * the wait came before the stop event and before any exception, in the epoch and within the limit.
     */
    method Wait(current: nat, progress: real, limit: real, fault: Fault) returns (inside: bool, raised: bool)
      requires position <= |setup.readings|
      modifies this`position
      ensures Waited(position, inside, raised) == WaitFor(setup, old(position), current, progress, limit, fault)
    {
      var from := position;
      while position < |setup.readings|
        invariant from <= position <= |setup.readings| && (fault.ChainFault? ==> position <= from + fault.after)
        invariant WaitUntil(setup, from, current, progress) == WaitUntil(setup, position, current, progress)
        decreases |setup.readings| - position
      {
        WaitUntilForward(setup, position, current, progress);
        if !fault.Reaches(from, position) { return false, true; }
        var data := Read();
        if data.epoch == current && data.percentComplete <= progress { continue; }
        return data.epoch == current && data.percentComplete <= limit, false;
      }
      return false, false;
    }

    /** Reveals at the first reading past the commit deadline, if it is in time and there is a commit of this epoch. */
    method RunTaskReveal(current: nat, a: Answers) returns (raised: bool)
      requires position <= |setup.readings|
      modifies this`position, this`stores
      ensures (View(), raised) == TaskReveal(setup, old(View()), current, a)
    {
      var inside;
      inside, raised := Wait(current, VERIFIER_COMMIT_DEADLINE, VERIFIER_REVEAL_DEADLINE, a.revealFault);
      if !inside { return; }
      if latestTaskCommit.None? || latestTaskCommit.value.epoch != current { return a.revealFault.StoreFault?; }
      raised := Send(VerifierReveal, current, latestTaskCommit.value.content, a.revealFault);
    }

    /** Reveals the scores committed two epochs ago, if there are any, at the first reading past the commit deadline. */
    method RunRevealScores(current: nat, a: Answers) returns (raised: bool)
      requires position <= |setup.readings|
      modifies this`position, this`stores
      ensures (View(), raised) == RevealScores(setup, old(View()), current, a)
    {
      var inside;
      inside, raised := Wait(current, VERIFIER_COMMIT_DEADLINE, SCORES_REVEAL_DEADLINE, a.scoresRevealFault);
      if !inside { return; }
      if current < 2 || current - 2 !in latestScoresCommit { return a.scoresRevealFault.StoreFault?; }
      raised := Send(ScoresReveal, current, latestScoresCommit[current - 2], a.scoresRevealFault);
    }

    /**
     * Scores peers at the first reading past the reveal deadline, if it is in the epoch; `found` says that
     * this gave any scores. An epoch is never more than complete, so there is no upper limit.
     */
    method RunVerifyAndScorePeers(current: nat, a: Answers) returns (found: bool, raised: bool)
      requires position <= |setup.readings|
      modifies this`position
      ensures var w := WaitFor(setup, old(position), current, VERIFIER_REVEAL_DEADLINE, 1.0, a.scoreFault);
              && position == w.position && found == (w.inside && a.scored && !a.scoreFault.StoreFault?)
              && raised == (w.raised || (w.inside && a.scoreFault.StoreFault?))
    {
      var inside;
      inside, raised := Wait(current, VERIFIER_REVEAL_DEADLINE, 1.0, a.scoreFault);
      if !inside { return false, raised; }
      return a.scored && !a.scoreFault.StoreFault?, a.scoreFault.StoreFault?;
    }

    /** Commits the epoch's scores at the first reading past the reveal deadline that is still in the epoch. */
    method RunCommitScores(current: nat, a: Answers) returns (raised: bool)
      requires position <= |setup.readings|
      modifies this`position, this`stores, this`latestScoresCommit
      ensures (View(), raised) == ProducerSpec.CommitScores(setup, old(View()), current, a)
    {
      if current !in epochScores { return false; }
      var inside;
      inside, raised := Wait(current, SCORES_REVEAL_DEADLINE, 1.0, a.scoresCommitFault);
      if !inside { return; }
      raised := Send(ScoresCommit, current, a.scoresContent, a.scoresCommitFault);
      if !raised { latestScoresCommit := latestScoresCommit[current := a.scoresContent]; }
    }

    /** The last two phases: scores of this attempt are committed if there are any. */
    method RunScoring(current: nat, a: Answers) returns (raised: bool)
      requires position <= |setup.readings|
      modifies this`position, this`stores, this`latestScoresCommit, this`epochScores
      ensures (View(), raised) == ScoreAndCommit(setup, old(View()), current, a)
    {
      WaitForward(setup, position, current, VERIFIER_REVEAL_DEADLINE, 1.0, a.scoreFault);
      var found;
      found, raised := RunVerifyAndScorePeers(current, a);
      if raised || !found { return; }
      epochScores := epochScores + {current};
      raised := RunCommitScores(current, a);
    }

    /** All phases of one epoch, in order, up to the first exception. */
    method RunEpoch(current: nat, a: Answers) returns (raised: bool)
      requires setup.Valid() && Good(setup, View())
      modifies this
      ensures (View(), raised) == Attempt(setup, old(View()), current, a)
    {
      MoveGood(setup, View(), Attest(setup, View(), a).0.position);
      raised := RunConsensus(a);
      if raised { return; }
      TaskCommitOk(setup, View(), current, a);
      raised := RunTaskCommit(current, a);
      if raised { return; }
      TaskRevealOk(setup, View(), current, a);
      raised := RunTaskReveal(current, a);
      if raised { return; }
      RevealScoresOk(setup, View(), current, a);
      raised := RunRevealScores(current, a);
      if raised { return; }
      raised := RunScoring(current, a);
    }

    /** One round of the main loop. */
    method RunRound(started: bool, lastEpoch: Option<nat>, attempted: seq<nat>, failed: set<nat>)
      returns (started': bool, lastEpoch': Option<nat>, attempted': seq<nat>, failed': set<nat>)
      requires setup.Valid() && position < |setup.readings| && Good(setup, View())
      modifies this
      ensures Loop(View(), started', lastEpoch', attempted', failed')
           == Round(setup, answers, Loop(old(View()), started, lastEpoch, attempted, failed))
    {
      started', lastEpoch', attempted', failed' := started, lastEpoch, attempted, failed;
      ghost var l := Loop(View(), started, lastEpoch, attempted, failed);
      MoveGood(setup, View(), position + 1);
      var data := Read();
      if !started {
        started' := true;
        return;
      }
      var current := data.epoch;
      if lastEpoch == Some(current) { return; }
      ghost var r := Attempt(setup, View(), current, answers(|attempted|));
      RoundAttempts(setup, answers, l, r.0, r);
      lastEpoch', failed' := AttemptEpoch(current, lastEpoch, attempted, failed);
      attempted' := attempted + [current];
    }

    /** Runs the epoch and notes how that went. */
    method AttemptEpoch(current: nat, lastEpoch: Option<nat>, attempted: seq<nat>, failed: set<nat>)
      returns (lastEpoch': Option<nat>, failed': set<nat>)
      requires setup.Valid() && Good(setup, View())
      modifies this
      ensures var r := Attempt(setup, old(View()), current, answers(|attempted|));
              Loop(View(), true, lastEpoch', attempted + [current], failed')
              == Concluded(setup, Loop(r.0, true, lastEpoch, attempted, failed), current, r.0, r.1)
    {
      var raised := RunEpoch(current, answers(|attempted|));
      lastEpoch', failed' := Conclude(current, raised, lastEpoch, attempted, failed);
    }

    /** After an attempt: an exception leaves the epoch to be run again, otherwise it is done and data read afresh. */
    method Conclude(current: nat, raised: bool, lastEpoch: Option<nat>, ghost attempted: seq<nat>, failed: set<nat>)
      returns (lastEpoch': Option<nat>, failed': set<nat>)
      modifies this`position
      ensures Loop(View(), true, lastEpoch', attempted + [current], failed')
           == Concluded(setup, Loop(old(View()), true, lastEpoch, attempted, failed), current, old(View()), raised)
    {
      if raised { return lastEpoch, failed + {current}; }
      if position < |setup.readings| { var _ := Read(); }
      return Some(current), failed;
    }

    /**
     * The main loop; `attempted` are the epochs it ran, in order, and `failed` those in which an exception
     * was caught, which are run again. It ends in exactly the state that the value-level run gives.
     */
    method RunForever() returns (attempted: seq<nat>, failed: set<nat>)
      requires setup.Valid() && View() == FRESH_NODE
      modifies this
      ensures var l := Run(setup, answers); View() == l.node && attempted == l.attempted && failed == l.failed
    {
      var lastEpoch: Option<nat> := None;
      var started := false;
      attempted, failed := [], {};
      StartOk(setup);
      ghost var l := FRESH_LOOP;
      while position < |setup.readings|
        invariant l == Loop(View(), started, lastEpoch, attempted, failed) && LoopOk(setup, l)
        invariant Forever(setup, answers, l) == Run(setup, answers)
        decreases |setup.readings| - position
      {
        RoundOk(setup, answers, l);
        started, lastEpoch, attempted, failed := RunRound(started, lastEpoch, attempted, failed);
        l := Round(setup, answers, l);
      }
    }
  }

  // ---------------------------------------------------------------- meeting the acceptor

  function Lifetime(kind: KeyType): (t: real) {
    if kind.VerifierCommit? || kind.ScoresCommit? then MAX_COMMIT_TIME else MAX_REVEAL_TIME
  }

  /**
   * The request that reaches an acceptor: posted by this peer, with nine tenths of the longest lifetime
   * after the time on its own clock, which may be ahead of the acceptor's by the other tenth.
   */
  ghost predicate Sends(r: Request, s: Store, peer: PeerId, clock: real) {
    && r.request.Post? && r.record.caller == Known(peer) && r.record.key == EpochKey(s.kind, s.epoch)
    && r.record.expiration == clock + Lifetime(s.kind) * 0.9
    && clock <= r.now.time + Lifetime(s.kind) * 0.1
  }

  /** A commit or reveal posted by this peer, as opposed to a heartbeat. */
  ghost predicate IsEpochPost(r: Request, peer: PeerId) {
    r.request.Post? && r.record.caller == Known(peer) && r.record.key.EpochKey?
  }

  /**
   * The run of an acceptor that stores of the node reach: request `i` delivers store `of[i]`. Stores may be
   * lost, delayed, reordered or delivered twice; other peers post anything, and the node posts heartbeats.
   */
  ghost predicate Delivered(rs: seq<Request>, peer: PeerId, stores: seq<Store>, clocks: seq<real>, of: map<nat, nat>) {
    && |clocks| == |stores|
    && (forall i :: i in of ==> i < |rs| && of[i] < |stores| && Sends(rs[i], stores[of[i]], peer, clocks[of[i]]))
    && (forall i :: 0 <= i < |rs| && IsEpochPost(rs[i], peer) ==> i in of)
  }

  /** The store arrives in its own epoch while its window is open. */
  ghost predicate OnTime(s: Store, r: Request, slot: nat, length: nat)
    requires length > 0
  {
    EpochAt(r.now.block, slot, length) == s.epoch && InWindow(s.kind, PercentAt(r.now.block, slot, length))
  }

  ghost predicate Accepts(slot: nat, length: nat, rs: seq<Request>, n: nat)
    requires length > 0 && n < |rs|
  {
    Decide(After(slot, length, rs[..n]), slot, length, rs[n].record, rs[n].request, rs[n].now).1
  }

  lemma {:induction false} SentAsPosted(slot: nat, length: nat, rs: seq<Request>, n: nat, s: Store, peer: PeerId,
                                        clock: real)
    requires length > 0 && n < |rs| && !s.kind.Heartbeat? && Sends(rs[n], s, peer, clock)
    ensures var key := Slot(s.epoch, s.kind, peer);
            && Posts(rs[n], key) && (WellTimed(rs[n], key, slot, length) <==> OnTime(s, rs[n], slot, length))
            && (OnTime(s, rs[n], slot, length) ==>
                  (AcceptedAs(slot, length, rs, n, key) <==> Accepts(slot, length, rs, n)))
            && (Accepts(slot, length, rs, n) ==> OnTime(s, rs[n], slot, length))
  {
  }

  /**
   * Whatever else is posted, lost, delayed or reordered, an acceptor accepts a delivered store exactly if it
   * arrives on time and no store of the same key arrived on time before.
   */
  lemma {:induction false} StoreAcceptedIff(slot: nat, length: nat, rs: seq<Request>, peer: PeerId, stores: seq<Store>,
                                            clocks: seq<real>, of: map<nat, nat>, n: nat)
    requires length > 0 && BlocksAdvance(rs) && Delivered(rs, peer, stores, clocks, of) && n in of
    requires Sound(stores, slot, length)
    ensures Accepts(slot, length, rs, n)
       <==> && OnTime(stores[of[n]], rs[n], slot, length)
            && forall i :: i in of && i < n && stores[of[i]].SameKey(stores[of[n]]) ==>
                 !OnTime(stores[of[i]], rs[i], slot, length)
  {
    var s := stores[of[n]];
    var key := Slot(s.epoch, s.kind, peer);
    SoundAt(stores, slot, length, of[n], of[n]);
    SentAsPosted(slot, length, rs, n, s, peer, clocks[of[n]]);
    KeyAcceptedIff(slot, length, rs, n, key);
    if i :| 0 <= i < n && AcceptedAs(slot, length, rs, i, key) {
      assert IsEpochPost(rs[i], peer) && Sends(rs[i], stores[of[i]], peer, clocks[of[i]]);
      SentAsPosted(slot, length, rs, i, stores[of[i]], peer, clocks[of[i]]);
    } else {
      forall i | i in of && i < n && stores[of[i]].SameKey(s) ensures !OnTime(stores[of[i]], rs[i], slot, length) {
        SentAsPosted(slot, length, rs, i, stores[of[i]], peer, clocks[of[i]]);
        KeyAcceptedIff(slot, length, rs, i, key);
      }
    }
  }

  /**
   * So everything a node stores in a run without exceptions is accepted, as far as it is delivered once and
   * at the block at which it was made: windows, limits and expirations of both sides agree.
   */
  lemma {:induction false} CalmRunIsAccepted(c: Setup, answers: nat -> Answers, rs: seq<Request>, peer: PeerId,
                                             clocks: seq<real>, of: map<nat, nat>, n: nat)
    requires c.Valid() && forall k :: answers(k).Calm()
    requires var stores := Run(c, answers).node.stores;
             && BlocksAdvance(rs) && Delivered(rs, peer, stores, clocks, of) && n in of
             && (forall i, j :: i in of && j in of && of[i] == of[j] ==> i == j)
             && rs[n].now.block == stores[of[n]].block
    ensures Accepts(c.slot, c.length, rs, n)
  {
    var stores := Run(c, answers).node.stores;
    RunIsSound(c, answers);
    CalmRunStoresOnce(c, answers);
    StoreAcceptedIff(c.slot, c.length, rs, peer, stores, clocks, of, n);
    SoundAt(stores, c.slot, c.length, of[n], of[n]);
    forall i | i in of && i < n ensures !stores[of[i]].SameKey(stores[of[n]]) { assert of[i] != of[n]; }
  }

  // ---------------------------------------------------------------- lifetime of score commits

  /** A score commit made at block `commit` has not expired at block `verify`, at six seconds a block. */
  predicate Unexpired(commit: nat, verify: nat) {
    (verify * BLOCK_SECS) as real <= (commit * BLOCK_SECS) as real + MAX_COMMIT_TIME * 0.9
  }

  /** Commits are made after 60% of their epoch and verified two epochs later. */
  ghost predicate CommitAndVerify(slot: nat, length: nat, commit: nat, verify: nat)
    requires length > 0
  {
    && slot <= commit && InWindow(ScoresCommit, PercentAt(commit, slot, length))
    && slot <= verify && EpochAt(verify, slot, length) == EpochAt(commit, slot, length) + 2
  }

  lemma {:induction false} Scaled(p: real, q: real, l: real)
    requires l > 0.0
    ensures p > q <==> p * l > q * l
  {
    assert (p - q) * l == p * l - q * l;
  }

  lemma {:induction false} PastSixty(elapsed: nat, length: nat)
    requires length > 0
    ensures elapsed as real / length as real > 0.6 <==> 5 * elapsed > 3 * length
  {
    var p := elapsed as real / length as real;
    var l := length as real;
    assert p * l == elapsed as real;
    Scaled(p, 0.6, l);
    assert 5.0 * elapsed as real > 3.0 * l <==> 5 * elapsed > 3 * length;
  }

  /** With epochs of at most 563 blocks every score commit outlives its verification. */
  lemma {:induction false} CommitOutlives(slot: nat, length: nat, commit: nat, verify: nat)
    requires 0 < length <= 563 && CommitAndVerify(slot, length, commit, verify)
    ensures Unexpired(commit, verify)
  {
    var c, v := SubnetEpochData(commit, slot, length), SubnetEpochData(verify, slot, length);
    EpochDataLocates(commit, slot, length);
    EpochDataLocates(verify, slot, length);
    PastSixty(c.blocksElapsed, length);
    assert length * (c.epoch + 2) == length * c.epoch + 2 * length;
    assert verify - commit == 2 * length + v.blocksElapsed - c.blocksElapsed;
    assert verify - commit <= 1350;
  }

  /** With longer epochs some commit has expired when the last block of its verification epoch comes. */
  lemma {:induction false} LongEpochsExpire(slot: nat, length: nat) returns (commit: nat, verify: nat)
    requires length > 563
    ensures CommitAndVerify(slot, length, commit, verify) && !Unexpired(commit, verify)
  {
    var elapsed := 3 * length / 5 + 1;
    commit, verify := slot + elapsed, slot + 3 * length - 1;
    assert elapsed < length;
    Located(slot, length, 0, elapsed);
    Located(slot, length, 2, length - 1);
    PastSixty(elapsed, length);
    assert verify - commit >= 1351;
  }

  lemma {:induction false} Located(slot: nat, length: nat, epoch: nat, elapsed: nat)
    requires elapsed < length
    ensures var d := SubnetEpochData(slot + length * epoch + elapsed, slot, length);
            d.epoch == epoch && d.blocksElapsed == elapsed && d.percentComplete == elapsed as real / length as real
  {
    QuotientUnique(length * epoch + elapsed, length, epoch, elapsed);
  }
}
