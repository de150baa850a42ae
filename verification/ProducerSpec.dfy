/** The node's own side of the commit-reveal scheme as a value: which stores it makes, and when. */
module ProducerSpec {
  import opened Basics
  import opened Epochs
  import opened CommitReveal

  /**
   * A store the node made: key type, epoch in the key, the block at which its phase was entered, and the
   * salted content that a commit hides and a reveal shows.
   */
  datatype Store = Store(kind: KeyType, epoch: nat, block: nat, content: nat)
  {
    predicate SameKey(other: Store) {
      kind == other.kind && epoch == other.epoch
    }
  }

  /** What the node remembers of a commit. */
  datatype Commit = Commit(epoch: nat, content: nat)

  /** Made in its own epoch and inside the window of its key type. */
  ghost predicate Gated(s: Store, slot: nat, length: nat)
    requires length > 0
  {
    && !s.kind.Heartbeat? && EpochAt(s.block, slot, length) == s.epoch
    && InWindow(s.kind, PercentAt(s.block, slot, length))
  }

  /** No key is stored twice, except in these epochs. */
  ghost predicate OnceUnless(stores: seq<Store>, failed: set<nat>) {
    forall i, j :: 0 <= i < j < |stores| && stores[i].SameKey(stores[j]) ==> stores[i].epoch in failed
  }

  /** The content was committed under this key. */
  ghost predicate Made(stores: seq<Store>, kind: KeyType, epoch: nat, content: nat) {
    && stores != []
    && var last := stores[|stores| - 1];
    || (last.kind == kind && last.epoch == epoch && last.content == content)
    || Made(stores[..|stores| - 1], kind, epoch, content)
  }

  /** A reveal shows what an earlier commit hid: of the same epoch for tasks, of two epochs before for scores. */
  ghost predicate Opens(before: seq<Store>, s: Store) {
    && (s.kind.VerifierReveal? ==> Made(before, VerifierCommit, s.epoch, s.content))
    && (s.kind.ScoresReveal? ==> s.epoch >= 2 && Made(before, ScoresCommit, s.epoch - 2, s.content))
  }

  /** Stores made so far: each gated and opening an earlier commit, in the order of blocks. */
  ghost predicate Sound(stores: seq<Store>, slot: nat, length: nat)
    requires length > 0
  {
    stores != [] ==>
      var n := |stores| - 1;
      && Gated(stores[n], slot, length) && Opens(stores[..n], stores[n])
      && (n > 0 ==> stores[n - 1].block <= stores[n].block)
      && Sound(stores[..n], slot, length)
  }

  /** What soundness says of every store, and of every two of them. */
  lemma {:induction false} SoundAt(stores: seq<Store>, slot: nat, length: nat, i: nat, j: nat)
    requires length > 0 && Sound(stores, slot, length) && i <= j < |stores|
    ensures Gated(stores[j], slot, length) && Opens(stores[..j], stores[j])
    ensures stores[i].block <= stores[j].block
  {
    var n := |stores| - 1;
    if j < n {
      SoundAt(stores[..n], slot, length, i, j);
      assert stores[..n][..j] == stores[..j];
    } else if i < n {
      SoundAt(stores[..n], slot, length, i, n - 1);
    }
  }

  /** What the node remembers it has committed was committed. */
  ghost predicate Remembered(stores: seq<Store>, task: Option<Commit>, scores: map<nat, nat>) {
    && (task.Some? ==> Made(stores, VerifierCommit, task.value.epoch, task.value.content))
    && (forall e :: e in scores ==> Made(stores, ScoresCommit, e, scores[e]))
  }

  lemma {:induction false} MadeGrows(stores: seq<Store>, s: Store, kind: KeyType, epoch: nat, content: nat)
    ensures Made(stores, kind, epoch, content) ==> Made(stores + [s], kind, epoch, content)
    ensures Made(stores + [s], s.kind, s.epoch, s.content)
  {
    assert (stores + [s])[..|stores|] == stores;
  }

  lemma {:induction false} RememberedGrows(stores: seq<Store>, s: Store, task: Option<Commit>, scores: map<nat, nat>)
    requires Remembered(stores, task, scores)
    ensures Remembered(stores + [s], task, scores)
  {
    if task.Some? { MadeGrows(stores, s, VerifierCommit, task.value.epoch, task.value.content); }
    forall e | e in scores ensures Made(stores + [s], ScoresCommit, e, scores[e]) {
      MadeGrows(stores, s, ScoresCommit, e, scores[e]);
    }
  }

  lemma {:induction false} MadeAt(stores: seq<Store>, kind: KeyType, epoch: nat, content: nat) returns (i: nat)
    requires Made(stores, kind, epoch, content)
    ensures i < |stores| && stores[i].kind == kind && stores[i].epoch == epoch && stores[i].content == content
  {
    var n := |stores| - 1;
    i := n;
    if !(stores[n].kind == kind && stores[n].epoch == epoch && stores[n].content == content) {
      i := MadeAt(stores[..n], kind, epoch, content);
    }
  }

  /**
   * Every reveal shows the content of an earlier commit: of the same epoch, or of the score commit two
   * epochs before. Where no key is stored twice this is the only commit of that key.
   */
  lemma {:induction false} RevealOpensCommit(stores: seq<Store>, slot: nat, length: nat, j: nat) returns (i: nat)
    requires length > 0 && Sound(stores, slot, length) && j < |stores|
    requires (stores[j].kind.VerifierReveal? || stores[j].kind.ScoresReveal?)
    ensures i < j && stores[i].content == stores[j].content
    ensures stores[j].kind.VerifierReveal? ==> stores[i].kind.VerifierCommit? && stores[i].epoch == stores[j].epoch
    ensures stores[j].kind.ScoresReveal? ==> stores[i].kind.ScoresCommit? && stores[i].epoch + 2 == stores[j].epoch
    ensures OnceUnless(stores, {}) ==> forall k :: 0 <= k < |stores| && stores[k].SameKey(stores[i]) ==> k == i
  {
    SoundAt(stores, slot, length, j, j);
    var s := stores[j];
    if s.kind.VerifierReveal? {
      i := MadeAt(stores[..j], VerifierCommit, s.epoch, s.content);
    } else {
      i := MadeAt(stores[..j], ScoresCommit, s.epoch - 2, s.content);
    }
  }

  lemma {:induction false} RecallTask(stores: seq<Store>, task: Option<Commit>, scores: map<nat, nat>)
    requires Remembered(stores, task, scores) && task.Some?
    ensures Made(stores, VerifierCommit, task.value.epoch, task.value.content)
  {
  }

  lemma {:induction false} RecallScores(stores: seq<Store>, task: Option<Commit>, scores: map<nat, nat>, e: nat)
    requires Remembered(stores, task, scores) && e in scores
    ensures Made(stores, ScoresCommit, e, scores[e])
  {
  }

  lemma {:induction false} RememberScores(stores: seq<Store>, task: Option<Commit>, scores: map<nat, nat>, e: nat,
                                          content: nat)
    requires Remembered(stores, task, scores) && Made(stores, ScoresCommit, e, content)
    ensures Remembered(stores, task, scores[e := content])
  {
  }

  lemma {:induction false} SoundGrows(stores: seq<Store>, s: Store, slot: nat, length: nat)
    requires length > 0 && Sound(stores, slot, length) && Gated(s, slot, length) && Opens(stores, s)
    requires stores != [] ==> stores[|stores| - 1].block <= s.block
    ensures Sound(stores + [s], slot, length)
  {
    assert (stores + [s])[..|stores|] == stores;
  }

  // ---------------------------------------------------------------- what the node is given

  /** The readings are what the chain says about blocks that never go back. */
  ghost predicate Genuine(readings: seq<EpochData>, slot: nat, length: nat)
    requires length > 0
  {
    readings != [] ==>
      var n := |readings| - 1;
      && readings[n] == SubnetEpochData(readings[n].block, slot, length)
      && (n > 0 ==> readings[n - 1].block <= readings[n].block)
      && Genuine(readings[..n], slot, length)
  }

  lemma {:induction false} GenuineAt(readings: seq<EpochData>, slot: nat, length: nat, i: nat, j: nat)
    requires length > 0 && Genuine(readings, slot, length) && i <= j < |readings|
    ensures readings[j].epoch == EpochAt(readings[j].block, slot, length)
    ensures readings[j].percentComplete == PercentAt(readings[j].block, slot, length)
    ensures readings[i].block <= readings[j].block && readings[i].epoch <= readings[j].epoch
  {
    var n := |readings| - 1;
    if j < n {
      GenuineAt(readings[..n], slot, length, i, j);
    } else if i < n {
      GenuineAt(readings[..n], slot, length, i, n - 1);
      EpochsAdvance(readings[n - 1].block, readings[n].block, slot, length);
    }
  }

  /** Slot and length of the subnet's epochs, and everything the node reads from the chain, in order. */
  datatype Setup = Setup(slot: nat, length: nat, readings: seq<EpochData>)
  {
    ghost predicate Valid() {
      length > 0 && Genuine(readings, slot, length)
    }

    /** Reading `p` exists and lies in the epoch, no further than the given progress. */
    predicate Inside(p: nat, epoch: nat, progress: real) {
      p < |readings| && readings[p].epoch == epoch && readings[p].percentComplete <= progress
    }
  }

  /**
   * Where a phase raises an exception, if at all: at a reading of the chain after so many good ones, or
   * while it works or stores, before or after the record went out.
   */
  datatype Fault = NoFault | ChainFault(after: nat) | StoreFault(sent: bool)
  {
    /** The phase that starts at reading `from` gets to make reading `p`. */
    predicate Reaches(from: nat, p: nat) {
      ChainFault? ==> p < from + after
    }
  }

  /**
   * What peers and the chain answer during one attempt at an epoch, what the commits hide, and where
   * exceptions are raised.
   */
  datatype Answers = Answers(attestReadings: nat, attestRaises: bool,
                             anyPeers: bool, taskContent: nat, taskFault: Fault, revealFault: Fault,
                             scoresRevealFault: Fault, scored: bool, scoreFault: Fault,
                             scoresContent: nat, scoresCommitFault: Fault)
  {
    /** No exception is raised. */
    predicate Calm() {
      && !attestRaises && taskFault.NoFault? && revealFault.NoFault? && scoresRevealFault.NoFault?
      && scoreFault.NoFault? && scoresCommitFault.NoFault?
    }
  }

  /** The state of the node: readings used, stores made, and what it remembers. */
  datatype Node = Node(position: nat, stores: seq<Store>, task: Option<Commit>, scores: map<nat, nat>, scored: set<nat>)

  const FRESH_NODE: Node := Node(0, [], None, map[], {})

  // ---------------------------------------------------------------- phases

  /** The first reading from `from` on that lies in another epoch or beyond the given progress. */
  ghost function WaitUntil(c: Setup, from: nat, epoch: nat, progress: real): (p: nat)
    decreases |c.readings| - from
  {
    if from >= |c.readings| then |c.readings|
    else if c.Inside(from, epoch, progress) then WaitUntil(c, from + 1, epoch, progress)
    else from
  }

  /** Where a wait ends, whether it ends in the epoch and within the limit, and whether it raises. */
  datatype Waited = Waited(position: nat, inside: bool, raised: bool)

  ghost function WaitFor(c: Setup, from: nat, epoch: nat, progress: real, limit: real, fault: Fault): (w: Waited) {
    var p := WaitUntil(c, from, epoch, progress);
    if fault.ChainFault? && from + fault.after <= p && from + fault.after < |c.readings| then
      Waited(from + fault.after, false, true)
    else if p >= |c.readings| then Waited(p, false, false)
    else Waited(p + 1, c.Inside(p, epoch, limit), false)
  }

  /** Sends out a store right after the last reading, unless that raises before anything is sent. */
  ghost function Publish(c: Setup, n: Node, kind: KeyType, epoch: nat, content: nat, fault: Fault): (r: (Node, bool))
    requires 0 < n.position <= |c.readings|
  {
    if fault == StoreFault(false) then (n, true)
    else
      (n.(stores := n.stores + [Store(kind, epoch, c.readings[n.position - 1].block, content)]), fault.StoreFault?)
  }

  /** The attestation phase only reads the chain, any number of times. */
  ghost function Attest(c: Setup, n: Node, a: Answers): (r: (Node, bool)) {
    var end := n.position + a.attestReadings;
    (n.(position := if end <= |c.readings| then end else |c.readings|), a.attestRaises)
  }

  ghost function TaskCommit(c: Setup, n: Node, epoch: nat, a: Answers): (r: (Node, bool)) {
    if n.position >= |c.readings| then (n, false)
    else if !a.taskFault.Reaches(n.position, n.position) then (n, true)
    else
      var n1 := n.(position := n.position + 1);
      if !c.Inside(n.position, epoch, VERIFIER_COMMIT_DEADLINE) then (n1, false)
      else if !a.anyPeers then (n1, a.taskFault.StoreFault?)
      else
        var (n2, raised) := Publish(c, n1, VerifierCommit, epoch, a.taskContent, a.taskFault);
        (if raised then n2 else n2.(task := Some(Commit(epoch, a.taskContent))), raised)
  }

  ghost function TaskReveal(c: Setup, n: Node, epoch: nat, a: Answers): (r: (Node, bool)) {
    var w := WaitFor(c, n.position, epoch, VERIFIER_COMMIT_DEADLINE, VERIFIER_REVEAL_DEADLINE, a.revealFault);
    var n1 := n.(position := w.position);
    if !w.inside then (n1, w.raised)
    else if n.task.None? || n.task.value.epoch != epoch then (n1, a.revealFault.StoreFault?)
    else Publish(c, n1, VerifierReveal, epoch, n.task.value.content, a.revealFault)
  }

  ghost function RevealScores(c: Setup, n: Node, epoch: nat, a: Answers): (r: (Node, bool)) {
    var w := WaitFor(c, n.position, epoch, VERIFIER_COMMIT_DEADLINE, SCORES_REVEAL_DEADLINE, a.scoresRevealFault);
    var n1 := n.(position := w.position);
    if !w.inside then (n1, w.raised)
    else if epoch < 2 || epoch - 2 !in n.scores then (n1, a.scoresRevealFault.StoreFault?)
    else Publish(c, n1, ScoresReveal, epoch, n.scores[epoch - 2], a.scoresRevealFault)
  }

  /** Scores peers; the epoch is noted if that gives any scores. */
  ghost function Score(c: Setup, n: Node, epoch: nat, a: Answers): (r: (Node, bool)) {
    var w := WaitFor(c, n.position, epoch, VERIFIER_REVEAL_DEADLINE, 1.0, a.scoreFault);
    var n1 := n.(position := w.position);
    if !w.inside then (n1, w.raised)
    else if a.scoreFault.StoreFault? then (n1, true)
    else (if a.scored then n1.(scored := n1.scored + {epoch}) else n1, false)
  }

  ghost function CommitScores(c: Setup, n: Node, epoch: nat, a: Answers): (r: (Node, bool)) {
    var w := WaitFor(c, n.position, epoch, SCORES_REVEAL_DEADLINE, 1.0, a.scoresCommitFault);
    var n1 := n.(position := w.position);
    if epoch !in n.scored then (n, false)
    else if !w.inside then (n1, w.raised)
    else
      var (n2, raised) := Publish(c, n1, ScoresCommit, epoch, a.scoresContent, a.scoresCommitFault);
      (if raised then n2 else n2.(scores := n2.scores[epoch := a.scoresContent]), raised)
  }

  /** The last two phases: scores of this attempt are committed if there are any. */
  ghost function ScoreAndCommit(c: Setup, n: Node, epoch: nat, a: Answers): (r: (Node, bool)) {
    var (n1, raised) := Score(c, n, epoch, a);
    var w := WaitFor(c, n.position, epoch, VERIFIER_REVEAL_DEADLINE, 1.0, a.scoreFault);
    if raised || !(w.inside && a.scored) then (n1, raised) else CommitScores(c, n1, epoch, a)
  }

  ghost function FirstHalf(c: Setup, n: Node, epoch: nat, a: Answers): (r: (Node, bool)) {
    var (n1, raised) := TaskCommit(c, n, epoch, a);
    if raised then (n1, true) else TaskReveal(c, n1, epoch, a)
  }

  ghost function SecondHalf(c: Setup, n: Node, epoch: nat, a: Answers): (r: (Node, bool)) {
    var (n1, raised) := RevealScores(c, n, epoch, a);
    if raised then (n1, true) else ScoreAndCommit(c, n1, epoch, a)
  }

  /** All phases of one epoch, in order, up to the first exception. */
  ghost function Attempt(c: Setup, n: Node, epoch: nat, a: Answers): (r: (Node, bool)) {
    var (n1, raised1) := Attest(c, n, a);
    if raised1 then (n1, true) else
    var (n2, raised2) := FirstHalf(c, n1, epoch, a);
    if raised2 then (n2, true) else SecondHalf(c, n2, epoch, a)
  }

  // ---------------------------------------------------------------- readings only go forward

  ghost predicate Forward(c: Setup, n: Node, n': Node) {
    n.position <= n'.position <= |c.readings|
  }

  lemma {:induction false} WaitUntilForward(c: Setup, from: nat, epoch: nat, progress: real)
    requires from <= |c.readings|
    ensures from <= WaitUntil(c, from, epoch, progress) <= |c.readings|
    ensures var p := WaitUntil(c, from, epoch, progress); p < |c.readings| ==> !c.Inside(p, epoch, progress)
    decreases |c.readings| - from
  {
    if from < |c.readings| { WaitUntilForward(c, from + 1, epoch, progress); }
  }

  /** A wait that ends inside ends past the progress it waited for. */
  lemma {:induction false} WaitForward(c: Setup, from: nat, epoch: nat, progress: real, limit: real, fault: Fault)
    requires from <= |c.readings|
    ensures var w := WaitFor(c, from, epoch, progress, limit, fault);
            && from <= w.position <= |c.readings|
            && (w.raised ==> fault.ChainFault? && !w.inside)
            && (w.inside ==> from < w.position && c.readings[w.position - 1].epoch == epoch
                             && progress < c.readings[w.position - 1].percentComplete <= limit)
  {
    WaitUntilForward(c, from, epoch, progress);
  }

  // ---------------------------------------------------------------- what every phase keeps

  /** The stores are sound, none is ahead of the last reading, and what is remembered was committed. */
  ghost predicate Good(c: Setup, n: Node)
    requires c.length > 0
  {
    && n.position <= |c.readings| && Sound(n.stores, c.slot, c.length)
    && (n.stores != [] ==> n.position > 0 && n.stores[|n.stores| - 1].block <= c.readings[n.position - 1].block)
    && Remembered(n.stores, n.task, n.scores)
  }

  lemma {:induction false} MoveGood(c: Setup, n: Node, position: nat)
    requires c.Valid() && Good(c, n) && n.position <= position <= |c.readings|
    ensures Good(c, n.(position := position))
  {
    if n.position > 0 { GenuineAt(c.readings, c.slot, c.length, n.position - 1, position - 1); }
  }

  lemma {:induction false} PublishGood(c: Setup, n: Node, kind: KeyType, epoch: nat, content: nat, fault: Fault)
    requires c.Valid() && Good(c, n) && n.position > 0 && !kind.Heartbeat?
    requires var d := c.readings[n.position - 1];
             && d.epoch == epoch && InWindow(kind, d.percentComplete)
             && Opens(n.stores, Store(kind, epoch, d.block, content))
    ensures var (n', raised) := Publish(c, n, kind, epoch, content, fault);
            && Good(c, n') && AtMostOne(n.stores, n'.stores, kind, epoch) && n'.position == n.position
            && raised == fault.StoreFault? && (!raised ==> Made(n'.stores, kind, epoch, content))
  {
    var s := Store(kind, epoch, c.readings[n.position - 1].block, content);
    assert Gated(s, c.slot, c.length) by { GenuineAt(c.readings, c.slot, c.length, n.position - 1, n.position - 1); }
    SoundGrows(n.stores, s, c.slot, c.length);
    RememberedGrows(n.stores, s, n.task, n.scores);
    MadeGrows(n.stores, s, kind, epoch, content);
  }

  /** A phase keeps everything good, goes forward, stores at most its own key once, and raises only if told to. */
  ghost predicate PhaseOk(c: Setup, n: Node, r: (Node, bool), kind: KeyType, epoch: nat, mayRaise: bool)
    requires c.length > 0
  {
    Good(c, r.0) && Forward(c, n, r.0) && AtMostOne(n.stores, r.0.stores, kind, epoch) && (r.1 ==> mayRaise)
  }

  lemma {:induction false} TaskCommitOk(c: Setup, n: Node, epoch: nat, a: Answers)
    requires c.Valid() && Good(c, n)
    ensures PhaseOk(c, n, TaskCommit(c, n, epoch, a), VerifierCommit, epoch, !a.taskFault.NoFault?)
  {
    if n.position < |c.readings| {
      MoveGood(c, n, n.position + 1);
      if c.Inside(n.position, epoch, VERIFIER_COMMIT_DEADLINE) {
        SendTaskOk(c, n.(position := n.position + 1), epoch, a.taskContent, a.taskFault);
      }
    }
  }

  lemma {:induction false} SendTaskOk(c: Setup, n: Node, epoch: nat, content: nat, fault: Fault)
    requires c.Valid() && Good(c, n) && n.position > 0
    requires c.Inside(n.position - 1, epoch, VERIFIER_COMMIT_DEADLINE)
    ensures var (n', raised) := Publish(c, n, VerifierCommit, epoch, content, fault);
            && Good(c, n') && AtMostOne(n.stores, n'.stores, VerifierCommit, epoch) && n'.position == n.position
            && raised == fault.StoreFault? && (!raised ==> Good(c, n'.(task := Some(Commit(epoch, content)))))
  {
    PublishGood(c, n, VerifierCommit, epoch, content, fault);
  }

  lemma {:induction false} TaskRevealOk(c: Setup, n: Node, epoch: nat, a: Answers)
    requires c.Valid() && Good(c, n)
    ensures PhaseOk(c, n, TaskReveal(c, n, epoch, a), VerifierReveal, epoch, !a.revealFault.NoFault?)
  {
    var w := WaitFor(c, n.position, epoch, VERIFIER_COMMIT_DEADLINE, VERIFIER_REVEAL_DEADLINE, a.revealFault);
    WaitForward(c, n.position, epoch, VERIFIER_COMMIT_DEADLINE, VERIFIER_REVEAL_DEADLINE, a.revealFault);
    MoveGood(c, n, w.position);
    if w.inside && n.task.Some? && n.task.value.epoch == epoch {
      RecallTask(n.stores, n.task, n.scores);
      PublishGood(c, n.(position := w.position), VerifierReveal, epoch, n.task.value.content, a.revealFault);
    }
  }

  lemma {:induction false} RevealScoresOk(c: Setup, n: Node, epoch: nat, a: Answers)
    requires c.Valid() && Good(c, n)
    ensures PhaseOk(c, n, RevealScores(c, n, epoch, a), ScoresReveal, epoch, !a.scoresRevealFault.NoFault?)
  {
    var w := WaitFor(c, n.position, epoch, VERIFIER_COMMIT_DEADLINE, SCORES_REVEAL_DEADLINE, a.scoresRevealFault);
    WaitForward(c, n.position, epoch, VERIFIER_COMMIT_DEADLINE, SCORES_REVEAL_DEADLINE, a.scoresRevealFault);
    MoveGood(c, n, w.position);
    if w.inside && epoch >= 2 && epoch - 2 in n.scores {
      RecallScores(n.stores, n.task, n.scores, epoch - 2);
      PublishGood(c, n.(position := w.position), ScoresReveal, epoch, n.scores[epoch - 2], a.scoresRevealFault);
    }
  }

  lemma {:induction false} ScoreOk(c: Setup, n: Node, epoch: nat, a: Answers)
    requires c.Valid() && Good(c, n)
    ensures var (n', raised) := Score(c, n, epoch, a);
            Good(c, n') && Forward(c, n, n') && n'.stores == n.stores && (raised ==> !a.scoreFault.NoFault?)
  {
    WaitForward(c, n.position, epoch, VERIFIER_REVEAL_DEADLINE, 1.0, a.scoreFault);
    MoveGood(c, n, WaitFor(c, n.position, epoch, VERIFIER_REVEAL_DEADLINE, 1.0, a.scoreFault).position);
  }

  lemma {:induction false} CommitScoresOk(c: Setup, n: Node, epoch: nat, a: Answers)
    requires c.Valid() && Good(c, n)
    ensures PhaseOk(c, n, CommitScores(c, n, epoch, a), ScoresCommit, epoch, !a.scoresCommitFault.NoFault?)
  {
    var w := WaitFor(c, n.position, epoch, SCORES_REVEAL_DEADLINE, 1.0, a.scoresCommitFault);
    WaitForward(c, n.position, epoch, SCORES_REVEAL_DEADLINE, 1.0, a.scoresCommitFault);
    MoveGood(c, n, w.position);
    if w.inside { SendScoresOk(c, n.(position := w.position), epoch, a.scoresContent, a.scoresCommitFault); }
  }

  lemma {:induction false} SendScoresOk(c: Setup, n: Node, epoch: nat, content: nat, fault: Fault)
    requires c.Valid() && Good(c, n) && n.position > 0
    requires c.readings[n.position - 1].epoch == epoch
    requires c.readings[n.position - 1].percentComplete > SCORES_REVEAL_DEADLINE
    ensures var (n', raised) := Publish(c, n, ScoresCommit, epoch, content, fault);
            && Good(c, n') && AtMostOne(n.stores, n'.stores, ScoresCommit, epoch) && n'.position == n.position
            && raised == fault.StoreFault? && (!raised ==> Good(c, n'.(scores := n'.scores[epoch := content])))
  {
    PublishGood(c, n, ScoresCommit, epoch, content, fault);
    var (n', raised) := Publish(c, n, ScoresCommit, epoch, content, fault);
    if !raised { RememberScores(n'.stores, n'.task, n'.scores, epoch, content); }
  }

  lemma {:induction false} ScoreAndCommitOk(c: Setup, n: Node, epoch: nat, a: Answers)
    requires c.Valid() && Good(c, n)
    ensures PhaseOk(c, n, ScoreAndCommit(c, n, epoch, a), ScoresCommit, epoch, !a.Calm())
  {
    ScoreOk(c, n, epoch, a);
    CommitScoresOk(c, Score(c, n, epoch, a).0, epoch, a);
  }

  // ---------------------------------------------------------------- one attempt at an epoch

  /** The order in which the phases of an epoch store. */
  function Turn(kind: KeyType): (n: nat) {
    match kind
    case Heartbeat => 0
    case VerifierCommit => 1
    case VerifierReveal => 2
    case ScoresReveal => 3
    case ScoresCommit => 4
  }

  /** The stores of one attempt at an epoch: all of that epoch, in the order of the phases, no key twice. */
  ghost predicate OneEach(made: seq<Store>, epoch: nat) {
    && (forall i :: 0 <= i < |made| ==> made[i].epoch == epoch)
    && (forall i, j :: 0 <= i < j < |made| ==> Turn(made[i].kind) < Turn(made[j].kind))
  }

  /** An attempt that started with the stores `s0` has come as far as this turn. */
  ghost predicate CameTo(s0: seq<Store>, stores: seq<Store>, epoch: nat, turn: nat) {
    && s0 <= stores && OneEach(stores[|s0|..], epoch)
    && forall i :: |s0| <= i < |stores| ==> Turn(stores[i].kind) < turn
  }

  /** A phase made at most one store, of its own kind and for its own epoch. */
  ghost predicate AtMostOne(before: seq<Store>, after: seq<Store>, kind: KeyType, epoch: nat) {
    after == before || exists s :: after == before + [s] && s.kind == kind && s.epoch == epoch
  }

  lemma {:induction false} NextTurn(s0: seq<Store>, before: seq<Store>, after: seq<Store>, kind: KeyType, epoch: nat,
                                    turn: nat)
    requires CameTo(s0, before, epoch, turn) && turn == Turn(kind) && AtMostOne(before, after, kind, epoch)
    ensures CameTo(s0, after, epoch, turn + 1)
  {
    if after != before {
      var s :| after == before + [s] && s.kind == kind && s.epoch == epoch;
      assert after[|s0|..] == before[|s0|..] + [s];
      forall i | 0 <= i < |before| - |s0| ensures Turn(before[|s0|..][i].kind) < Turn(kind) {
        assert before[|s0|..][i] == before[|s0| + i];
      }
    }
  }

  lemma {:induction false} CameFurther(s0: seq<Store>, stores: seq<Store>, epoch: nat, turn: nat, further: nat)
    requires CameTo(s0, stores, epoch, turn) && turn <= further
    ensures CameTo(s0, stores, epoch, further)
  {
  }

  lemma {:induction false} AttemptKeepsOnce(stores: seq<Store>, made: seq<Store>, epoch: nat, failed: set<nat>)
    requires OnceUnless(stores, failed) && OneEach(made, epoch)
    requires forall i :: 0 <= i < |stores| && stores[i].epoch == epoch ==> epoch in failed
    ensures OnceUnless(stores + made, failed)
  {
    var all := stores + made;
    forall i, j | 0 <= i < j < |all| && all[i].SameKey(all[j]) ensures all[i].epoch in failed {
      if j >= |stores| {
        assert all[j] == made[j - |stores|] && all[j].epoch == epoch;
        assert i < |stores|;
      }
    }
  }

  /** Phases that started with the stores `s0` keep everything good and come to this turn. */
  ghost predicate HalfOk(c: Setup, s0: seq<Store>, n: Node, r: (Node, bool), epoch: nat, turn: nat, calm: bool)
    requires c.length > 0
  {
    Good(c, r.0) && Forward(c, n, r.0) && CameTo(s0, r.0.stores, epoch, turn) && (r.1 ==> !calm)
  }

  lemma {:induction false} FirstHalfOk(c: Setup, n: Node, epoch: nat, a: Answers)
    requires c.Valid() && Good(c, n)
    ensures HalfOk(c, n.stores, n, FirstHalf(c, n, epoch, a), epoch, 3, a.Calm())
  {
    var r1 := TaskCommit(c, n, epoch, a);
    TaskCommitOk(c, n, epoch, a);
    NextTurn(n.stores, n.stores, r1.0.stores, VerifierCommit, epoch, 1);
    CameFurther(n.stores, r1.0.stores, epoch, 2, 3);
    if !r1.1 {
      var r2 := TaskReveal(c, r1.0, epoch, a);
      TaskRevealOk(c, r1.0, epoch, a);
      NextTurn(n.stores, r1.0.stores, r2.0.stores, VerifierReveal, epoch, 2);
    }
  }

  lemma {:induction false} SecondHalfOk(c: Setup, s0: seq<Store>, n: Node, epoch: nat, a: Answers)
    requires c.Valid() && Good(c, n) && CameTo(s0, n.stores, epoch, 3)
    ensures HalfOk(c, s0, n, SecondHalf(c, n, epoch, a), epoch, 5, a.Calm())
  {
    var r1 := RevealScores(c, n, epoch, a);
    RevealScoresOk(c, n, epoch, a);
    NextTurn(s0, n.stores, r1.0.stores, ScoresReveal, epoch, 3);
    CameFurther(s0, r1.0.stores, epoch, 4, 5);
    if !r1.1 {
      ScoreAndCommitOk(c, r1.0, epoch, a);
      NextTurn(s0, r1.0.stores, ScoreAndCommit(c, r1.0, epoch, a).0.stores, ScoresCommit, epoch, 4);
    }
  }

  /** An attempt keeps everything good, stores each key of its epoch at most once, and raises only if told to. */
  lemma {:induction false} AttemptOk(c: Setup, n: Node, epoch: nat, a: Answers)
    requires c.Valid() && Good(c, n)
    ensures HalfOk(c, n.stores, n, Attempt(c, n, epoch, a), epoch, 5, a.Calm())
  {
    var r1 := Attest(c, n, a);
    MoveGood(c, n, r1.0.position);
    CameFurther(n.stores, n.stores, epoch, 1, 5);
    if !r1.1 {
      FirstHalfOk(c, r1.0, epoch, a);
      var r2 := FirstHalf(c, r1.0, epoch, a);
      CameFurther(n.stores, r2.0.stores, epoch, 3, 5);
      if !r2.1 { SecondHalfOk(c, n.stores, r2.0, epoch, a); }
    }
  }

  // ---------------------------------------------------------------- the main loop

  /** The state of the main loop: epochs attempted so far, in order, and those in which an attempt raised. */
  datatype Loop = Loop(node: Node, started: bool, last: Option<nat>, attempted: seq<nat>, failed: set<nat>)

  const FRESH_LOOP: Loop := Loop(FRESH_NODE, false, None, [], {})

  /** What the round makes of an attempt. */
  ghost function Concluded(c: Setup, l: Loop, epoch: nat, n: Node, raised: bool): (r: Loop) {
    if raised then l.(node := n, attempted := l.attempted + [epoch], failed := l.failed + {epoch})
    else
      l.(node := if n.position < |c.readings| then n.(position := n.position + 1) else n,
         last := Some(epoch), attempted := l.attempted + [epoch])
  }

  /** One round of the main loop: attempt number `k` gets the answers `answers(k)`. */
  ghost function Round(c: Setup, answers: nat -> Answers, l: Loop): (r: Loop)
    requires l.node.position < |c.readings|
  {
    var epoch := c.readings[l.node.position].epoch;
    var n := l.node.(position := l.node.position + 1);
    if !l.started then l.(node := n, started := true)
    else if l.last == Some(epoch) then l.(node := n)
    else
      var (n', raised) := Attempt(c, n, epoch, answers(|l.attempted|));
      Concluded(c, l, epoch, n', raised)
  }

  lemma {:induction false} RoundAttempts(c: Setup, answers: nat -> Answers, l: Loop, n: Node, r: (Node, bool))
    requires l.node.position < |c.readings| && l.started && l.last != Some(c.readings[l.node.position].epoch)
    requires r == Attempt(c, l.node.(position := l.node.position + 1), c.readings[l.node.position].epoch,
                          answers(|l.attempted|))
    ensures Round(c, answers, l) == Concluded(c, l.(node := n), c.readings[l.node.position].epoch, r.0, r.1)
  {
  }

  /** Every store is of an epoch that was completed, or of one that failed. */
  ghost predicate Settled(stores: seq<Store>, last: Option<nat>, failed: set<nat>) {
    forall i :: 0 <= i < |stores| ==> stores[i].epoch in failed || (last.Some? && stores[i].epoch <= last.value)
  }

  ghost predicate LoopOk(c: Setup, l: Loop)
    requires c.length > 0
  {
    && Good(c, l.node) && OnceUnless(l.node.stores, l.failed) && Settled(l.node.stores, l.last, l.failed)
    && (l.last.Some? ==> l.node.position > 0 && l.last.value <= c.readings[l.node.position - 1].epoch)
  }

  lemma {:induction false} AttemptSettles(s0: seq<Store>, stores: seq<Store>, epoch: nat, last: Option<nat>,
                                          failed: set<nat>)
    requires CameTo(s0, stores, epoch, 5) && OnceUnless(s0, failed)
    requires Settled(s0, last, failed) && (last.Some? ==> last.value < epoch)
    ensures OnceUnless(stores, failed) && OnceUnless(stores, failed + {epoch})
    ensures Settled(stores, Some(epoch), failed) && Settled(stores, last, failed + {epoch})
  {
    var made := stores[|s0|..];
    assert stores == s0 + made;
    AttemptKeepsOnce(s0, made, epoch, failed);
    forall i | 0 <= i < |stores|
      ensures stores[i].epoch in failed || (i < |s0| && last.Some? && stores[i].epoch <= last.value)
           || stores[i].epoch == epoch
    {
      if i >= |s0| { assert stores[i] == made[i - |s0|]; }
    }
  }

  /** The loop is in order and has made progress. */
  ghost predicate NextOk(c: Setup, l: Loop, l': Loop)
    requires c.length > 0
  {
    LoopOk(c, l') && l.node.position < l'.node.position <= |c.readings|
  }

  lemma {:induction false} AfterAttempt(c: Setup, l: Loop, epoch: nat, n: Node, raised: bool)
    requires c.Valid() && LoopOk(c, l) && l.node.position < |c.readings| && epoch == c.readings[l.node.position].epoch
    requires l.last.Some? ==> l.last.value < epoch
    requires Good(c, n) && l.node.position < n.position && CameTo(l.node.stores, n.stores, epoch, 5)
    ensures NextOk(c, l, Concluded(c, l, epoch, n, raised))
  {
    var p := l.node.position;
    AttemptSettles(l.node.stores, n.stores, epoch, l.last, l.failed);
    GenuineAt(c.readings, c.slot, c.length, p, n.position - 1);
    if n.position < |c.readings| {
      MoveGood(c, n, n.position + 1);
      GenuineAt(c.readings, c.slot, c.length, p, n.position);
    }
  }

  lemma {:induction false} PlainRound(c: Setup, l: Loop, started: bool)
    requires c.Valid() && l.node.position < |c.readings| && LoopOk(c, l)
    ensures NextOk(c, l, l.(node := l.node.(position := l.node.position + 1), started := started))
  {
    var p := l.node.position;
    MoveGood(c, l.node, p + 1);
    if p > 0 { GenuineAt(c.readings, c.slot, c.length, p - 1, p); }
  }

  lemma {:induction false} AttemptRound(c: Setup, a: Answers, l: Loop, epoch: nat)
    requires c.Valid() && l.node.position < |c.readings| && LoopOk(c, l)
    requires epoch == c.readings[l.node.position].epoch && l.last != Some(epoch)
    ensures var r := Attempt(c, l.node.(position := l.node.position + 1), epoch, a);
            NextOk(c, l, Concluded(c, l, epoch, r.0, r.1)) && (r.1 ==> !a.Calm())
  {
    var p := l.node.position;
    var n := l.node.(position := p + 1);
    assert Good(c, n) by { MoveGood(c, l.node, p + 1); }
    assert l.last.Some? ==> l.last.value < epoch by {
      if p > 0 { GenuineAt(c.readings, c.slot, c.length, p - 1, p); }
    }
    AttemptOk(c, n, epoch, a);
    AfterAttempt(c, l, epoch, Attempt(c, n, epoch, a).0, Attempt(c, n, epoch, a).1);
  }

  /** A round makes progress, keeps the loop in order, and fails an epoch only if an exception is raised. */
  lemma {:induction false} RoundOk(c: Setup, answers: nat -> Answers, l: Loop)
    requires c.Valid() && l.node.position < |c.readings| && LoopOk(c, l)
    ensures NextOk(c, l, Round(c, answers, l))
    ensures Round(c, answers, l).failed != l.failed ==> !answers(|l.attempted|).Calm()
  {
    var epoch := c.readings[l.node.position].epoch;
    if !l.started {
      PlainRound(c, l, true);
    } else if l.last == Some(epoch) {
      PlainRound(c, l, l.started);
    } else {
      AttemptRound(c, answers(|l.attempted|), l, epoch);
    }
  }

  /** The main loop, until the readings run out, which is the stop event. */
  ghost function Forever(c: Setup, answers: nat -> Answers, l: Loop): (r: Loop)
    requires c.Valid() && LoopOk(c, l)
    decreases |c.readings| - l.node.position
  {
    if l.node.position >= |c.readings| then l
    else
      RoundOk(c, answers, l);
      Forever(c, answers, Round(c, answers, l))
  }

  lemma {:induction false} StartOk(c: Setup)
    requires c.Valid()
    ensures LoopOk(c, FRESH_LOOP)
  {
  }

  ghost function Run(c: Setup, answers: nat -> Answers): (r: Loop)
    requires c.Valid()
  {
    StartOk(c);
    Forever(c, answers, FRESH_LOOP)
  }

  lemma {:induction false} ForeverOk(c: Setup, answers: nat -> Answers, l: Loop)
    requires c.Valid() && LoopOk(c, l)
    ensures LoopOk(c, Forever(c, answers, l))
    ensures (forall k :: answers(k).Calm()) ==> Forever(c, answers, l).failed == l.failed
    decreases |c.readings| - l.node.position
  {
    if l.node.position < |c.readings| {
      RoundOk(c, answers, l);
      ForeverOk(c, answers, Round(c, answers, l));
    }
  }

  /** Every attempt of the epoch goes without exceptions; attempt `i` gets `answers(i)`. */
  ghost predicate CalmEpoch(answers: nat -> Answers, attempted: seq<nat>, epoch: nat) {
    forall i :: 0 <= i < |attempted| && attempted[i] == epoch ==> answers(i).Calm()
  }

  /** An epoch fails only if one of its attempts meets an exception. */
  ghost predicate FailsForCause(answers: nat -> Answers, l: Loop) {
    forall epoch :: epoch in l.failed ==> !CalmEpoch(answers, l.attempted, epoch)
  }

  lemma {:induction false} MoreAttempts(answers: nat -> Answers, attempted: seq<nat>, next: nat, epoch: nat)
    requires CalmEpoch(answers, attempted + [next], epoch)
    ensures CalmEpoch(answers, attempted, epoch) && (next == epoch ==> answers(|attempted|).Calm())
  {
    var more := attempted + [next];
    assert more[|attempted|] == next;
    assert forall i :: 0 <= i < |attempted| ==> more[i] == attempted[i];
  }

  lemma {:induction false} CauseStays(answers: nat -> Answers, l: Loop, next: nat, l': Loop)
    requires FailsForCause(answers, l) && l'.attempted == l.attempted + [next]
    requires l'.failed == l.failed || (l'.failed == l.failed + {next} && !answers(|l.attempted|).Calm())
    ensures FailsForCause(answers, l')
  {
    forall epoch | epoch in l'.failed && CalmEpoch(answers, l'.attempted, epoch) ensures false {
      MoreAttempts(answers, l.attempted, next, epoch);
    }
  }

  lemma {:induction false} RoundForCause(c: Setup, answers: nat -> Answers, l: Loop)
    requires c.Valid() && l.node.position < |c.readings| && LoopOk(c, l) && FailsForCause(answers, l)
    ensures FailsForCause(answers, Round(c, answers, l))
  {
    var epoch := c.readings[l.node.position].epoch;
    RoundOk(c, answers, l);
    if l.started && l.last != Some(epoch) { CauseStays(answers, l, epoch, Round(c, answers, l)); }
  }

  lemma {:induction false} ForeverForCause(c: Setup, answers: nat -> Answers, l: Loop)
    requires c.Valid() && LoopOk(c, l) && FailsForCause(answers, l)
    ensures FailsForCause(answers, Forever(c, answers, l))
    decreases |c.readings| - l.node.position
  {
    if l.node.position < |c.readings| {
      RoundOk(c, answers, l);
      RoundForCause(c, answers, l);
      ForeverForCause(c, answers, Round(c, answers, l));
    }
  }

  /**
   * Whatever the readings, answers and exceptions: every store is made in its own epoch and window, every
   * reveal opens an earlier commit, and a key is stored twice only in an epoch in which an attempt raised,
   * which is never an epoch all of whose attempts go without exceptions.
   */
  lemma {:induction false} RunIsSound(c: Setup, answers: nat -> Answers)
    requires c.Valid()
    ensures var l := Run(c, answers); Sound(l.node.stores, c.slot, c.length) && OnceUnless(l.node.stores, l.failed)
    ensures FailsForCause(answers, Run(c, answers))
  {
    StartOk(c);
    ForeverOk(c, answers, FRESH_LOOP);
    ForeverForCause(c, answers, FRESH_LOOP);
  }

  /** Without exceptions no key is ever stored twice. */
  lemma {:induction false} CalmRunStoresOnce(c: Setup, answers: nat -> Answers)
    requires c.Valid() && forall k :: answers(k).Calm()
    ensures OnceUnless(Run(c, answers).node.stores, {})
  {
    StartOk(c);
    ForeverOk(c, answers, FRESH_LOOP);
  }

  // ---------------------------------------------------------------- what an attempt achieves, and what goes wrong

  lemma {:induction false} MadeStays(before: seq<Store>, after: seq<Store>, kind: KeyType, epoch: nat,
                                     k: KeyType, content: nat)
    requires AtMostOne(before, after, kind, epoch) && Made(before, k, epoch, content)
    ensures Made(after, k, epoch, content)
  {
    if after != before {
      var s :| after == before + [s] && s.kind == kind && s.epoch == epoch;
      MadeGrows(before, s, k, epoch, content);
    }
  }

  /**
   * An attempt without exceptions that finds peers and is read in time commits its task and reveals it: the
   * first reading after the attestation lies in the first half of the epoch, and the first one past the
   * half no later than the reveal deadline.
   */
  lemma {:induction false} CalmAttemptReveals(c: Setup, n: Node, epoch: nat, a: Answers)
    requires c.Valid() && Good(c, n) && a.Calm() && a.anyPeers
    requires var p := n.position + a.attestReadings;
             && c.Inside(p, epoch, VERIFIER_COMMIT_DEADLINE)
             && c.Inside(WaitUntil(c, p + 1, epoch, VERIFIER_COMMIT_DEADLINE), epoch, VERIFIER_REVEAL_DEADLINE)
    ensures var stores := Attempt(c, n, epoch, a).0.stores;
            && Made(stores, VerifierCommit, epoch, a.taskContent)
            && Made(stores, VerifierReveal, epoch, a.taskContent)
  {
    var n1 := Attest(c, n, a).0;
    MoveGood(c, n, n1.position);
    CommitAndReveal(c, n1, epoch, a);
    FirstHalfOk(c, n1, epoch, a);
    RestStays(c, FirstHalf(c, n1, epoch, a).0, epoch, a);
  }

  lemma {:induction false} CommitAndReveal(c: Setup, n: Node, epoch: nat, a: Answers)
    requires a.Calm() && a.anyPeers && c.Inside(n.position, epoch, VERIFIER_COMMIT_DEADLINE)
    requires c.Inside(WaitUntil(c, n.position + 1, epoch, VERIFIER_COMMIT_DEADLINE), epoch, VERIFIER_REVEAL_DEADLINE)
    ensures var (n3, raised) := FirstHalf(c, n, epoch, a);
            && !raised
            && Made(n3.stores, VerifierCommit, epoch, a.taskContent)
            && Made(n3.stores, VerifierReveal, epoch, a.taskContent)
  {
    var n2 := TaskCommit(c, n, epoch, a).0;
    MadeGrows(n.stores, n2.stores[|n.stores|], VerifierCommit, epoch, a.taskContent);
    var n3 := TaskReveal(c, n2, epoch, a).0;
    assert n3.stores == n2.stores + [n3.stores[|n2.stores|]];
    MadeGrows(n2.stores, n3.stores[|n2.stores|], VerifierCommit, epoch, a.taskContent);
  }

  lemma {:induction false} RestStays(c: Setup, n3: Node, epoch: nat, a: Answers)
    requires c.Valid() && Good(c, n3) && a.Calm()
    ensures var n5 := SecondHalf(c, n3, epoch, a).0;
            forall k, content :: Made(n3.stores, k, epoch, content) ==> Made(n5.stores, k, epoch, content)
  {
    var n4 := RevealScores(c, n3, epoch, a).0;
    RevealScoresOk(c, n3, epoch, a);
    ScoreAndCommitOk(c, n4, epoch, a);
    var n5 := ScoreAndCommit(c, n4, epoch, a).0;
    forall k, content | Made(n3.stores, k, epoch, content) ensures Made(n5.stores, k, epoch, content) {
      MadeStays(n3.stores, n4.stores, ScoresReveal, epoch, k, content);
      MadeStays(n4.stores, n5.stores, ScoresCommit, epoch, k, content);
    }
  }

  /** Five readings: one in epoch 0, four at the start of epoch 1. */
  function ShortRun(slot: nat, length: nat): (c: Setup)
    requires length > 0
  {
    var d := SubnetEpochData(slot + length, slot, length);
    Setup(slot, length, [SubnetEpochData(slot, slot, length), d, d, d, d])
  }

  lemma {:induction false} ShortRunReads(slot: nat, length: nat)
    requires length > 0
    ensures var c := ShortRun(slot, length);
            c.Valid() && c.readings[1].epoch == 1 && c.readings[1].percentComplete == 0.0
            && c.readings[1].block == slot + length
  {
    var c := ShortRun(slot, length);
    var r := c.readings;
    assert length / length == 1 && length % length == 0;
    assert r[..4] == [r[0], r[1], r[1], r[1]] && r[..3] == [r[0], r[1], r[1]];
    assert r[..2] == [r[0], r[1]] && r[..1] == [r[0]];
    assert r[..4][..3] == r[..3] && r[..3][..2] == r[..2] && r[..2][..1] == r[..1] && r[..1][..0] == [];
    assert Genuine(r[..1], slot, length);
    assert Genuine(r[..2], slot, length);
    assert Genuine(r[..3], slot, length);
    assert Genuine(r[..4], slot, length);
  }

  /** The first attempt raises after its commit went out; the second one commits again. */
  ghost predicate RaisesOnce(answers: nat -> Answers) {
    && answers(0).attestReadings == 0 && !answers(0).attestRaises
    && answers(0).anyPeers && answers(0).taskFault == StoreFault(true)
    && answers(1).attestReadings == 0 && answers(1).Calm() && answers(1).anyPeers
  }

  lemma {:induction false} FirstAttempt(c: Setup, a: Answers)
    requires c.length > 0 && c == ShortRun(c.slot, c.length)
    requires a.attestReadings == 0 && !a.attestRaises && a.anyPeers && a.taskFault == StoreFault(true)
    ensures Attempt(c, Node(2, [], None, map[], {}), 1, a)
         == (Node(3, [Store(VerifierCommit, 1, c.slot + c.length, a.taskContent)], None, map[], {}), true)
  {
    ShortRunReads(c.slot, c.length);
    var s := Store(VerifierCommit, 1, c.slot + c.length, a.taskContent);
    assert [] + [s] == [s];
  }

  lemma {:induction false} SecondAttempt(c: Setup, a: Answers, stores: seq<Store>)
    requires c.length > 0 && c == ShortRun(c.slot, c.length) && a.attestReadings == 0 && a.Calm() && a.anyPeers
    ensures Attempt(c, Node(4, stores, None, map[], {}), 1, a)
         == (Node(5, stores + [Store(VerifierCommit, 1, c.slot + c.length, a.taskContent)],
                  Some(Commit(1, a.taskContent)), map[], {}), false)
  {
    ShortRunReads(c.slot, c.length);
  }

  /**
   * A run in which a key is stored twice, for every slot and epoch length: storing a task commit raises
   * an exception after the record went out, so the epoch is run again.
   */
  lemma {:induction false} StoredTwice(slot: nat, length: nat, answers: nat -> Answers)
    requires length > 0 && RaisesOnce(answers)
    ensures var c := ShortRun(slot, length);
            && c.Valid()
            && var l := Run(c, answers);
            && l.failed == {1} && |l.node.stores| == 2 && l.node.stores[0].SameKey(l.node.stores[1])
            && l.node.stores[0].kind.VerifierCommit?
  {
    var c := ShortRun(slot, length);
    ShortRunReads(slot, length);
    StartOk(c);
    var l1 := Round(c, answers, FRESH_LOOP);
    RoundOk(c, answers, FRESH_LOOP);
    FirstAttempt(c, answers(0));
    var l2 := Round(c, answers, l1);
    RoundOk(c, answers, l1);
    SecondAttempt(c, answers(1), l2.node.stores);
    var l3 := Round(c, answers, l2);
    RoundOk(c, answers, l2);
    assert Forever(c, answers, l3) == l3;
    assert Forever(c, answers, l2) == l3;
    assert Forever(c, answers, l1) == l3;
  }
}
