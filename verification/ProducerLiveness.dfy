/** What the node does store: the exact records of an epoch without exceptions, and reveals that follow commits. */
module ProducerLiveness {
  import opened Basics
  import opened Epochs
  import opened CommitReveal
  import opened ProducerSpec

  // ---------------------------------------------------------------- when the phases read the chain

  /** The reading after this one, as far as there is one. */
  function Next(c: Setup, p: nat): (r: nat) {
    if p < |c.readings| then p + 1 else p
  }

  /** The first reading from `from` on that lies in another epoch or beyond the given progress. */
  ghost predicate FirstBeyond(c: Setup, from: nat, p: nat, epoch: nat, progress: real) {
    && from <= p <= |c.readings|
    && (forall k :: from <= k < p ==> c.Inside(k, epoch, progress))
    && (p < |c.readings| ==> !c.Inside(p, epoch, progress))
  }

  lemma {:induction false} WaitIs(c: Setup, from: nat, p: nat, epoch: nat, progress: real)
    requires FirstBeyond(c, from, p, epoch, progress)
    ensures WaitUntil(c, from, epoch, progress) == p
    decreases |c.readings| - from
  {
    if from < p { WaitIs(c, from + 1, p, epoch, progress); }
  }

  lemma {:induction false} WaitIsFirst(c: Setup, from: nat, epoch: nat, progress: real)
    requires from <= |c.readings|
    ensures FirstBeyond(c, from, WaitUntil(c, from, epoch, progress), epoch, progress)
    decreases |c.readings| - from
  {
    if from < |c.readings| && c.Inside(from, epoch, progress) { WaitIsFirst(c, from + 1, epoch, progress); }
  }

  lemma {:induction false} CalmWait(c: Setup, from: nat, p: nat, epoch: nat, progress: real, limit: real)
    requires FirstBeyond(c, from, p, epoch, progress)
    ensures WaitFor(c, from, epoch, progress, limit, NoFault) == Waited(Next(c, p), c.Inside(p, epoch, limit), false)
  {
    WaitIs(c, from, p, epoch, progress);
  }

  /** A progress once passed stays passed, because blocks do not go back. */
  lemma {:induction false} BeyondStays(c: Setup, start: nat, p: nat, epoch: nat, progress: real)
    requires c.Valid() && start < p <= |c.readings| && c.readings[start].epoch == epoch
    requires p < |c.readings| ==> !c.Inside(p, epoch, progress)
    ensures FirstBeyond(c, Next(c, p), Next(c, p), epoch, progress)
  {
    if p + 1 < |c.readings| {
      GenuineAt(c.readings, c.slot, c.length, start, p);
      GenuineAt(c.readings, c.slot, c.length, p, p + 1);
      EpochsAdvance(c.readings[p].block, c.readings[p + 1].block, c.slot, c.length);
    }
  }

  /** The readings at which the five phases that may store or score are entered. */
  datatype Timetable = Timetable(commitAt: nat, revealAt: nat, scoresRevealAt: nat, scoreAt: nat, scoresCommitAt: nat)

  /**
   * They follow from the readings: the commit takes the first one after the attestation, the reveal the first
   * past one half, the scores are revealed at the next, made at the first past six tenths, and
   * committed at the next.
   */
  ghost predicate Timed(c: Setup, n: Node, epoch: nat, a: Answers, t: Timetable) {
    var end := n.position + a.attestReadings;
    && t.commitAt == (if end <= |c.readings| then end else |c.readings|)
    && FirstBeyond(c, Next(c, t.commitAt), t.revealAt, epoch, 0.5)
    && t.scoresRevealAt == Next(c, t.revealAt)
    && FirstBeyond(c, Next(c, t.scoresRevealAt), t.scoreAt, epoch, 0.6)
    && t.scoresCommitAt == Next(c, t.scoreAt)
  }

  /** There is always just one such timetable. */
  lemma {:induction false} SomeTimetable(c: Setup, n: Node, epoch: nat, a: Answers) returns (t: Timetable)
    ensures Timed(c, n, epoch, a, t)
  {
    var end := n.position + a.attestReadings;
    var commitAt := if end <= |c.readings| then end else |c.readings|;
    var revealAt := WaitUntil(c, Next(c, commitAt), epoch, 0.5);
    WaitIsFirst(c, Next(c, commitAt), epoch, 0.5);
    var scoresRevealAt := Next(c, revealAt);
    var scoreAt := WaitUntil(c, Next(c, scoresRevealAt), epoch, 0.6);
    WaitIsFirst(c, Next(c, scoresRevealAt), epoch, 0.6);
    t := Timetable(commitAt, revealAt, scoresRevealAt, scoreAt, Next(c, scoreAt));
  }

  // ---------------------------------------------------------------- phases without exceptions

  /** The record of a phase entered at reading `p`, if it stores any. */
  ghost function StoreIf(c: Setup, made: bool, kind: KeyType, epoch: nat, p: nat, content: nat): (r: seq<Store>)
    requires made ==> p < |c.readings|
  {
    if made then [Store(kind, epoch, c.readings[p].block, content)] else []
  }

  ghost predicate Commits(c: Setup, epoch: nat, a: Answers, p: nat) {
    c.Inside(p, epoch, 0.5) && a.anyPeers
  }

  /** The commit of this epoch, made now or remembered from an attempt that failed later on. */
  ghost function TaskAfter(c: Setup, n: Node, epoch: nat, a: Answers, p: nat): (r: Option<Commit>) {
    if Commits(c, epoch, a, p) then Some(Commit(epoch, a.taskContent)) else n.task
  }

  ghost predicate Reveals(c: Setup, epoch: nat, task: Option<Commit>, p: nat) {
    c.Inside(p, epoch, 0.6) && task.Some? && task.value.epoch == epoch
  }

  ghost predicate RevealsScores(c: Setup, n: Node, epoch: nat, p: nat) {
    c.Inside(p, epoch, 0.6) && epoch >= 2 && epoch - 2 in n.scores
  }

  ghost predicate CommitsScores(c: Setup, epoch: nat, a: Answers, t: Timetable) {
    a.scored && c.Inside(t.scoreAt, epoch, 1.0) && c.Inside(t.scoresCommitAt, epoch, 1.0)
  }

  lemma {:induction false} CalmCommit(c: Setup, n: Node, epoch: nat, a: Answers)
    requires a.Calm() && n.position <= |c.readings|
    ensures var p := n.position;
            TaskCommit(c, n, epoch, a)
            == (n.(position := Next(c, p), task := TaskAfter(c, n, epoch, a, p),
                   stores := n.stores
                             + StoreIf(c, Commits(c, epoch, a, p), VerifierCommit, epoch, p, a.taskContent)), false)
  {
    assert n.stores + [] == n.stores;
  }

  lemma {:induction false} CalmReveal(c: Setup, n: Node, epoch: nat, a: Answers, p: nat)
    requires a.Calm() && FirstBeyond(c, n.position, p, epoch, 0.5)
    ensures var made := Reveals(c, epoch, n.task, p);
            TaskReveal(c, n, epoch, a)
            == (n.(position := Next(c, p),
                   stores := n.stores
                             + StoreIf(c, made, VerifierReveal, epoch, p, if made then n.task.value.content else 0)),
                false)
  {
    CalmWait(c, n.position, p, epoch, 0.5, 0.6);
    assert n.stores + [] == n.stores;
  }

  lemma {:induction false} CalmScoresReveal(c: Setup, n: Node, epoch: nat, a: Answers, p: nat)
    requires a.Calm() && FirstBeyond(c, n.position, p, epoch, 0.5)
    ensures var made := RevealsScores(c, n, epoch, p);
            RevealScores(c, n, epoch, a)
            == (n.(position := Next(c, p),
                   stores := n.stores
                             + StoreIf(c, made, ScoresReveal, epoch, p, if made then n.scores[epoch - 2] else 0)),
                false)
  {
    CalmWait(c, n.position, p, epoch, 0.5, 0.6);
    assert n.stores + [] == n.stores;
  }

  lemma {:induction false} CalmScore(c: Setup, n: Node, epoch: nat, a: Answers, p: nat)
    requires a.Calm() && FirstBeyond(c, n.position, p, epoch, 0.6)
    ensures Score(c, n, epoch, a)
         == (n.(position := Next(c, p),
                scored := if c.Inside(p, epoch, 1.0) && a.scored then n.scored + {epoch} else n.scored), false)
  {
    CalmWait(c, n.position, p, epoch, 0.6, 1.0);
  }

  lemma {:induction false} CalmScoresCommit(c: Setup, n: Node, epoch: nat, a: Answers, p: nat)
    requires a.Calm() && FirstBeyond(c, n.position, p, epoch, 0.6) && epoch in n.scored
    ensures var made := c.Inside(p, epoch, 1.0);
            CommitScores(c, n, epoch, a)
            == (n.(position := Next(c, p), scores := if made then n.scores[epoch := a.scoresContent] else n.scores,
                   stores := n.stores + StoreIf(c, made, ScoresCommit, epoch, p, a.scoresContent)), false)
  {
    CalmWait(c, n.position, p, epoch, 0.6, 1.0);
    assert n.stores + [] == n.stores;
  }

  // ---------------------------------------------------------------- an attempt without exceptions

  /** Task records of an attempt. */
  ghost function TaskRecords(c: Setup, n: Node, epoch: nat, a: Answers, t: Timetable): (r: seq<Store>) {
    var task := TaskAfter(c, n, epoch, a, t.commitAt);
    var opens := Reveals(c, epoch, task, t.revealAt);
    StoreIf(c, Commits(c, epoch, a, t.commitAt), VerifierCommit, epoch, t.commitAt, a.taskContent)
    + StoreIf(c, opens, VerifierReveal, epoch, t.revealAt, if opens then task.value.content else 0)
  }

  /** Its score records, which come after them. */
  ghost function ScoreRecords(c: Setup, n: Node, epoch: nat, a: Answers, t: Timetable): (r: seq<Store>) {
    var opens := RevealsScores(c, n, epoch, t.scoresRevealAt);
    StoreIf(c, opens, ScoresReveal, epoch, t.scoresRevealAt, if opens then n.scores[epoch - 2] else 0)
    + StoreIf(c, CommitsScores(c, epoch, a, t), ScoresCommit, epoch, t.scoresCommitAt, a.scoresContent)
  }

  lemma {:induction false} EarlierHalf(c: Setup, n: Node, epoch: nat, a: Answers, t: Timetable)
    requires a.Calm() && Timed(c, n, epoch, a, t)
    ensures FirstHalf(c, n.(position := t.commitAt), epoch, a)
         == (n.(position := t.scoresRevealAt, task := TaskAfter(c, n, epoch, a, t.commitAt),
                stores := n.stores + TaskRecords(c, n, epoch, a, t)), false)
  {
    var n0 := n.(position := t.commitAt);
    CalmCommit(c, n0, epoch, a);
    var n1 := TaskCommit(c, n0, epoch, a).0;
    CalmReveal(c, n1, epoch, a, t.revealAt);
    var made, opens := n1.stores[|n.stores|..], TaskReveal(c, n1, epoch, a).0.stores[|n1.stores|..];
    assert n1.stores == n.stores + made && n.stores + made + opens == n.stores + (made + opens);
  }

  /** The node after the last three phases, entered at `p`, `q` and the reading after `q`. */
  lemma {:induction false} CalmSecondHalf(c: Setup, n: Node, epoch: nat, a: Answers, p: nat, q: nat)
    requires a.Calm() && FirstBeyond(c, n.position, p, epoch, 0.5) && FirstBeyond(c, Next(c, p), q, epoch, 0.6)
    requires FirstBeyond(c, Next(c, q), Next(c, q), epoch, 0.6)
    ensures var opens, last := RevealsScores(c, n, epoch, p), Next(c, q);
            var commits := a.scored && c.Inside(q, epoch, 1.0) && c.Inside(last, epoch, 1.0);
            var r := SecondHalf(c, n, epoch, a);
            && !r.1 && r.0.task == n.task
            && r.0.scores == (if commits then n.scores[epoch := a.scoresContent] else n.scores)
            && r.0.stores == n.stores
                             + StoreIf(c, opens, ScoresReveal, epoch, p, if opens then n.scores[epoch - 2] else 0)
                             + StoreIf(c, commits, ScoresCommit, epoch, last, a.scoresContent)
  {
    CalmScoresReveal(c, n, epoch, a, p);
    var n1 := RevealScores(c, n, epoch, a).0;
    CalmScore(c, n1, epoch, a, q);
    CalmWait(c, n1.position, q, epoch, 0.6, 1.0);
    var n2 := Score(c, n1, epoch, a).0;
    if a.scored && c.Inside(q, epoch, 1.0) {
      CalmScoresCommit(c, n2, epoch, a, Next(c, q));
    } else {
      assert n2.stores + [] == n2.stores;
    }
  }

  /**
   * An attempt without exceptions, entered after a reading of its epoch, stores exactly the records of its
   * timetable, at the blocks of these readings, and remembers what it committed.
   */
  lemma {:induction false} CalmAttemptStores(c: Setup, n: Node, epoch: nat, a: Answers, t: Timetable)
    requires c.Valid() && a.Calm() && Timed(c, n, epoch, a, t)
    requires 0 < n.position <= |c.readings| && c.readings[n.position - 1].epoch == epoch
    ensures var (n', raised) := Attempt(c, n, epoch, a);
            && !raised
            && n'.stores == n.stores + TaskRecords(c, n, epoch, a, t) + ScoreRecords(c, n, epoch, a, t)
            && n'.task == TaskAfter(c, n, epoch, a, t.commitAt)
            && n'.scores == if CommitsScores(c, epoch, a, t) then n.scores[epoch := a.scoresContent] else n.scores
  {
    var r := FirstHalf(c, n.(position := t.commitAt), epoch, a);
    EarlierHalf(c, n, epoch, a, t);
    TwoHalves(c, n, epoch, a, r);
    LaterHalf(c, n, r.0, epoch, a, t);
  }

  lemma {:induction false} TwoHalves(c: Setup, n: Node, epoch: nat, a: Answers, r: (Node, bool))
    requires r == FirstHalf(c, Attest(c, n, a).0, epoch, a) && !a.attestRaises && !r.1
    ensures Attempt(c, n, epoch, a) == SecondHalf(c, r.0, epoch, a)
  {
  }

  lemma {:induction false} LaterHalf(c: Setup, n: Node, n1: Node, epoch: nat, a: Answers, t: Timetable)
    requires c.Valid() && a.Calm() && Timed(c, n, epoch, a, t)
    requires 0 < n.position <= |c.readings| && c.readings[n.position - 1].epoch == epoch
    requires n1.position == t.scoresRevealAt && n1.scores == n.scores
    ensures var r := SecondHalf(c, n1, epoch, a);
            && !r.1 && r.0.task == n1.task
            && r.0.scores == (if CommitsScores(c, epoch, a, t) then n.scores[epoch := a.scoresContent] else n.scores)
            && r.0.stores == n1.stores + ScoreRecords(c, n, epoch, a, t)
  {
    BeyondStays(c, n.position - 1, t.revealAt, epoch, 0.5);
    BeyondStays(c, n.position - 1, t.scoreAt, epoch, 0.6);
    CalmSecondHalf(c, n1, epoch, a, t.scoresRevealAt, t.scoreAt);
  }

  // ---------------------------------------------------------------- runs without exceptions

  /** The loop after `k` rounds. */
  ghost function After(c: Setup, answers: nat -> Answers, k: nat): (l: Loop) {
    if k == 0 then FRESH_LOOP
    else
      var l := After(c, answers, k - 1);
      if l.node.position < |c.readings| then Round(c, answers, l) else l
  }

  lemma {:induction false} AfterOk(c: Setup, answers: nat -> Answers, k: nat)
    requires c.Valid() && forall i :: answers(i).Calm()
    ensures var l := After(c, answers, k);
            LoopOk(c, l) && l.failed == {} && Forever(c, answers, l) == Run(c, answers)
  {
    if k == 0 {
      StartOk(c);
    } else {
      AfterOk(c, answers, k - 1);
      StepOk(c, answers, After(c, answers, k - 1), After(c, answers, k));
    }
  }

  lemma {:induction false} StepOk(c: Setup, answers: nat -> Answers, l: Loop, l': Loop)
    requires c.Valid() && LoopOk(c, l) && answers(|l.attempted|).Calm()
    requires l' == if l.node.position < |c.readings| then Round(c, answers, l) else l
    ensures LoopOk(c, l') && l'.failed == l.failed && Forever(c, answers, l') == Forever(c, answers, l)
  {
    if l.node.position < |c.readings| { RoundOk(c, answers, l); }
  }

  lemma {:induction false} MadeEither(s: seq<Store>, t: seq<Store>, kind: KeyType, epoch: nat, content: nat)
    ensures Made(s + t, kind, epoch, content) <==> Made(s, kind, epoch, content) || Made(t, kind, epoch, content)
  {
    if t == [] {
      assert s + t == s;
    } else {
      var n := |t| - 1;
      MadeEither(s, t[..n], kind, epoch, content);
      assert (s + t)[..|s + t| - 1] == s + t[..n];
    }
  }

  lemma {:induction false} MadeOne(c: Setup, made: bool, kind: KeyType, epoch: nat, p: nat, content: nat, k: KeyType,
                                   e: nat, x: nat)
    requires made ==> p < |c.readings|
    ensures Made(StoreIf(c, made, kind, epoch, p, content), k, e, x)
       <==> made && k == kind && e == epoch && x == content
  {
    if made {
      var s := StoreIf(c, made, kind, epoch, p, content);
      assert s[..0] == [];
    }
  }

  /** What the records of an attempt say about scores. */
  lemma {:induction false} ScoresMade(c: Setup, n: Node, epoch: nat, a: Answers, t: Timetable, e: nat, x: nat)
    ensures var s := TaskRecords(c, n, epoch, a, t) + ScoreRecords(c, n, epoch, a, t);
            && (Made(s, ScoresCommit, e, x) <==> CommitsScores(c, epoch, a, t) && e == epoch && x == a.scoresContent)
            && (Made(s, ScoresReveal, e, x) <==>
                  RevealsScores(c, n, epoch, t.scoresRevealAt) && e == epoch && x == n.scores[epoch - 2])
  {
    NoScoresInTasks(c, n, epoch, a, t, ScoresCommit, e, x);
    NoScoresInTasks(c, n, epoch, a, t, ScoresReveal, e, x);
    ScoresInScores(c, n, epoch, a, t, ScoresCommit, e, x);
    ScoresInScores(c, n, epoch, a, t, ScoresReveal, e, x);
    MadeEither(TaskRecords(c, n, epoch, a, t), ScoreRecords(c, n, epoch, a, t), ScoresCommit, e, x);
    MadeEither(TaskRecords(c, n, epoch, a, t), ScoreRecords(c, n, epoch, a, t), ScoresReveal, e, x);
  }

  lemma {:induction false} NoScoresInTasks(c: Setup, n: Node, epoch: nat, a: Answers, t: Timetable, k: KeyType, e: nat,
                                           x: nat)
    requires k == ScoresCommit || k == ScoresReveal
    ensures !Made(TaskRecords(c, n, epoch, a, t), k, e, x)
  {
    var task := TaskAfter(c, n, epoch, a, t.commitAt);
    var opens := Reveals(c, epoch, task, t.revealAt);
    var content := if opens then task.value.content else 0;
    MadeEither(StoreIf(c, Commits(c, epoch, a, t.commitAt), VerifierCommit, epoch, t.commitAt, a.taskContent),
               StoreIf(c, opens, VerifierReveal, epoch, t.revealAt, content), k, e, x);
    MadeOne(c, Commits(c, epoch, a, t.commitAt), VerifierCommit, epoch, t.commitAt, a.taskContent, k, e, x);
    MadeOne(c, opens, VerifierReveal, epoch, t.revealAt, content, k, e, x);
  }

  lemma {:induction false} ScoresInScores(c: Setup, n: Node, epoch: nat, a: Answers, t: Timetable, k: KeyType, e: nat,
                                          x: nat)
    ensures var opens := RevealsScores(c, n, epoch, t.scoresRevealAt);
            Made(ScoreRecords(c, n, epoch, a, t), k, e, x)
            <==> e == epoch && ((k == ScoresReveal && opens && x == n.scores[epoch - 2])
                                || (k == ScoresCommit && CommitsScores(c, epoch, a, t) && x == a.scoresContent))
  {
    var opens := RevealsScores(c, n, epoch, t.scoresRevealAt);
    var content := if opens then n.scores[epoch - 2] else 0;
    var commits := CommitsScores(c, epoch, a, t);
    MadeEither(StoreIf(c, opens, ScoresReveal, epoch, t.scoresRevealAt, content),
               StoreIf(c, commits, ScoresCommit, epoch, t.scoresCommitAt, a.scoresContent), k, e, x);
    MadeOne(c, opens, ScoresReveal, epoch, t.scoresRevealAt, content, k, e, x);
    MadeOne(c, commits, ScoresCommit, epoch, t.scoresCommitAt, a.scoresContent, k, e, x);
  }

  /** Every score commit that was made is remembered. */
  ghost predicate Recalled(n: Node) {
    forall e, x :: Made(n.stores, ScoresCommit, e, x) ==> e in n.scores && n.scores[e] == x
  }

  /** No store of the epoch has been made. */
  lemma {:induction false} NothingYet(c: Setup, l: Loop, kind: KeyType, x: nat)
    requires c.Valid() && LoopOk(c, l) && l.failed == {} && l.node.position < |c.readings|
    requires l.last != Some(c.readings[l.node.position].epoch)
    ensures !Made(l.node.stores, kind, c.readings[l.node.position].epoch, x)
  {
    var p := l.node.position;
    if Made(l.node.stores, kind, c.readings[p].epoch, x) {
      var i := MadeAt(l.node.stores, kind, c.readings[p].epoch, x);
      assert l.node.stores[i].epoch in l.failed || (l.last.Some? && l.node.stores[i].epoch <= l.last.value);
      if p > 0 { GenuineAt(c.readings, c.slot, c.length, p - 1, p); }
      assert false;
    }
  }

  /** The round attempts the epoch it reads. */
  ghost predicate Attempting(c: Setup, l: Loop) {
    l.node.position < |c.readings| && l.started && l.last != Some(c.readings[l.node.position].epoch)
  }

  /** The records of the attempt are added to those of a node, and its scores are remembered. */
  ghost predicate Extended(c: Setup, n: Node, epoch: nat, a: Answers, t: Timetable, n': Node) {
    && n'.stores == n.stores + (TaskRecords(c, n, epoch, a, t) + ScoreRecords(c, n, epoch, a, t))
    && n'.scores == if CommitsScores(c, epoch, a, t) then n.scores[epoch := a.scoresContent] else n.scores
  }

  lemma {:induction false} AttemptExtends(c: Setup, n: Node, epoch: nat, a: Answers, t: Timetable)
    requires c.Valid() && a.Calm() && Timed(c, n, epoch, a, t)
    requires 0 < n.position <= |c.readings| && c.readings[n.position - 1].epoch == epoch
    ensures Extended(c, n, epoch, a, t, Attempt(c, n, epoch, a).0)
  {
    CalmAttemptStores(c, n, epoch, a, t);
    var s1, s2 := TaskRecords(c, n, epoch, a, t), ScoreRecords(c, n, epoch, a, t);
    assert n.stores + s1 + s2 == n.stores + (s1 + s2);
  }

  lemma {:induction false} ConcludedExtends(c: Setup, n: Node, epoch: nat, a: Answers, t: Timetable, l: Loop, m: Node,
                                            raised: bool)
    requires Extended(c, n, epoch, a, t, m)
    ensures Extended(c, n, epoch, a, t, Concluded(c, l, epoch, m, raised).node)
  {
  }

  /** A round without exceptions adds the records of the attempt, if there is one. */
  lemma {:induction false} CalmRound(c: Setup, answers: nat -> Answers, l: Loop, t: Timetable)
    requires c.Valid() && answers(|l.attempted|).Calm() && l.node.position < |c.readings|
    requires var p := l.node.position;
             Timed(c, l.node.(position := p + 1), c.readings[p].epoch, answers(|l.attempted|), t)
    ensures var l', p := Round(c, answers, l), l.node.position;
            var n, epoch := l.node.(position := p + 1), c.readings[p].epoch;
            if Attempting(c, l) then Extended(c, n, epoch, answers(|l.attempted|), t, l'.node)
            else l'.node.stores == l.node.stores && l'.node.scores == l.node.scores
  {
    var p, a := l.node.position, answers(|l.attempted|);
    var n, epoch := l.node.(position := p + 1), c.readings[p].epoch;
    if Attempting(c, l) {
      var r := Attempt(c, n, epoch, a);
      AttemptExtends(c, n, epoch, a, t);
      RoundAttempts(c, answers, l, n, r);
      ConcludedExtends(c, n, epoch, a, t, l.(node := n), r.0, r.1);
    }
  }

  lemma {:induction false} RoundRecalls(c: Setup, answers: nat -> Answers, l: Loop)
    requires c.Valid() && LoopOk(c, l) && l.failed == {} && l.node.position < |c.readings|
    requires answers(|l.attempted|).Calm() && Recalled(l.node)
    ensures Recalled(Round(c, answers, l).node)
  {
    var p, a := l.node.position, answers(|l.attempted|);
    var n, epoch := l.node.(position := p + 1), c.readings[p].epoch;
    var t := SomeTimetable(c, n, epoch, a);
    CalmRound(c, answers, l, t);
    var n' := Round(c, answers, l).node;
    forall e, x | Attempting(c, l) && Made(n'.stores, ScoresCommit, e, x) ensures e in n'.scores && n'.scores[e] == x {
      MadeEither(n.stores, TaskRecords(c, n, epoch, a, t) + ScoreRecords(c, n, epoch, a, t), ScoresCommit, e, x);
      ScoresMade(c, n, epoch, a, t, e, x);
      NothingYet(c, l, ScoresCommit, x);
    }
  }

  lemma {:induction false} AfterRecalls(c: Setup, answers: nat -> Answers, k: nat)
    requires c.Valid() && forall i :: answers(i).Calm()
    ensures Recalled(After(c, answers, k).node)
  {
    if k == 0 {
      assert Recalled(FRESH_NODE);
    } else {
      AfterOk(c, answers, k - 1);
      AfterRecalls(c, answers, k - 1);
      StepRecalls(c, answers, After(c, answers, k - 1), After(c, answers, k));
    }
  }

  lemma {:induction false} StepRecalls(c: Setup, answers: nat -> Answers, l: Loop, l': Loop)
    requires c.Valid() && LoopOk(c, l) && l.failed == {} && answers(|l.attempted|).Calm() && Recalled(l.node)
    requires l' == if l.node.position < |c.readings| then Round(c, answers, l) else l
    ensures Recalled(l'.node)
  {
    if l.node.position < |c.readings| { RoundRecalls(c, answers, l); }
  }

  lemma {:induction false} ForeverKeeps(c: Setup, answers: nat -> Answers, l: Loop, kind: KeyType, e: nat, x: nat)
    requires c.Valid() && LoopOk(c, l) && (forall i :: answers(i).Calm()) && Made(l.node.stores, kind, e, x)
    ensures Made(Forever(c, answers, l).node.stores, kind, e, x)
    decreases |c.readings| - l.node.position
  {
    if l.node.position < |c.readings| {
      var p, a := l.node.position, answers(|l.attempted|);
      var n, epoch := l.node.(position := p + 1), c.readings[p].epoch;
      var t := SomeTimetable(c, n, epoch, a);
      RoundOk(c, answers, l);
      CalmRound(c, answers, l, t);
      MadeEither(n.stores, TaskRecords(c, n, epoch, a, t) + ScoreRecords(c, n, epoch, a, t), kind, e, x);
      ForeverKeeps(c, answers, Round(c, answers, l), kind, e, x);
    }
  }

  /**
   * Scores that were committed are revealed two epochs later: in a run without exceptions, if the node comes to
   * attempt that epoch and the reading at which it would reveal lies in it and within the deadline.
   */
  lemma {:induction false} CommitIsRevealed(c: Setup, answers: nat -> Answers, k: nat, e: nat, x: nat, t: Timetable)
    requires c.Valid() && forall i :: answers(i).Calm()
    requires var l := After(c, answers, k);
             && Attempting(c, l) && c.readings[l.node.position].epoch == e + 2
             && Made(l.node.stores, ScoresCommit, e, x)
             && Timed(c, l.node.(position := l.node.position + 1), e + 2, answers(|l.attempted|), t)
             && c.Inside(t.scoresRevealAt, e + 2, 0.6)
    ensures Made(Run(c, answers).node.stores, ScoresReveal, e + 2, x)
  {
    var l := After(c, answers, k);
    var a, n := answers(|l.attempted|), l.node.(position := l.node.position + 1);
    AfterOk(c, answers, k);
    AfterRecalls(c, answers, k);
    CalmRound(c, answers, l, t);
    ScoresMade(c, n, e + 2, a, t, e + 2, x);
    MadeEither(n.stores, TaskRecords(c, n, e + 2, a, t) + ScoreRecords(c, n, e + 2, a, t), ScoresReveal, e + 2, x);
    RoundOk(c, answers, l);
    ForeverKeeps(c, answers, Round(c, answers, l), ScoresReveal, e + 2, x);
  }

  /** And scores that were made are committed, if the reading for that still lies in the epoch. */
  lemma {:induction false} ScoresAreCommitted(c: Setup, answers: nat -> Answers, k: nat, epoch: nat, t: Timetable)
    requires c.Valid() && forall i :: answers(i).Calm()
    requires var l := After(c, answers, k);
             && Attempting(c, l) && c.readings[l.node.position].epoch == epoch
             && Timed(c, l.node.(position := l.node.position + 1), epoch, answers(|l.attempted|), t)
             && CommitsScores(c, epoch, answers(|l.attempted|), t)
    ensures var a := answers(|After(c, answers, k).attempted|);
            Made(Run(c, answers).node.stores, ScoresCommit, epoch, a.scoresContent)
  {
    var l := After(c, answers, k);
    var a, n := answers(|l.attempted|), l.node.(position := l.node.position + 1);
    AfterOk(c, answers, k);
    CalmRound(c, answers, l, t);
    ScoresMade(c, n, epoch, a, t, epoch, a.scoresContent);
    MadeEither(n.stores, TaskRecords(c, n, epoch, a, t) + ScoreRecords(c, n, epoch, a, t), ScoresCommit, epoch,
               a.scoresContent);
    RoundOk(c, answers, l);
    ForeverKeeps(c, answers, Round(c, answers, l), ScoresCommit, epoch, a.scoresContent);
  }
}
