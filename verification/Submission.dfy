/** From the records in the network to the list of scores a node submits, and why honest nodes agree on it. */
module Submission {
  import opened Basics
  import opened Counting
  import opened Scoring
  import opened ConsensusScores

  // ---------------------------------------------------------------- selecting from lists

  /** What is selected from each element, in order. */
  function Collect<A, B>(select: A -> Option<B>, xs: seq<A>): (r: seq<B>) {
    if xs == [] then []
    else
      var rest, last := Collect(select, xs[..|xs| - 1]), select(xs[|xs| - 1]);
      if last.Some? then rest + [last.value] else rest
  }

  ghost function Chosen<B>(y: Option<B>): multiset<B> {
    if y.Some? then multiset{y.value} else multiset{}
  }

  lemma {:induction false} CollectConcat<A, B>(select: A -> Option<B>, xs: seq<A>, ys: seq<A>)
    ensures Collect(select, xs + ys) == Collect(select, xs) + Collect(select, ys)
  {
    if ys == [] {
      assert xs + ys == xs;
    } else {
      var n := |ys| - 1;
      CollectConcat(select, xs, ys[..n]);
      assert (xs + ys)[..|xs + ys| - 1] == xs + ys[..n];
    }
  }

  lemma {:induction false} CollectOne<A, B>(select: A -> Option<B>, x: A)
    ensures multiset(Collect(select, [x])) == Chosen(select(x))
  {
    assert [x][..0] == [];
  }

  lemma {:induction false} CollectRemove<A, B>(select: A -> Option<B>, xs: seq<A>, k: nat)
    requires k < |xs|
    ensures multiset(Collect(select, xs)) == multiset(Collect(select, xs[..k] + xs[k + 1..])) + Chosen(select(xs[k]))
  {
    var a, x, b := xs[..k], xs[k], xs[k + 1..];
    assert Collect(select, xs) == Collect(select, a) + Collect(select, [x]) + Collect(select, b) by {
      assert xs == a + [x] + b;
      CollectConcat(select, a + [x], b);
      CollectConcat(select, a, [x]);
    }
    CollectConcat(select, a, b);
    CollectOne(select, x);
  }

  /** A selection from the same elements in another order selects the same. */
  lemma {:induction false} CollectPermutation<A, B>(select: A -> Option<B>, a: seq<A>, b: seq<A>)
    requires multiset(a) == multiset(b)
    ensures multiset(Collect(select, a)) == multiset(Collect(select, b))
    decreases |a|
  {
    assert |multiset(a)| == |a| && |multiset(b)| == |b|;
    if a != [] {
      var n := |a| - 1;
      assert a[n] in multiset(b);
      var k :| 0 <= k < |b| && b[k] == a[n];
      CollectRemove(select, b, k);
      RemoveAt(b, k);
      RemoveAt(a, n);
      assert a[..n] + a[n + 1..] == a[..n];
      CollectPermutation(select, a[..n], b[..k] + b[k + 1..]);
    }
  }

  lemma {:induction false} CollectMembers<A, B>(select: A -> Option<B>, xs: seq<A>, y: B)
    ensures y in Collect(select, xs) <==> exists i :: 0 <= i < |xs| && select(xs[i]) == Some(y)
  {
    if xs != [] {
      var n := |xs| - 1;
      CollectMembers(select, xs[..n], y);
      if i :| 0 <= i < n && select(xs[..n][i]) == Some(y) { assert select(xs[i]) == Some(y); }
      if i :| 0 <= i < |xs| && select(xs[i]) == Some(y) { assert i < n ==> select(xs[..n][i]) == Some(y); }
    }
  }

  lemma {:induction false} CollectPush<A, B>(select: A -> Option<B>, xs: seq<A>, k: nat)
    requires k < |xs|
    ensures Collect(select, xs[..k + 1])
         == Collect(select, xs[..k]) + (if select(xs[k]).Some? then [select(xs[k]).value] else [])
  {
    assert xs[..k + 1][..k] == xs[..k];
  }

  // ---------------------------------------------------------------- records

  /**
   * A revealed record: the public key it is stored under, the peer of that key, the digest of the salt
   * and bytes in it, and what the bytes decode to, `None` if the record is malformed.
   */
  datatype Reveal<T> = Reveal(key: nat, peer: PeerId, digest: nat, payload: Option<T>)

  /** The committed digest of every public key. */
  type Commits = map<nat, nat>

  /** The reveal matches a commit under the same key. */
  predicate Opened<T>(commits: Commits, r: Reveal<T>) {
    r.key in commits && commits[r.key] == r.digest && r.payload.Some?
  }

  ghost predicate OnePerPeer<T>(shown: seq<Reveal<T>>) {
    forall i, j :: 0 <= i < j < |shown| ==> shown[i].peer != shown[j].peer
  }

  /**
   * What the chain says about the consensus of two epochs ago: the list, who attested, and how many nodes
   * there were.
   */
  datatype ConsensusData = ConsensusData(scores: seq<NodeScore>, attests: seq<set<nat>>, nodes: nat)

  /** Everything a node bases its list on; a missing record is `None`. */
  datatype View = View(taskCommits: Option<Commits>, taskReveals: Option<seq<Reveal<seq<Score>>>>,
                       scoreCommits: Option<Commits>, scoreReveals: Option<seq<Reveal<seq<NodeScore>>>>,
                       data: Option<ConsensusData>, included: seq<NodeInfo>)

  /** Nothing to submit, an exception, or a result. */
  datatype Outcome<T> = Nothing | Raises | Result(value: T)

  function OrEmpty(commits: Option<Commits>): (r: Commits) {
    if commits.Some? then commits.value else map[]
  }

  // ---------------------------------------------------------------- task reveals

  function OpenTask(commits: Commits): (f: Reveal<seq<Score>> -> Option<Round>) {
    (r: Reveal<seq<Score>>) => if Opened(commits, r) then Some(Round(r.peer, r.payload.value)) else None
  }

  function Rounds(commits: Commits, shown: seq<Reveal<seq<Score>>>): (r: seq<Round>) {
    Collect(OpenTask(commits), shown)
  }

  /** A validator's scores count exactly if it revealed them and they match its commit. */
  lemma {:induction false} RoundCountsIff(commits: Commits, shown: seq<Reveal<seq<Score>>>, x: Round)
    ensures x in Rounds(commits, shown)
       <==> exists i :: 0 <= i < |shown| && Opened(commits, shown[i])
                        && shown[i].peer == x.validator && shown[i].payload == Some(x.scores)
  {
    CollectMembers(OpenTask(commits), shown, x);
    if i :| 0 <= i < |shown| && OpenTask(commits)(shown[i]) == Some(x) { assert Opened(commits, shown[i]); }
    if i :| 0 <= i < |shown| && Opened(commits, shown[i])
            && shown[i].peer == x.validator && shown[i].payload == Some(x.scores) {
      assert OpenTask(commits)(shown[i]) == Some(x);
    }
  }

  lemma {:induction false} RoundsDistinct(commits: Commits, shown: seq<Reveal<seq<Score>>>)
    requires OnePerPeer(shown)
    ensures DistinctValidators(Rounds(commits, shown))
  {
    if shown != [] {
      var n := |shown| - 1;
      RoundsDistinct(commits, shown[..n]);
      var rest := Rounds(commits, shown[..n]);
      forall i | 0 <= i < |rest| ensures rest[i].validator != shown[n].peer {
        assert rest[i] in rest;
        RoundCountsIff(commits, shown[..n], rest[i]);
      }
    }
  }

  method OpenTasks(commits: Commits, shown: seq<Reveal<seq<Score>>>) returns (rounds: seq<Round>)
    ensures rounds == Rounds(commits, shown)
  {
    rounds := [];
    for k := 0 to |shown|
      invariant rounds == Rounds(commits, shown[..k])
    {
      CollectPush(OpenTask(commits), shown, k);
      var r := shown[k];
      if r.key !in commits || commits[r.key] != r.digest || r.payload.None? { continue; }
      rounds := rounds + [Round(r.peer, r.payload.value)];
    }
    assert shown[..|shown|] == shown;
  }

  // ---------------------------------------------------------------- score reveals

  /** The id of the first included node of the peer. */
  function NodeIdOf(peer: PeerId, included: seq<NodeInfo>): (r: Option<nat>) {
    if included == [] then None
    else if included[0].peer == peer then Some(included[0].nodeId)
    else NodeIdOf(peer, included[1..])
  }

  predicate Attested(data: ConsensusData, id: Option<nat>) {
    id.Some? && exists i :: 0 <= i < |data.attests| && id.value in data.attests[i]
  }

  /**
   * A revealed list earns its overlap with the list on chain, if its node attested that list and had
   * committed to its own.
   */
  function OpenScores(commits: Commits, data: ConsensusData, included: seq<NodeInfo>)
    : (f: Reveal<seq<NodeScore>> -> Option<PeerScore>)
  {
    (r: Reveal<seq<NodeScore>>) =>
      if Attested(data, NodeIdOf(r.peer, included)) && Opened(commits, r)
      then Some(PeerScore(r.peer, Scaled(Compare(r.payload.value, data.scores)))) else None
  }

  function Revealed(commits: Commits, shown: seq<Reveal<seq<NodeScore>>>, data: ConsensusData, included: seq<NodeInfo>)
    : (r: seq<PeerScore>)
  {
    Collect(OpenScores(commits, data, included), shown)
  }

  /** Too few nodes attested for the list to count. */
  predicate TooFew(data: ConsensusData)
    requires data.nodes > 0
  {
    |data.attests| as real / data.nodes as real < 0.66
  }

  /** The scores earned by revealing the list committed two epochs ago. */
  function ScoreReveals(v: View): (r: Outcome<seq<PeerScore>>) {
    if v.scoreReveals.None? && v.scoreCommits.None? then Nothing
    else if v.data.None? then Nothing
    else if v.data.value.nodes == 0 then Raises
    else if TooFew(v.data.value) then Nothing
    else if v.scoreReveals.None? then Raises
    else Result(Revealed(OrEmpty(v.scoreCommits), v.scoreReveals.value, v.data.value, v.included))
  }

  ghost predicate Earns(commits: Commits, r: Reveal<seq<NodeScore>>, data: ConsensusData, included: seq<NodeInfo>,
                        x: PeerScore)
  {
    && r.peer == x.peer && Opened(commits, r) && Attested(data, NodeIdOf(r.peer, included))
    && x.score == Scaled(Compare(r.payload.value, data.scores))
  }

  lemma {:induction false} RevealedIff(commits: Commits, shown: seq<Reveal<seq<NodeScore>>>, data: ConsensusData,
                                       included: seq<NodeInfo>, x: PeerScore)
    ensures x in Revealed(commits, shown, data, included)
       <==> exists i :: 0 <= i < |shown| && Earns(commits, shown[i], data, included, x)
  {
    var f := OpenScores(commits, data, included);
    CollectMembers(f, shown, x);
    if i :| 0 <= i < |shown| && f(shown[i]) == Some(x) { assert Earns(commits, shown[i], data, included, x); }
    if i :| 0 <= i < |shown| && Earns(commits, shown[i], data, included, x) { assert f(shown[i]) == Some(x); }
  }

  /**
   * A revealed list earns a full score exactly if it equals the list on chain and is not empty; two
   * empty lists earn a hundred times as much.
   */
  lemma {:induction false} FullRevealIff(mine: seq<NodeScore>, theirs: seq<NodeScore>)
    ensures Scaled(Compare(mine, theirs)) == 1000000000000000000 <==> Members(mine) == Members(theirs) && mine != []
    ensures Scaled(Compare(mine, theirs)) > 1000000000000000000 <==> mine == [] && theirs == []
  {
    AttestsIff(mine, theirs);
    var c := Compare(mine, theirs);
    assert mine != [] ==> mine[0] in Members(mine);
    assert theirs != [] ==> theirs[0] in Members(theirs);
    assert Members(mine) + Members(theirs) == {} <==> mine == [] && theirs == [];
    ScaledWhole(c);
  }

  lemma {:induction false} ScaledWhole(c: real)
    requires c <= 1.0 || c == 100.0
    ensures Scaled(c) == 1000000000000000000 <==> c == 1.0
    ensures Scaled(c) > 1000000000000000000 <==> c == 100.0
  {
    if c < 1.0 { assert c * 1000000000000000000.0 < 1000000000000000000.0; }
  }

  lemma {:induction false} RevealedDistinct(commits: Commits, shown: seq<Reveal<seq<NodeScore>>>, data: ConsensusData,
                                            included: seq<NodeInfo>)
    requires OnePerPeer(shown)
    ensures DistinctPeers(Revealed(commits, shown, data, included))
  {
    if shown != [] {
      var n := |shown| - 1;
      RevealedDistinct(commits, shown[..n], data, included);
      var rest := Revealed(commits, shown[..n], data, included);
      forall i | 0 <= i < |rest| ensures rest[i].peer != shown[n].peer {
        assert rest[i] in rest;
        RevealedIff(commits, shown[..n], data, included, rest[i]);
      }
    }
  }

  method VerifyScoreReveals(v: View) returns (r: Outcome<seq<PeerScore>>)
    ensures r == ScoreReveals(v)
  {
    if v.scoreReveals.None? && v.scoreCommits.None? { return Nothing; }
    if v.data.None? { return Nothing; }
    var data := v.data.value;
    if data.nodes == 0 { return Raises; }
    if |data.attests| as real / data.nodes as real < 0.66 { return Nothing; }
    if v.scoreReveals.None? { return Raises; }
    var commits, shown := OrEmpty(v.scoreCommits), v.scoreReveals.value;
    var final: seq<PeerScore> := [];
    for k := 0 to |shown|
      invariant final == Revealed(commits, shown[..k], data, v.included)
    {
      CollectPush(OpenScores(commits, data, v.included), shown, k);
      var x := shown[k];
      if !Attested(data, NodeIdOf(x.peer, v.included)) { continue; }
      if x.key !in commits || commits[x.key] != x.digest || x.payload.None? { continue; }
      final := final + [PeerScore(x.peer, Scaled(Compare(x.payload.value, data.scores)))];
    }
    assert shown[..|shown|] == shown;
    return Result(final);
  }

  // ---------------------------------------------------------------- the list for the chain

  function ScoreOf(scores: map<PeerId, int>): (f: Round -> Option<PeerScore>) {
    (x: Round) => if x.validator in scores then Some(PeerScore(x.validator, scores[x.validator])) else None
  }

  /** The scores of the validators in the order in which their reveals were visited. */
  function Listed(rounds: seq<Round>, scores: map<PeerId, int>): (r: seq<PeerScore>) {
    Collect(ScoreOf(scores), rounds)
  }

  lemma {:induction false} ListedDistinct(rounds: seq<Round>, scores: map<PeerId, int>)
    requires DistinctValidators(rounds)
    ensures DistinctPeers(Listed(rounds, scores))
  {
    if rounds != [] {
      var n := |rounds| - 1;
      ListedDistinct(rounds[..n], scores);
      var rest := Listed(rounds[..n], scores);
      forall i | 0 <= i < |rest| ensures rest[i].peer != rounds[n].validator {
        assert rest[i] in rest;
        CollectMembers(ScoreOf(scores), rounds[..n], rest[i]);
      }
    }
  }

  function Final(v: View, list: seq<PeerScore>): (r: Outcome<seq<NodeScore>>) {
    match ScoreReveals(v)
    case Raises => Raises
    case Nothing => Result(FinalScores(list, [], v.included))
    case Result(revealed) => Result(FinalScores(list, revealed, v.included))
  }

  function TaskRounds(v: View): (r: seq<Round>)
    requires v.taskReveals.Some?
  {
    Rounds(OrEmpty(v.taskCommits), v.taskReveals.value)
  }

  /** What the node ends up with, given the scores of the validators it sees. */
  ghost predicate Submits(v: View, scores: map<PeerId, int>, r: Outcome<seq<NodeScore>>) {
    if v.taskReveals.None? then r == (if v.taskCommits.None? then Nothing else Raises)
    else ScoredBy(TaskRounds(v), scores) && r == Final(v, Listed(TaskRounds(v), scores))
  }

  ghost predicate Proper(v: View) {
    && (v.taskReveals.Some? ==> OnePerPeer(v.taskReveals.value))
    && (v.scoreReveals.Some? ==> OnePerPeer(v.scoreReveals.value))
  }

  method VerifyAndScorePeers(v: View) returns (r: Outcome<seq<NodeScore>>, scores: map<PeerId, int>)
    requires Proper(v)
    ensures Submits(v, scores, r)
  {
    scores := map[];
    if v.taskReveals.None? {
      r := if v.taskCommits.None? then Nothing else Raises;
      return;
    }
    var rounds := OpenTasks(OrEmpty(v.taskCommits), v.taskReveals.value);
    RoundsDistinct(OrEmpty(v.taskCommits), v.taskReveals.value);
    scores := ScoreValidators(rounds);
    var list: seq<PeerScore> := [];
    for k := 0 to |rounds|
      invariant list == Listed(rounds[..k], scores)
    {
      CollectPush(ScoreOf(scores), rounds, k);
      list := list + [PeerScore(rounds[k].validator, scores[rounds[k].validator])];
    }
    assert rounds[..|rounds|] == rounds;
    var formatted := FromPeers(list, v.included);
    var shown := VerifyScoreReveals(v);
    if shown.Raises? { return Raises, scores; }
    if shown.Nothing? || shown.value == [] { return Result(formatted), scores; }
    var averaged := AverageConsensusScores(formatted + FromPeers(shown.value, v.included));
    return Result(FilterNodes(averaged, v.included)), scores;
  }

  // ---------------------------------------------------------------- agreement between nodes

  ghost predicate SameReveals<T>(a: Option<seq<Reveal<T>>>, b: Option<seq<Reveal<T>>>) {
    && (a.Some? <==> b.Some?)
    && (a.Some? ==> multiset(a.value) == multiset(b.value))
  }

  /** The nodes see the same records, in whatever order, and the same chain. */
  ghost predicate SameRecords(v: View, w: View) {
    && v.taskCommits == w.taskCommits && SameReveals(v.taskReveals, w.taskReveals)
    && v.scoreCommits == w.scoreCommits && SameReveals(v.scoreReveals, w.scoreReveals)
    && v.data == w.data && v.included == w.included
  }

  lemma {:induction false} SameLists(v: View, w: View, s: map<PeerId, int>, t: map<PeerId, int>)
    requires SameRecords(v, w) && Proper(v) && Proper(w) && v.taskReveals.Some?
    requires ScoredBy(TaskRounds(v), s) && ScoredBy(TaskRounds(w), t)
    ensures s == t
    ensures var a, b := Listed(TaskRounds(v), s), Listed(TaskRounds(w), t);
            multiset(a) == multiset(b) && DistinctPeers(a) && DistinctPeers(b)
  {
    var commits := OrEmpty(v.taskCommits);
    CollectPermutation(OpenTask(commits), v.taskReveals.value, w.taskReveals.value);
    OrderIndependent(TaskRounds(v), TaskRounds(w), s, t);
    CollectPermutation(ScoreOf(s), TaskRounds(v), TaskRounds(w));
    RoundsDistinct(commits, v.taskReveals.value);
    RoundsDistinct(commits, w.taskReveals.value);
    ListedDistinct(TaskRounds(v), s);
    ListedDistinct(TaskRounds(w), t);
  }

  lemma {:induction false} SameReveal(v: View, w: View)
    requires SameRecords(v, w) && Proper(v) && Proper(w)
    ensures var a, b := ScoreReveals(v), ScoreReveals(w);
            && (a.Result? <==> b.Result?) && (a.Raises? <==> b.Raises?)
            && (a.Result? ==>
                  multiset(a.value) == multiset(b.value) && DistinctPeers(a.value) && DistinctPeers(b.value))
  {
    if ScoreReveals(v).Result? {
      var commits, data := OrEmpty(v.scoreCommits), v.data.value;
      CollectPermutation(OpenScores(commits, data, v.included), v.scoreReveals.value, w.scoreReveals.value);
      RevealedDistinct(commits, v.scoreReveals.value, data, v.included);
      RevealedDistinct(commits, w.scoreReveals.value, data, v.included);
    }
  }

  /**
   * Two nodes that see the same records, visited in different orders, come to the same outcome: the same
   * list, entry by entry, and they attest each other's list unless it is empty.
   */
  lemma {:induction false} SameRecordsSameList(v: View, w: View, s: map<PeerId, int>, t: map<PeerId, int>,
                                               a: Outcome<seq<NodeScore>>, b: Outcome<seq<NodeScore>>)
    requires SameRecords(v, w) && Proper(v) && Proper(w) && Submits(v, s, a) && Submits(w, t, b)
    ensures a == b
    ensures a.Result? && a.value != [] ==> Compare(a.value, b.value) == 1.0
  {
    if v.taskReveals.Some? {
      SameLists(v, w, s, t);
      SameReveal(v, w);
      var x, y := Listed(TaskRounds(v), s), Listed(TaskRounds(w), t);
      var rx, ry := ScoreReveals(v), ScoreReveals(w);
      if rx.Result? { SameScoresSameList(x, y, rx.value, ry.value, v.included); }
      else { SameScoresSameList(x, y, [], [], v.included); }
    }
    if a.Result? { AttestsIff(a.value, a.value); }
  }
}
