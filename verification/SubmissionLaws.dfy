/** The list for the chain told from the records: who is in it, and with which score. */
module SubmissionLaws {
  import opened Basics
  import opened Scoring
  import opened ConsensusScores
  import opened Submission

  // ---------------------------------------------------------------- outcomes

  /** At least 66 of 100 nodes attested the list of two epochs ago. */
  ghost predicate InConsensus(data: ConsensusData) {
    data.nodes > 0 && 100 * |data.attests| >= 66 * data.nodes
  }

  lemma {:induction false} RatioIff(data: ConsensusData)
    requires data.nodes > 0
    ensures TooFew(data) <==> !InConsensus(data)
  {
    var a, n := |data.attests| as real, data.nodes as real;
    var q := a / n;
    assert q * n == a;
    assert q < 0.66 ==> q * n < 0.66 * n;
    assert q >= 0.66 ==> q * n >= 0.66 * n;
  }

  /** There are score records, and the chain knows a list that is in consensus. */
  ghost predicate ScoresCount(v: View) {
    (v.scoreReveals.Some? || v.scoreCommits.Some?) && v.data.Some? && InConsensus(v.data.value)
  }

  /** Dividing by the number of nodes fails, or commits are there without reveals. */
  ghost predicate ScoresRaise(v: View) {
    || ((v.scoreReveals.Some? || v.scoreCommits.Some?) && v.data.Some? && v.data.value.nodes == 0)
    || (ScoresCount(v) && v.scoreReveals.None?)
  }

  /** When there is nothing to submit, an exception or a list. */
  lemma {:induction false} OutcomeIff(v: View, scores: map<PeerId, int>, r: Outcome<seq<NodeScore>>)
    requires Submits(v, scores, r)
    ensures r.Nothing? <==> v.taskReveals.None? && v.taskCommits.None?
    ensures r.Raises? <==> if v.taskReveals.None? then v.taskCommits.Some? else ScoresRaise(v)
  {
    if v.data.Some? && v.data.value.nodes > 0 { RatioIff(v.data.value); }
  }

  // ---------------------------------------------------------------- who has which score

  /** The reveal is stored under a key with a commit, whose digest it has, and can be read. */
  ghost predicate Matches<T>(commits: Option<Commits>, x: Reveal<T>) {
    commits.Some? && x.key in commits.value && commits.value[x.key] == x.digest && x.payload.Some?
  }

  /** The peer revealed scores that match its commit. */
  ghost predicate Scores(v: View, p: PeerId) {
    && v.taskReveals.Some?
    && exists i :: 0 <= i < |v.taskReveals.value| && v.taskReveals.value[i].peer == p
                   && Matches(v.taskCommits, v.taskReveals.value[i])
  }

  /** The first included node of the peer attested. */
  ghost predicate Attests(data: ConsensusData, included: seq<NodeInfo>, p: PeerId) {
    exists j :: FirstNode(included, p, j) && InSome(data.attests, included[j].nodeId)
  }

  ghost predicate FirstNode(included: seq<NodeInfo>, p: PeerId, j: int) {
    0 <= j < |included| && included[j].peer == p && forall i :: 0 <= i < j ==> included[i].peer != p
  }

  ghost predicate InSome(attests: seq<set<nat>>, id: nat) {
    exists a :: 0 <= a < |attests| && id in attests[a]
  }

  lemma {:induction false} NodeIdIs(p: PeerId, included: seq<NodeInfo>)
    ensures NodeIdOf(p, included).Some? <==> exists j :: FirstNode(included, p, j)
    ensures forall j :: FirstNode(included, p, j) ==> NodeIdOf(p, included) == Some(included[j].nodeId)
  {
    if included != [] {
      if included[0].peer == p {
        assert FirstNode(included, p, 0);
      } else {
        NodeIdIs(p, included[1..]);
        forall j ensures FirstNode(included, p, j) <==> FirstNode(included[1..], p, j - 1) {
          FirstNodeShift(included, p, j);
        }
        if NodeIdOf(p, included[1..]).Some? {
          var k :| FirstNode(included[1..], p, k);
          assert FirstNode(included, p, k + 1);
        }
      }
    }
  }

  lemma {:induction false} FirstNodeShift(included: seq<NodeInfo>, p: PeerId, j: int)
    requires included != [] && included[0].peer != p
    ensures FirstNode(included, p, j) <==> FirstNode(included[1..], p, j - 1)
  {
    var rest := included[1..];
    assert forall i :: 0 <= i < |rest| ==> rest[i] == included[i + 1];
    if FirstNode(rest, p, j - 1) {
      forall i | 0 <= i < j ensures included[i].peer != p { assert i > 0 ==> rest[i - 1] == included[i]; }
    }
  }

  lemma {:induction false} AttestedIff(data: ConsensusData, included: seq<NodeInfo>, p: PeerId)
    ensures Attested(data, NodeIdOf(p, included)) <==> Attests(data, included, p)
  {
    NodeIdIs(p, included);
    var id := NodeIdOf(p, included);
    if Attested(data, id) {
      var j :| FirstNode(included, p, j);
      assert InSome(data.attests, included[j].nodeId);
    }
    if Attests(data, included, p) {
      var j :| FirstNode(included, p, j) && InSome(data.attests, included[j].nodeId);
      assert id == Some(included[j].nodeId);
    }
  }

  /**
   * The peer attested the list of two epochs ago and revealed a list that matches its commit; the score is
   * its overlap with the list on chain.
   */
  ghost predicate EarnsForReveal(v: View, p: PeerId, score: int) {
    && ScoresCount(v) && v.scoreReveals.Some? && Attests(v.data.value, v.included, p)
    && exists i :: 0 <= i < |v.scoreReveals.value| && RevealEarns(v, v.scoreReveals.value[i], p, score)
  }

  ghost predicate RevealEarns(v: View, x: Reveal<seq<NodeScore>>, p: PeerId, score: int)
    requires v.data.Some?
  {
    x.peer == p && Matches(v.scoreCommits, x) && score == Scaled(Compare(x.payload.value, v.data.value.scores))
  }

  // ---------------------------------------------------------------- the lists behind it

  lemma {:induction false} MatchesIff<T>(commits: Option<Commits>, x: Reveal<T>)
    ensures Matches(commits, x) <==> Opened(OrEmpty(commits), x)
  {
  }

  lemma {:induction false} ListedPeers(v: View, scores: map<PeerId, int>, p: PeerId)
    requires Proper(v) && v.taskReveals.Some? && ScoredBy(TaskRounds(v), scores)
    ensures var list := Listed(TaskRounds(v), scores);
            && DistinctPeers(list) && (HasPeer(list, p) <==> Scores(v, p))
            && (forall i :: 0 <= i < |list| && list[i].peer == p ==> p in scores && list[i].score == scores[p])
  {
    var rounds, list := TaskRounds(v), Listed(TaskRounds(v), scores);
    RoundsDistinct(OrEmpty(v.taskCommits), v.taskReveals.value);
    ListedDistinct(rounds, scores);
    forall i | 0 <= i < |list| ensures ListedFrom(v, scores, list[i]) { ListedIs(v, scores, list[i]); }
    if Scores(v, p) {
      var i :| 0 <= i < |v.taskReveals.value| && v.taskReveals.value[i].peer == p
               && Matches(v.taskCommits, v.taskReveals.value[i]);
      var x := PeerScore(p, ScoreIn(scores, p));
      ScoresListed(v, scores, i);
      var k :| 0 <= k < |list| && list[k] == x;
    }
  }

  ghost function ScoreIn(scores: map<PeerId, int>, p: PeerId): (s: int) {
    if p in scores then scores[p] else 0
  }

  ghost predicate ListedFrom(v: View, scores: map<PeerId, int>, x: PeerScore) {
    x.peer in scores && x.score == scores[x.peer] && Scores(v, x.peer)
  }

  lemma {:induction false} ListedIs(v: View, scores: map<PeerId, int>, x: PeerScore)
    requires v.taskReveals.Some? && x in Listed(TaskRounds(v), scores)
    ensures ListedFrom(v, scores, x)
  {
    var rounds := TaskRounds(v);
    CollectMembers(ScoreOf(scores), rounds, x);
    var i :| 0 <= i < |rounds| && ScoreOf(scores)(rounds[i]) == Some(x);
    assert rounds[i] in rounds;
    RoundCountsIff(OrEmpty(v.taskCommits), v.taskReveals.value, rounds[i]);
    var k :| 0 <= k < |v.taskReveals.value| && Opened(OrEmpty(v.taskCommits), v.taskReveals.value[k])
             && v.taskReveals.value[k].peer == x.peer;
    MatchesIff(v.taskCommits, v.taskReveals.value[k]);
  }

  lemma {:induction false} ScoresListed(v: View, scores: map<PeerId, int>, i: nat)
    requires v.taskReveals.Some? && ScoredBy(TaskRounds(v), scores) && i < |v.taskReveals.value|
    requires Matches(v.taskCommits, v.taskReveals.value[i])
    ensures var p := v.taskReveals.value[i].peer;
            p in scores && PeerScore(p, ScoreIn(scores, p)) in Listed(TaskRounds(v), scores)
  {
    var x, rounds := v.taskReveals.value[i], TaskRounds(v);
    MatchesIff(v.taskCommits, x);
    RoundCountsIff(OrEmpty(v.taskCommits), v.taskReveals.value, Round(x.peer, x.payload.value));
    var k :| 0 <= k < |rounds| && rounds[k] == Round(x.peer, x.payload.value);
    assert rounds[k].validator == x.peer;
    CollectMembers(ScoreOf(scores), rounds, PeerScore(x.peer, ScoreIn(scores, x.peer)));
    assert ScoreOf(scores)(rounds[k]) == Some(PeerScore(x.peer, ScoreIn(scores, x.peer)));
  }

  /** The scores for revealing, as far as there are any. */
  ghost function RevealList(v: View): (r: seq<PeerScore>) {
    match ScoreReveals(v)
    case Result(list) => list
    case _ => []
  }

  lemma {:induction false} RevealedPeers(v: View, p: PeerId)
    requires Proper(v)
    ensures var list := RevealList(v);
            && DistinctPeers(list) && (HasPeer(list, p) <==> exists s :: EarnsForReveal(v, p, s))
            && (forall i :: 0 <= i < |list| && list[i].peer == p ==> EarnsForReveal(v, p, list[i].score))
  {
    var list := RevealList(v);
    if v.data.Some? && v.data.value.nodes > 0 { RatioIff(v.data.value); }
    if ScoreReveals(v).Result? {
      RevealedDistinct(OrEmpty(v.scoreCommits), v.scoreReveals.value, v.data.value, v.included);
      forall i | 0 <= i < |list| ensures EarnsForReveal(v, list[i].peer, list[i].score) { RevealIs(v, list[i]); }
    }
    if s :| EarnsForReveal(v, p, s) {
      RevealListed(v, p, s);
      var k :| 0 <= k < |list| && list[k] == PeerScore(p, s);
    }
  }

  lemma {:induction false} RevealIs(v: View, x: PeerScore)
    requires ScoreReveals(v).Result? && x in RevealList(v)
    ensures EarnsForReveal(v, x.peer, x.score)
  {
    var commits, shown, data := OrEmpty(v.scoreCommits), v.scoreReveals.value, v.data.value;
    RatioIff(data);
    RevealedIff(commits, shown, data, v.included, x);
    var i :| 0 <= i < |shown| && Earns(commits, shown[i], data, v.included, x);
    MatchesIff(v.scoreCommits, shown[i]);
    AttestedIff(data, v.included, x.peer);
    assert RevealEarns(v, shown[i], x.peer, x.score);
  }

  lemma {:induction false} RevealListed(v: View, p: PeerId, score: int)
    requires EarnsForReveal(v, p, score)
    ensures ScoreReveals(v).Result? && PeerScore(p, score) in RevealList(v)
  {
    var commits, shown, data := OrEmpty(v.scoreCommits), v.scoreReveals.value, v.data.value;
    RatioIff(data);
    var i :| 0 <= i < |shown| && RevealEarns(v, shown[i], p, score);
    MatchesIff(v.scoreCommits, shown[i]);
    AttestedIff(data, v.included, p);
    assert Earns(commits, shown[i], data, v.included, PeerScore(p, score));
    RevealedIff(commits, shown, data, v.included, PeerScore(p, score));
  }

  // ---------------------------------------------------------------- entries of a node

  ghost predicate DistinctNodes(included: seq<NodeInfo>) {
    forall i, j :: 0 <= i < j < |included| ==> included[i].nodeId != included[j].nodeId
  }

  lemma {:induction false} CountPush(entries: seq<NodeScore>, x: NodeScore, id: nat)
    ensures CountBy(entries + [x], id) == CountBy(entries, id) + (if x.nodeId == id then 1 else 0)
    ensures SumBy(entries + [x], id) == SumBy(entries, id) + (if x.nodeId == id then x.score else 0)
  {
    assert (entries + [x])[..|entries|] == entries;
  }

  lemma {:induction false} CountConcat(a: seq<NodeScore>, b: seq<NodeScore>, id: nat)
    ensures CountBy(a + b, id) == CountBy(a, id) + CountBy(b, id) && SumBy(a + b, id) == SumBy(a, id) + SumBy(b, id)
  {
    if b == [] {
      assert a + b == a;
    } else {
      var n := |b| - 1;
      CountConcat(a, b[..n], id);
      assert a + b == (a + b[..n]) + [b[n]];
      CountPush(a + b[..n], b[n], id);
    }
  }

  /** The list of peers gives node `j` one entry if its peer has a score, and none otherwise. */
  lemma {:induction false} FormatCounts(scores: seq<PeerScore>, included: seq<NodeInfo>, k: nat, j: nat)
    requires DistinctNodes(included) && k <= |included| && j < |included|
    ensures var r, node := Format(scores, ScoreMap(scores, included), included, k), included[j];
            var here := j < k && HasPeer(scores, node.peer);
            && (here ==> node.peer in ScoreMap(scores, included))
            && CountBy(r, node.nodeId) == (if here then 1 else 0)
            && SumBy(r, node.nodeId) == if here then ScoreMap(scores, included)[node.peer] else 0
  {
    ScoreMapKeys(scores, included, included[j].peer);
    assert Included(included, included[j].peer);
    if k > 0 {
      var last, m := included[k - 1], ScoreMap(scores, included);
      FormatCounts(scores, included, k - 1, j);
      ScoreMapKeys(scores, included, last.peer);
      assert Included(included, last.peer);
      if HasPeer(scores, last.peer) {
        CountPush(Format(scores, m, included, k - 1), NodeScore(last.nodeId, m[last.peer]), included[j].nodeId);
      }
      assert j != k - 1 ==> last.nodeId != included[j].nodeId;
    }
  }

  lemma {:induction false} ScoreMapHas(scores: seq<PeerScore>, included: seq<NodeInfo>, p: PeerId, s: int)
    requires DistinctPeers(scores) && HasPeer(scores, p) && p in ScoreMap(scores, included)
    requires forall i :: 0 <= i < |scores| && scores[i].peer == p ==> scores[i].score == s
    ensures ScoreMap(scores, included)[p] == s
  {
    var i :| 0 <= i < |scores| && scores[i].peer == p;
    ScoreMapLooksUp(scores, included, i);
  }

  /** An entry lists its node exactly once. */
  ghost predicate OnlyEntry(list: seq<NodeScore>, id: nat, count: nat, sum: int) {
    && ((exists i :: 0 <= i < |list| && list[i].nodeId == id) <==> count > 0)
    && (forall i, j :: 0 <= i < j < |list| && list[i].nodeId == id ==> list[j].nodeId != id)
    && (forall i :: 0 <= i < |list| && list[i].nodeId == id ==>
          count * list[i].score <= sum < count * list[i].score + count)
  }

  lemma {:induction false} AveragedEntry(entries: seq<NodeScore>, id: nat)
    ensures OnlyEntry(Averaged(entries), id, CountBy(entries, id), SumBy(entries, id))
  {
    FirstSeenListsAll(entries);
    var list, ids := Averaged(entries), FirstSeen(entries);
    assert forall i :: 0 <= i < |list| ==> list[i].nodeId == ids[i];
    if CountBy(entries, id) > 0 {
      assert id in ids;
      var i :| 0 <= i < |ids| && ids[i] == id;
      assert list[i].nodeId == id;
    }
    forall i | 0 <= i < |list| && list[i].nodeId == id
      ensures CountBy(entries, id) > 0
      ensures CountBy(entries, id) * list[i].score <= SumBy(entries, id)
              < CountBy(entries, id) * list[i].score + CountBy(entries, id)
    {
      AveragedMeaning(entries, i);
    }
  }

  /** A list in which a node has at most one entry is its own average. */
  lemma {:induction false} SingleEntry(list: seq<NodeScore>, id: nat, count: nat, sum: int)
    requires count == CountBy(list, id) <= 1 && sum == SumBy(list, id)
    ensures OnlyEntry(list, id, count, sum)
  {
    if list != [] {
      var n := |list| - 1;
      var rest, x := list[..n], list[n];
      assert list == rest + [x];
      if x.nodeId == id {
        NoEntriesNoSum(rest, id);
        SingleEntry(rest, id, 0, 0);
        FirstEntry(rest, x);
      } else {
        SingleEntry(rest, id, count, sum);
        OtherEntry(rest, x, id, count, sum);
      }
    }
  }

  lemma {:induction false} FirstEntry(list: seq<NodeScore>, x: NodeScore)
    requires OnlyEntry(list, x.nodeId, 0, 0)
    ensures OnlyEntry(list + [x], x.nodeId, 1, x.score)
  {
    var r := list + [x];
    assert forall i :: 0 <= i < |list| ==> r[i] == list[i];
    assert r[|list|] == x;
  }

  lemma {:induction false} OtherEntry(list: seq<NodeScore>, x: NodeScore, id: nat, count: nat, sum: int)
    requires OnlyEntry(list, id, count, sum) && x.nodeId != id
    ensures OnlyEntry(list + [x], id, count, sum)
  {
    var r := list + [x];
    assert forall i :: 0 <= i < |list| ==> r[i] == list[i];
    if i :| 0 <= i < |list| && list[i].nodeId == id { assert r[i].nodeId == id; }
  }

  // ---------------------------------------------------------------- the list for the chain

  ghost predicate EarnsAny(v: View, p: PeerId) {
    exists s :: EarnsForReveal(v, p, s)
  }

  /** A node's entries in both formatted lists together. */
  lemma {:induction false} NodeCounts(v: View, scores: map<PeerId, int>, j: nat, s: int)
    requires Proper(v) && v.taskReveals.Some? && ScoredBy(TaskRounds(v), scores)
    requires DistinctNodes(v.included) && j < |v.included|
    requires EarnsAny(v, v.included[j].peer) ==> EarnsForReveal(v, v.included[j].peer, s)
    ensures var p, id := v.included[j].peer, v.included[j].nodeId;
            var own := FromPeers(Listed(TaskRounds(v), scores), v.included);
            var earned := FromPeers(RevealList(v), v.included);
            && CountBy(own, id) == (if Scores(v, p) then 1 else 0)
            && SumBy(own, id) == (if Scores(v, p) then ScoreIn(scores, p) else 0)
            && CountBy(earned, id) == (if EarnsAny(v, p) then 1 else 0)
            && SumBy(earned, id) == if EarnsAny(v, p) then s else 0
  {
    var p, list, revealed := v.included[j].peer, Listed(TaskRounds(v), scores), RevealList(v);
    ListedPeers(v, scores, p);
    RevealedPeers(v, p);
    FormatCounts(list, v.included, |v.included|, j);
    FormatCounts(revealed, v.included, |v.included|, j);
    if HasPeer(list, p) { ScoreMapHas(list, v.included, p, ScoreIn(scores, p)); }
    if HasPeer(revealed, p) {
      forall i | 0 <= i < |revealed| && revealed[i].peer == p ensures revealed[i].score == s {
        SameReveal(v, p, revealed[i].score, s);
      }
      ScoreMapHas(revealed, v.included, p, s);
    }
  }

  /** A peer earns one score for revealing, because there is one reveal per peer. */
  lemma {:induction false} SameReveal(v: View, p: PeerId, s: int, s': int)
    requires Proper(v) && EarnsForReveal(v, p, s) && EarnsForReveal(v, p, s')
    ensures s == s'
  {
    var shown := v.scoreReveals.value;
    var i :| 0 <= i < |shown| && RevealEarns(v, shown[i], p, s);
    var k :| 0 <= k < |shown| && RevealEarns(v, shown[k], p, s');
  }

  /**
   * The list for the chain has an entry for an included node exactly if its peer revealed matching scores or
   * earns a score for revealing its list of two epochs ago, and only one. Its score is the one of these
   * that there is, or their mean rounded down.
   */
  lemma {:induction false} SubmittedScore(v: View, scores: map<PeerId, int>, r: Outcome<seq<NodeScore>>, j: nat, s: int)
    requires Submits(v, scores, r) && Proper(v) && r.Result? && DistinctNodes(v.included) && j < |v.included|
    requires EarnsAny(v, v.included[j].peer) ==> EarnsForReveal(v, v.included[j].peer, s)
    ensures var p := v.included[j].peer;
            var count := (if Scores(v, p) then 1 else 0) + (if EarnsAny(v, p) then 1 else 0);
            var sum := (if Scores(v, p) then ScoreIn(scores, p) else 0) + (if EarnsAny(v, p) then s else 0);
            OnlyEntry(r.value, v.included[j].nodeId, count, sum)
  {
    var id := v.included[j].nodeId;
    var own, earned := FromPeers(Listed(TaskRounds(v), scores), v.included), FromPeers(RevealList(v), v.included);
    NodeCounts(v, scores, j, s);
    if RevealList(v) == [] {
      assert earned == [] by { NothingFormatted(v.included, |v.included|); }
      SingleEntry(own, id, CountBy(own, id), SumBy(own, id));
    } else {
      FilterIsIdle(Listed(TaskRounds(v), scores), RevealList(v), v.included);
      CountConcat(own, earned, id);
      AveragedEntry(own + earned, id);
    }
  }

  lemma {:induction false} NothingFormatted(included: seq<NodeInfo>, k: nat)
    requires k <= |included|
    ensures Format([], ScoreMap([], included), included, k) == []
  {
    if k > 0 { NothingFormatted(included, k - 1); }
  }

  /** And nobody else is in it. */
  lemma {:induction false} OnlyIncluded(v: View, scores: map<PeerId, int>, r: Outcome<seq<NodeScore>>, i: nat)
    requires Submits(v, scores, r) && r.Result? && i < |r.value|
    ensures HasNode(v.included, r.value[i].nodeId)
  {
    var list, revealed := Listed(TaskRounds(v), scores), RevealList(v);
    if revealed == [] {
      FormatIncluded(list, v.included, |v.included|, i);
    } else {
      FilteredIncluded(Averaged(FromPeers(list, v.included) + FromPeers(revealed, v.included)), v.included, i);
    }
  }

  lemma {:induction false} FilteredIncluded(scores: seq<NodeScore>, included: seq<NodeInfo>, i: nat)
    requires i < |FilterNodes(scores, included)|
    ensures HasNode(included, FilterNodes(scores, included)[i].nodeId)
  {
    var n := |scores| - 1;
    if i < |FilterNodes(scores[..n], included)| { FilteredIncluded(scores[..n], included, i); }
  }
}
