/** From validators' scores to the list submitted on chain, and the comparison of two such lists. */
module ConsensusScores {
  import opened Basics
  import opened Ranked
  import opened Counting

  datatype NodeInfo = NodeInfo(nodeId: nat, peer: PeerId)
  datatype PeerScore = PeerScore(peer: PeerId, score: int)
  datatype NodeScore = NodeScore(nodeId: nat, score: int)

  // ---------------------------------------------------------------- filtering and formatting

  predicate HasPeer(scores: seq<PeerScore>, p: PeerId) {
    exists i :: 0 <= i < |scores| && scores[i].peer == p
  }

  predicate Included(included: seq<NodeInfo>, p: PeerId) {
    exists i :: 0 <= i < |included| && included[i].peer == p
  }

  /** The dictionary built from the scores of included peers; a later score replaces an earlier one. */
  function ScoreMap(scores: seq<PeerScore>, included: seq<NodeInfo>): (m: map<PeerId, int>) {
    if scores == [] then map[]
    else
      var x := scores[|scores| - 1];
      var m := ScoreMap(scores[..|scores| - 1], included);
      if Included(included, x.peer) then m[x.peer := x.score] else m
  }

  lemma {:induction false} HasPeerPush(scores: seq<PeerScore>, p: PeerId)
    requires scores != []
    ensures HasPeer(scores, p) <==> HasPeer(scores[..|scores| - 1], p) || scores[|scores| - 1].peer == p
  {
    var n := |scores| - 1;
    if HasPeer(scores[..n], p) { var i :| 0 <= i < n && scores[..n][i].peer == p; assert scores[i].peer == p; }
    if HasPeer(scores, p) {
      var i :| 0 <= i < |scores| && scores[i].peer == p;
      assert i < n ==> scores[..n][i].peer == p;
    }
  }

  /** A lookup for an included peer that was scored cannot fail. */
  lemma {:induction false} ScoreMapKeys(scores: seq<PeerScore>, included: seq<NodeInfo>, p: PeerId)
    ensures p in ScoreMap(scores, included) <==> HasPeer(scores, p) && Included(included, p)
  {
    if scores != [] {
      ScoreMapKeys(scores[..|scores| - 1], included, p);
      HasPeerPush(scores, p);
    }
  }

  /** One entry per included node whose peer was scored, in the order of the nodes; the lookup never fails. */
  function FromPeers(scores: seq<PeerScore>, included: seq<NodeInfo>): (r: seq<NodeScore>) {
    Format(scores, ScoreMap(scores, included), included, |included|)
  }

  function Format(scores: seq<PeerScore>, m: map<PeerId, int>, included: seq<NodeInfo>, k: nat): (r: seq<NodeScore>)
    requires k <= |included| && m == ScoreMap(scores, included)
  {
    if k == 0 then []
    else
      var rest := Format(scores, m, included, k - 1);
      var node := included[k - 1];
      ScoreMapKeys(scores, included, node.peer);
      if HasPeer(scores, node.peer) then rest + [NodeScore(node.nodeId, m[node.peer])] else rest
  }

  predicate HasNode(included: seq<NodeInfo>, id: nat) {
    exists i :: 0 <= i < |included| && included[i].nodeId == id
  }

  function FilterNodes(scores: seq<NodeScore>, included: seq<NodeInfo>): (r: seq<NodeScore>) {
    if scores == [] then []
    else
      var rest, last := FilterNodes(scores[..|scores| - 1], included), scores[|scores| - 1];
      if HasNode(included, last.nodeId) then rest + [last] else rest
  }

  // ---------------------------------------------------------------- averaging

  function SumBy(entries: seq<NodeScore>, id: nat): (r: int) {
    if entries == [] then 0
    else
      var last := entries[|entries| - 1];
      SumBy(entries[..|entries| - 1], id) + (if last.nodeId == id then last.score else 0)
  }

  function CountBy(entries: seq<NodeScore>, id: nat): (r: nat) {
    if entries == [] then 0
    else CountBy(entries[..|entries| - 1], id) + (if entries[|entries| - 1].nodeId == id then 1 else 0)
  }

  /** Node ids in the order of their first entry. */
  function FirstSeen(entries: seq<NodeScore>): (r: seq<nat>) {
    if entries == [] then []
    else
      var rest, id := FirstSeen(entries[..|entries| - 1]), entries[|entries| - 1].nodeId;
      if id in rest then rest else rest + [id]
  }

  /** Every node that has an entry is listed exactly once. */
  lemma {:induction false} FirstSeenListsAll(entries: seq<NodeScore>)
    ensures forall id :: id in FirstSeen(entries) <==> CountBy(entries, id) > 0
    ensures forall i, j :: 0 <= i < j < |FirstSeen(entries)| ==> FirstSeen(entries)[i] != FirstSeen(entries)[j]
  {
    if entries != [] { FirstSeenListsAll(entries[..|entries| - 1]); }
  }

  /** The scores collected for a node, as an entry of a dictionary of lists. */
  ghost predicate Aggregated(entries: seq<NodeScore>, lists: map<nat, seq<int>>, id: nat) {
    && (id in lists <==> CountBy(entries, id) > 0)
    && (id in lists ==> |lists[id]| == CountBy(entries, id) && Sum(lists[id]) == SumBy(entries, id))
  }

  ghost predicate Aggregates(entries: seq<NodeScore>, lists: map<nat, seq<int>>) {
    forall id :: Aggregated(entries, lists, id)
  }

  function Sum(xs: seq<int>): (r: int) {
    if xs == [] then 0 else Sum(xs[..|xs| - 1]) + xs[|xs| - 1]
  }

  lemma {:induction false} NoEntriesNoSum(entries: seq<NodeScore>, id: nat)
    requires CountBy(entries, id) == 0
    ensures SumBy(entries, id) == 0
  {
    if entries != [] { NoEntriesNoSum(entries[..|entries| - 1], id); }
  }

  lemma {:induction false} AggregateOne(before: seq<NodeScore>, lists: map<nat, seq<int>>, x: NodeScore)
    requires Aggregates(before, lists)
    ensures Aggregates(before + [x], lists[x.nodeId := (if x.nodeId in lists then lists[x.nodeId] else []) + [x.score]])
  {
    var xs := if x.nodeId in lists then lists[x.nodeId] else [];
    var lists' := lists[x.nodeId := xs + [x.score]];
    assert (before + [x])[..|before|] == before;
    assert (xs + [x.score])[..|xs|] == xs;
    assert Aggregated(before, lists, x.nodeId);
    if x.nodeId !in lists { NoEntriesNoSum(before, x.nodeId); }
    forall id ensures Aggregated(before + [x], lists', id) { assert Aggregated(before, lists, id); }
  }

  /** The mean score of every node that has entries, rounded down, in the order of the first entries. */
  function Averaged(entries: seq<NodeScore>): (r: seq<NodeScore>)
    ensures |r| == |FirstSeen(entries)|
  {
    var ids := FirstSeen(entries);
    seq(|ids|, i requires 0 <= i < |ids| =>
      NodeScore(ids[i], if CountBy(entries, ids[i]) == 0 then 0 else SumBy(entries, ids[i]) / CountBy(entries, ids[i])))
  }

  /** The average of a node is the greatest whole number that its entries can all be lowered to on average. */
  lemma {:induction false} AveragedMeaning(entries: seq<NodeScore>, i: nat)
    requires i < |Averaged(entries)|
    ensures var x := Averaged(entries)[i];
            var n := CountBy(entries, x.nodeId);
            n > 0 && n * x.score <= SumBy(entries, x.nodeId) < n * x.score + n
  {
    FirstSeenListsAll(entries);
    var id := FirstSeen(entries)[i];
    assert id in FirstSeen(entries);
    var s, n := SumBy(entries, id), CountBy(entries, id);
    assert s == n * (s / n) + s % n;
  }

  /** Averages the entries of each node, rounding down. */
  method AverageConsensusScores(entries: seq<NodeScore>) returns (averaged: seq<NodeScore>)
    ensures averaged == Averaged(entries)
  {
    var lists: map<nat, seq<int>> := map[];
    var order: seq<nat> := [];
    for k := 0 to |entries|
      invariant Aggregates(entries[..k], lists) && order == FirstSeen(entries[..k])
    {
      var x := entries[k];
      AggregateOne(entries[..k], lists, x);
      FirstSeenListsAll(entries[..k]);
      assert Aggregated(entries[..k], lists, x.nodeId);
      assert entries[..k + 1] == entries[..k] + [x] && entries[..k + 1][..k] == entries[..k];
      if x.nodeId !in lists { order := order + [x.nodeId]; }
      lists := lists[x.nodeId := (if x.nodeId in lists then lists[x.nodeId] else []) + [x.score]];
    }
    assert entries[..|entries|] == entries;
    FirstSeenListsAll(entries);
    averaged := [];
    for k := 0 to |order|
      invariant averaged == Averaged(entries)[..k]
    {
      assert order[k] in FirstSeen(entries) && Aggregated(entries, lists, order[k]);
      var scores := lists[order[k]];
      averaged := averaged + [NodeScore(order[k], Sum(scores) / |scores|)];
    }
  }

  // ---------------------------------------------------------------- comparing

  /** Overlap of two score lists; two empty lists count as one hundred. */
  function Compare(mine: seq<NodeScore>, theirs: seq<NodeScore>): (accuracy: real)
    ensures Members(mine) + Members(theirs) != {} ==> 0.0 <= accuracy <= 1.0
  {
    var common, all := Members(mine) * Members(theirs), Members(mine) + Members(theirs);
    if all == {} then 100.0
    else
      SubsetSize(common, all);
      assert |all| > 0;
      RatioAtMostOne(|common|, |all|);
      |common| as real / |all| as real
  }

  lemma {:induction false} RatioAtMostOne(a: nat, b: nat)
    requires b > 0 && a <= b
    ensures 0.0 <= a as real / b as real <= 1.0
    ensures a as real / b as real == 1.0 <==> a == b
  {
    var q := a as real / b as real;
    assert q * b as real == a as real;
    assert q < 0.0 ==> q * b as real < 0.0;
    assert q > 1.0 ==> q * b as real > b as real;
    assert q < 1.0 ==> q * b as real < b as real;
  }

  /**
   * A node attests, that is sees an accuracy of exactly one, exactly when both lists have the same
   * entries and some entry.
   */
  lemma {:induction false} AttestsIff(mine: seq<NodeScore>, theirs: seq<NodeScore>)
    ensures Compare(mine, theirs) == 1.0 <==> Members(mine) == Members(theirs) && mine != []
    ensures Compare(mine, theirs) == Compare(theirs, mine)
  {
    var a, b := Members(mine), Members(theirs);
    assert mine != [] ==> mine[0] in a;
    assert theirs != [] ==> theirs[0] in b;
    assert a + b == b + a && a * b == b * a;
    if a + b != {} {
      SubsetSize(a * b, a + b);
      RatioAtMostOne(|a * b|, |a + b|);
      assert a * b == a + b <==> a == b;
    } else {
      assert a == {} && b == {};
    }
  }

  /** The accuracy is the share of the entries of either list that both have. */
  lemma {:induction false} CompareOverlap(mine: seq<NodeScore>, theirs: seq<NodeScore>, common: nat, either: nat)
    requires Distinct(mine) && Distinct(theirs) && mine + theirs != []
    requires common == |Members(mine) * Members(theirs)| && common + either == |mine| + |theirs|
    ensures either > 0 && Compare(mine, theirs) == common as real / either as real
  {
    var a, b := Members(mine), Members(theirs);
    DistinctCount(mine);
    DistinctCount(theirs);
    assert |a + b| == |a| + |b| - |a * b|;
    assert mine != [] ==> mine[0] in a + b;
    assert theirs != [] ==> theirs[0] in a + b;
  }

  lemma {:induction false} AllButOne(mine: seq<NodeScore>, theirs: seq<NodeScore>, i: nat)
    requires |mine| == |theirs| && i < |mine| && Distinct(mine) && mine[i] !in theirs
    requires forall j :: 0 <= j < |mine| && j != i ==> mine[j] == theirs[j]
    ensures |Members(mine) * Members(theirs)| == |mine| - 1
  {
    var a, b := Members(mine), Members(theirs);
    DistinctCount(mine);
    forall x ensures x in a * b <==> x in a - {mine[i]} {
      if x in a && x != mine[i] {
        var j :| 0 <= j < |mine| && mine[j] == x;
        assert theirs[j] in b;
      }
    }
    assert a * b == a - {mine[i]};
    assert mine[i] in a;
  }

  /** Two lists of `n` entries that differ in one of them agree to `n - 1` parts in `n + 1`. */
  lemma {:induction false} OneDifference(mine: seq<NodeScore>, theirs: seq<NodeScore>, i: nat)
    requires Distinct(mine) && Distinct(theirs) && |mine| == |theirs| && i < |mine| && mine[i] !in theirs
    requires forall j :: 0 <= j < |mine| && j != i ==> mine[j] == theirs[j]
    ensures Compare(mine, theirs) == (|mine| - 1) as real / (|mine| + 1) as real
  {
    AllButOne(mine, theirs, i);
    CompareOverlap(mine, theirs, |mine| - 1, |mine| + 1);
  }

  // ---------------------------------------------------------------- agreement between nodes

  ghost predicate DistinctPeers(scores: seq<PeerScore>) {
    forall i, j :: 0 <= i < j < |scores| ==> scores[i].peer != scores[j].peer
  }

  /** In a list with distinct peers the dictionary holds exactly the list's scores. */
  lemma {:induction false} ScoreMapLooksUp(scores: seq<PeerScore>, included: seq<NodeInfo>, i: nat)
    requires DistinctPeers(scores) && i < |scores| && scores[i].peer in ScoreMap(scores, included)
    ensures ScoreMap(scores, included)[scores[i].peer] == scores[i].score
  {
    var n := |scores| - 1;
    ScoreMapKeys(scores, included, scores[i].peer);
    if i < n {
      assert scores[..n][i] == scores[i];
      assert HasPeer(scores[..n], scores[i].peer);
      ScoreMapKeys(scores[..n], included, scores[i].peer);
      ScoreMapLooksUp(scores[..n], included, i);
    }
  }

  lemma {:induction false} SameMap(a: seq<PeerScore>, b: seq<PeerScore>, included: seq<NodeInfo>)
    requires multiset(a) == multiset(b) && DistinctPeers(a) && DistinctPeers(b)
    ensures ScoreMap(a, included) == ScoreMap(b, included)
    ensures forall p :: HasPeer(a, p) <==> HasPeer(b, p)
  {
    SameMembers(a, b);
    forall p ensures HasPeer(a, p) <==> HasPeer(b, p) {
      if HasPeer(a, p) { var i :| 0 <= i < |a| && a[i].peer == p; assert a[i] in b; }
      if HasPeer(b, p) { var i :| 0 <= i < |b| && b[i].peer == p; assert b[i] in a; }
    }
    var m, m' := ScoreMap(a, included), ScoreMap(b, included);
    forall p | p in m ensures p in m' && m[p] == m'[p] {
      ScoreMapKeys(a, included, p);
      ScoreMapKeys(b, included, p);
      var i :| 0 <= i < |a| && a[i].peer == p;
      assert a[i] in b;
      var j :| 0 <= j < |b| && b[j] == a[i];
      ScoreMapLooksUp(a, included, i);
      ScoreMapLooksUp(b, included, j);
    }
    forall p | p in m' ensures p in m {
      ScoreMapKeys(a, included, p);
      ScoreMapKeys(b, included, p);
    }
  }

  lemma {:induction false} SameFormat(a: seq<PeerScore>, b: seq<PeerScore>, included: seq<NodeInfo>, k: nat)
    requires multiset(a) == multiset(b) && DistinctPeers(a) && DistinctPeers(b) && k <= |included|
    ensures Format(a, ScoreMap(a, included), included, k) == Format(b, ScoreMap(b, included), included, k)
  {
    SameMap(a, b, included);
    if k > 0 { SameFormat(a, b, included, k - 1); }
  }

  /** A node with this id has a peer with this score. */
  ghost predicate Earned(scores: seq<PeerScore>, included: seq<NodeInfo>, k: nat, x: NodeScore) {
    exists i, j :: 0 <= i < k <= |included| && 0 <= j < |scores|
                   && included[i].nodeId == x.nodeId && included[i].peer == scores[j].peer && scores[j].score == x.score
  }

  /** The formatted list holds exactly the scores of the included nodes' peers, under the nodes' ids. */
  lemma {:induction false} FromPeersLists(scores: seq<PeerScore>, included: seq<NodeInfo>, x: NodeScore)
    requires DistinctPeers(scores)
    ensures x in FromPeers(scores, included) <==> Earned(scores, included, |included|, x)
  {
    FormatLists(scores, included, |included|, x);
  }

  lemma {:induction false} FormatLists(scores: seq<PeerScore>, included: seq<NodeInfo>, k: nat, x: NodeScore)
    requires DistinctPeers(scores) && k <= |included|
    ensures x in Format(scores, ScoreMap(scores, included), included, k) <==> Earned(scores, included, k, x)
  {
    if k > 0 {
      FormatLists(scores, included, k - 1, x);
      var m, node := ScoreMap(scores, included), included[k - 1];
      ScoreMapKeys(scores, included, node.peer);
      assert Included(included, node.peer);
      if Earned(scores, included, k, x) && !Earned(scores, included, k - 1, x) {
        var i, j :| 0 <= i < k && 0 <= j < |scores|
                    && included[i].nodeId == x.nodeId && included[i].peer == scores[j].peer
                    && scores[j].score == x.score;
        assert i == k - 1;
        assert HasPeer(scores, node.peer);
        ScoreMapLooksUp(scores, included, j);
      }
      if HasPeer(scores, node.peer) {
        var j :| 0 <= j < |scores| && scores[j].peer == node.peer;
        ScoreMapLooksUp(scores, included, j);
        assert x == NodeScore(node.nodeId, m[node.peer]) ==> Earned(scores, included, k, x) by {
          assert included[k - 1].peer == scores[j].peer;
        }
      }
    }
  }

  /** The list for the chain: formatted scores, averaged with those from the revealed scores if there are any. */
  function FinalScores(scores: seq<PeerScore>, revealed: seq<PeerScore>, included: seq<NodeInfo>): (r: seq<NodeScore>) {
    if revealed == [] then FromPeers(scores, included)
    else FilterNodes(Averaged(FromPeers(scores, included) + FromPeers(revealed, included)), included)
  }

  lemma {:induction false} FormatIncluded(scores: seq<PeerScore>, included: seq<NodeInfo>, k: nat, i: nat)
    requires k <= |included|
    requires i < |Format(scores, ScoreMap(scores, included), included, k)|
    ensures HasNode(included, Format(scores, ScoreMap(scores, included), included, k)[i].nodeId)
  {
    var r := Format(scores, ScoreMap(scores, included), included, k);
    if i == |r| - 1 && HasPeer(scores, included[k - 1].peer) {
      assert r[i].nodeId == included[k - 1].nodeId;
    } else {
      FormatIncluded(scores, included, k - 1, i);
    }
  }

  lemma {:induction false} FirstSeenFrom(entries: seq<NodeScore>, i: nat)
    requires i < |FirstSeen(entries)|
    ensures exists j :: 0 <= j < |entries| && entries[j].nodeId == FirstSeen(entries)[i]
  {
    var n := |entries| - 1;
    var rest := FirstSeen(entries[..n]);
    if i < |rest| {
      FirstSeenFrom(entries[..n], i);
      var j :| 0 <= j < n && entries[..n][j].nodeId == rest[i];
      assert entries[j].nodeId == FirstSeen(entries)[i];
    } else {
      assert entries[n].nodeId == FirstSeen(entries)[i];
    }
  }

  lemma {:induction false} FilterKeepsAll(scores: seq<NodeScore>, included: seq<NodeInfo>)
    requires forall i :: 0 <= i < |scores| ==> HasNode(included, scores[i].nodeId)
    ensures FilterNodes(scores, included) == scores
  {
    if scores != [] { FilterKeepsAll(scores[..|scores| - 1], included); }
  }

  /**
   * The last filter of the computation has nothing left to do: order and repetitions of the averaged list
   * stay, because every node in it is included.
   */
  lemma {:induction false} FilterIsIdle(scores: seq<PeerScore>, revealed: seq<PeerScore>, included: seq<NodeInfo>)
    requires revealed != []
    ensures FinalScores(scores, revealed, included)
         == Averaged(FromPeers(scores, included) + FromPeers(revealed, included))
  {
    var a, b := FromPeers(scores, included), FromPeers(revealed, included);
    var averaged := Averaged(a + b);
    forall i | 0 <= i < |averaged| ensures HasNode(included, averaged[i].nodeId) {
      FirstSeenFrom(a + b, i);
      var j :| 0 <= j < |a + b| && (a + b)[j].nodeId == FirstSeen(a + b)[i];
      if j < |a| { FormatIncluded(scores, included, |included|, j); }
      else { FormatIncluded(revealed, included, |included|, j - |a|); }
    }
    FilterKeepsAll(averaged, included);
  }

  /** Score lists with the same entries in any order lead to the same list for the chain. */
  lemma {:induction false} SameScoresSameList(a: seq<PeerScore>, b: seq<PeerScore>, ra: seq<PeerScore>,
                                              rb: seq<PeerScore>, included: seq<NodeInfo>)
    requires multiset(a) == multiset(b) && DistinctPeers(a) && DistinctPeers(b)
    requires multiset(ra) == multiset(rb) && DistinctPeers(ra) && DistinctPeers(rb)
    ensures FinalScores(a, ra, included) == FinalScores(b, rb, included)
  {
    SameFormat(a, b, included, |included|);
    SameFormat(ra, rb, included, |included|);
    assert |multiset(ra)| == |ra| && |multiset(rb)| == |rb|;
  }
}
