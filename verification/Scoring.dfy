/** Scoring validators by how well they agree with the mean of everybody's scores. */
module Scoring {
  import opened Basics
  import opened Counting

  /** One revealed score of a validator for a peer. */
  datatype Score = Score(peer: PeerId, value: real)

  /** A validator with all the scores it revealed. */
  datatype Round = Round(validator: PeerId, scores: seq<Score>)

  const BASE_VALIDATOR_SCORE: real := 1.0
  const EPSILON: real := 0.00000001
  const UNIT: real := 1000000000000000000.0

  // ---------------------------------------------------------------- reference definitions

  /** Sum and number of the scores a peer got in one list. */
  ghost function SumFor(scores: seq<Score>, p: PeerId): real {
    if scores == [] then 0.0
    else
      var last := scores[|scores| - 1];
      SumFor(scores[..|scores| - 1], p) + (if last.peer == p then last.value else 0.0)
  }

  ghost function CountFor(scores: seq<Score>, p: PeerId): nat {
    if scores == [] then 0
    else CountFor(scores[..|scores| - 1], p) + (if scores[|scores| - 1].peer == p then 1 else 0)
  }

  ghost function TotalFor(rounds: seq<Round>, p: PeerId): real {
    if rounds == [] then 0.0 else TotalFor(rounds[..|rounds| - 1], p) + SumFor(rounds[|rounds| - 1].scores, p)
  }

  ghost function VotesFor(rounds: seq<Round>, p: PeerId): nat {
    if rounds == [] then 0 else VotesFor(rounds[..|rounds| - 1], p) + CountFor(rounds[|rounds| - 1].scores, p)
  }

  /** The mean of a peer's scores; zero for a peer nobody scored, which no validator refers to. */
  ghost function MeanFor(rounds: seq<Round>, p: PeerId): real {
    if VotesFor(rounds, p) == 0 then 0.0 else TotalFor(rounds, p) / VotesFor(rounds, p) as real
  }

  function Product(x: real, y: real): (r: real) {
    x * y
  }

  lemma {:induction false} ProductSign(x: real, y: real)
    requires (x > 0.0 && y > 0.0) || (x < 0.0 && y < 0.0)
    ensures Product(x, y) > 0.0
  {
  }

  lemma {:induction false} SquareSign(x: real)
    ensures x != 0.0 ==> Product(x, x) > 0.0
    ensures x == 0.0 ==> Product(x, x) == 0.0
  {
    if x != 0.0 { ProductSign(x, x); }
  }

  /** Squared distance of a list of scores from the means. */
  ghost function ErrorOf(rounds: seq<Round>, scores: seq<Score>): (e: real)
    ensures e >= 0.0
  {
    if scores == [] then 0.0
    else
      var s := scores[|scores| - 1];
      var d := s.value - MeanFor(rounds, s.peer);
      SquareSign(d);
      ErrorOf(rounds, scores[..|scores| - 1]) + Product(d, d)
  }

  /** An upper bound of all errors that is one of them, or the default without validators. */
  ghost predicate IsMaxError(rounds: seq<Round>, m: real) {
    if rounds == [] then m == 1.0
    else
      && (forall i :: 0 <= i < |rounds| ==> ErrorOf(rounds, rounds[i].scores) <= m)
      && (exists i :: 0 <= i < |rounds| && ErrorOf(rounds, rounds[i].scores) == m)
  }

  function Unscaled(error: real, maxError: real): (s: real)
    requires maxError >= 0.0
  {
    var s := BASE_VALIDATOR_SCORE - error / (maxError + EPSILON);
    if s > 0.0 then s else 0.0
  }

  function Scaled(s: real): (n: int) {
    (s * UNIT).Floor
  }

  // ---------------------------------------------------------------- what a score means

  lemma {:induction false} RatioBounds(e: real, m: real)
    requires 0.0 <= e <= m
    ensures 0.0 <= e / (m + EPSILON) < 1.0 && (e == 0.0 <==> e / (m + EPSILON) == 0.0)
  {
    var d := m + EPSILON;
    var q := e / d;
    assert q * d == e;
    assert q < 0.0 ==> q * d < 0.0;
    assert q >= 1.0 ==> q * d >= d;
  }

  /** Every validator's score lies above zero and at most at one, and is never clamped. */
  lemma {:induction false} ScoreInRange(e: real, m: real)
    requires 0.0 <= e <= m
    ensures 0.0 < Unscaled(e, m) <= 1.0
    ensures Unscaled(e, m) == BASE_VALIDATOR_SCORE - e / (m + EPSILON)
    ensures Unscaled(e, m) == 1.0 <==> e == 0.0
  {
    RatioBounds(e, m);
  }

  /** A larger error never gives a larger score. */
  lemma {:induction false} ScoreAntitone(e: real, e': real, m: real)
    requires 0.0 <= e <= e' <= m
    ensures Unscaled(e', m) <= Unscaled(e, m) && Scaled(Unscaled(e', m)) <= Scaled(Unscaled(e, m))
  {
    var d := m + EPSILON;
    var q, q' := e / d, e' / d;
    assert q * d == e && q' * d == e';
    if q > q' { assert (q - q') * d > 0.0; assert (q - q') * d == e - e'; }
    ScoreInRange(e, m);
    ScoreInRange(e', m);
  }

  /** The full score is reached exactly with no error at all. */
  lemma {:induction false} FullScoreIff(e: real, m: real)
    requires 0.0 <= e <= m
    ensures 0 <= Scaled(Unscaled(e, m)) <= 1000000000000000000
    ensures Scaled(Unscaled(e, m)) == 1000000000000000000 <==> e == 0.0
  {
    ScoreInRange(e, m);
    var s := Unscaled(e, m);
    assert s * UNIT <= UNIT;
    assert s < 1.0 ==> s * UNIT < UNIT;
  }

  /** No error means agreement with the mean on every peer that was scored. */
  lemma {:induction false} NoErrorIff(rounds: seq<Round>, scores: seq<Score>)
    ensures ErrorOf(rounds, scores) == 0.0
       <==> forall i :: 0 <= i < |scores| ==> scores[i].value == MeanFor(rounds, scores[i].peer)
  {
    if scores != [] {
      var n := |scores| - 1;
      NoErrorIff(rounds, scores[..n]);
      SquareSign(scores[n].value - MeanFor(rounds, scores[n].peer));
      assert forall i :: 0 <= i < n ==> scores[..n][i] == scores[i];
    }
  }

  // ---------------------------------------------------------------- independence of the order

  lemma {:induction false} TotalRemove(rounds: seq<Round>, k: nat, p: PeerId)
    requires k < |rounds|
    ensures TotalFor(rounds, p) == TotalFor(rounds[..k] + rounds[k + 1..], p) + SumFor(rounds[k].scores, p)
    ensures VotesFor(rounds, p) == VotesFor(rounds[..k] + rounds[k + 1..], p) + CountFor(rounds[k].scores, p)
  {
    var n := |rounds| - 1;
    if k == n {
      assert rounds[..k] + rounds[k + 1..] == rounds[..n];
    } else {
      TotalRemove(rounds[..n], k, p);
      var rest := rounds[..k] + rounds[k + 1..];
      assert rest[..n - 1] == rounds[..n][..k] + rounds[..n][k + 1..];
      assert rest[n - 1] == rounds[n];
    }
  }

  /** The sums over all validators do not depend on the order in which they are visited. */
  lemma {:induction false} TotalPermutation(a: seq<Round>, b: seq<Round>, p: PeerId)
    requires multiset(a) == multiset(b)
    ensures TotalFor(a, p) == TotalFor(b, p) && VotesFor(a, p) == VotesFor(b, p)
    decreases |a|
  {
    assert |multiset(a)| == |a| && |multiset(b)| == |b|;
    if a != [] {
      var n := |a| - 1;
      var x := a[n];
      assert x in multiset(b);
      var k :| 0 <= k < |b| && b[k] == x;
      TotalRemove(b, k, p);
      RemoveAt(b, k);
      RemoveAt(a, n);
      assert a[..n] + a[n + 1..] == a[..n];
      TotalPermutation(a[..n], b[..k] + b[k + 1..], p);
    }
  }

  lemma {:induction false} ErrorPermutation(a: seq<Round>, b: seq<Round>, scores: seq<Score>)
    requires multiset(a) == multiset(b)
    ensures ErrorOf(a, scores) == ErrorOf(b, scores)
  {
    if scores != [] {
      var n := |scores| - 1;
      ErrorPermutation(a, b, scores[..n]);
      TotalPermutation(a, b, scores[n].peer);
    }
  }

  lemma {:induction false} MaxPermutation(a: seq<Round>, b: seq<Round>, m: real, m': real)
    requires multiset(a) == multiset(b) && IsMaxError(a, m) && IsMaxError(b, m')
    ensures m == m'
  {
    assert |multiset(a)| == |a| && |multiset(b)| == |b|;
    if a != [] {
      MaxAtMost(a, b, m, m');
      MaxAtMost(b, a, m', m);
    }
  }

  lemma {:induction false} MaxAtMost(a: seq<Round>, b: seq<Round>, m: real, m': real)
    requires a != [] && b != [] && multiset(a) == multiset(b) && IsMaxError(a, m) && IsMaxError(b, m')
    ensures m <= m'
  {
    var i :| 0 <= i < |a| && ErrorOf(a, a[i].scores) == m;
    assert a[i] in multiset(b);
    var j :| 0 <= j < |b| && b[j] == a[i];
    ErrorPermutation(a, b, a[i].scores);
  }

  /** The score every validator is given. */
  ghost predicate ScoredBy(rounds: seq<Round>, scores: map<PeerId, int>) {
    && (forall v :: v in scores <==> exists i :: 0 <= i < |rounds| && rounds[i].validator == v)
    && forall i, m :: 0 <= i < |rounds| && IsMaxError(rounds, m) && m >= 0.0 ==>
         scores[rounds[i].validator] == Scaled(Unscaled(ErrorOf(rounds, rounds[i].scores), m))
  }

  lemma {:induction false} MaxErrorExists(rounds: seq<Round>, k: nat) returns (m: real)
    requires 0 < k <= |rounds|
    ensures forall i :: 0 <= i < k ==> ErrorOf(rounds, rounds[i].scores) <= m
    ensures exists i :: 0 <= i < k && ErrorOf(rounds, rounds[i].scores) == m
    ensures m >= 0.0
  {
    var e := ErrorOf(rounds, rounds[k - 1].scores);
    if k == 1 {
      m := e;
    } else {
      var m' := MaxErrorExists(rounds, k - 1);
      m := if e > m' then e else m';
    }
  }

  /**
   * The final score of a validator is full exactly if it agreed with the mean on every peer it scored,
   * and of two validators the one farther from the means never has the higher score.
   */
  lemma {:induction false} FullMarksIff(rounds: seq<Round>, scores: map<PeerId, int>, i: nat)
    requires ScoredBy(rounds, scores) && i < |rounds|
    ensures var v := rounds[i].validator;
            && v in scores && 0 <= scores[v] <= 1000000000000000000
            && (scores[v] == 1000000000000000000
                <==> forall j :: 0 <= j < |rounds[i].scores| ==>
                       rounds[i].scores[j].value == MeanFor(rounds, rounds[i].scores[j].peer))
    ensures forall j :: 0 <= j < |rounds| && ErrorOf(rounds, rounds[i].scores) <= ErrorOf(rounds, rounds[j].scores) ==>
              rounds[j].validator in scores && scores[rounds[j].validator] <= scores[rounds[i].validator]
  {
    var m := MaxErrorExists(rounds, |rounds|);
    assert IsMaxError(rounds, m);
    var e := ErrorOf(rounds, rounds[i].scores);
    assert scores[rounds[i].validator] == Scaled(Unscaled(e, m));
    FullScoreIff(e, m);
    NoErrorIff(rounds, rounds[i].scores);
    forall j | 0 <= j < |rounds| && e <= ErrorOf(rounds, rounds[j].scores)
      ensures rounds[j].validator in scores && scores[rounds[j].validator] <= scores[rounds[i].validator]
    {
      ScoreAntitone(e, ErrorOf(rounds, rounds[j].scores), m);
      assert scores[rounds[j].validator] == Scaled(Unscaled(ErrorOf(rounds, rounds[j].scores), m));
    }
  }

  /** Nodes with the same reveals compute the same scores, whatever the order of their dictionaries. */
  lemma {:induction false} OrderIndependent(a: seq<Round>, b: seq<Round>, s: map<PeerId, int>, t: map<PeerId, int>)
    requires multiset(a) == multiset(b) && ScoredBy(a, s) && ScoredBy(b, t)
    ensures s == t
  {
    assert |multiset(a)| == |a| && |multiset(b)| == |b|;
    Covered(a, b, s, t);
    Covered(b, a, t, s);
    assert s.Keys == t.Keys;
  }

  lemma {:induction false} Covered(a: seq<Round>, b: seq<Round>, s: map<PeerId, int>, t: map<PeerId, int>)
    requires multiset(a) == multiset(b) && |a| == |b| && ScoredBy(a, s) && ScoredBy(b, t)
    ensures forall v :: v in s ==> v in t && s[v] == t[v]
  {
    forall v | v in s ensures v in t && s[v] == t[v] {
      var i :| 0 <= i < |a| && a[i].validator == v;
      assert a[i] in multiset(b);
      var j :| 0 <= j < |b| && b[j] == a[i];
      var m := MaxErrorExists(a, |a|);
      var m' := MaxErrorExists(b, |b|);
      assert IsMaxError(a, m) && IsMaxError(b, m');
      MaxPermutation(a, b, m, m');
      ErrorPermutation(a, b, a[i].scores);
      assert s[a[i].validator] == Scaled(Unscaled(ErrorOf(a, a[i].scores), m));
      assert t[b[j].validator] == Scaled(Unscaled(ErrorOf(b, b[j].scores), m'));
    }
  }

  // ---------------------------------------------------------------- the computation

  /** The list of scores collected for a peer has the right sum and length; peers without scores have no list. */
  ghost predicate Collected(lists: map<PeerId, seq<real>>, p: PeerId, total: real, votes: nat) {
    && (p in lists <==> votes > 0)
    && (p in lists ==> |lists[p]| == votes && Total(lists[p]) == total)
    && (votes == 0 ==> total == 0.0)
  }

  ghost predicate CollectedAll(lists: map<PeerId, seq<real>>, rounds: seq<Round>) {
    forall p :: Collected(lists, p, TotalFor(rounds, p), VotesFor(rounds, p))
  }

  function Total(xs: seq<real>): (r: real) {
    if xs == [] then 0.0 else Total(xs[..|xs| - 1]) + xs[|xs| - 1]
  }

  lemma {:induction false} TotalPush(xs: seq<real>, x: real)
    ensures Total(xs + [x]) == Total(xs) + x
  {
    assert (xs + [x])[..|xs|] == xs;
  }

  lemma {:induction false} CollectOne(lists: map<PeerId, seq<real>>, s: Score, p: PeerId, total: real, votes: nat)
    requires Collected(lists, p, total, votes)
    ensures var lists' := lists[s.peer := (if s.peer in lists then lists[s.peer] else []) + [s.value]];
            Collected(lists', p, total + (if s.peer == p then s.value else 0.0), votes + (if s.peer == p then 1 else 0))
  {
    if s.peer == p { TotalPush(if p in lists then lists[p] else [], s.value); }
  }

  lemma {:induction false} SlicePush(scores: seq<Score>, j: nat, p: PeerId)
    requires j < |scores|
    ensures SumFor(scores[..j + 1], p)
         == SumFor(scores[..j], p) + (if scores[j].peer == p then scores[j].value else 0.0)
    ensures CountFor(scores[..j + 1], p) == CountFor(scores[..j], p) + (if scores[j].peer == p then 1 else 0)
  {
    assert scores[..j + 1][..j] == scores[..j];
  }

  /** Step 1: all scores of a peer, in the order in which validators are visited. */
  method CollectScores(rounds: seq<Round>) returns (lists: map<PeerId, seq<real>>)
    ensures CollectedAll(lists, rounds)
  {
    lists := map[];
    for k := 0 to |rounds|
      invariant CollectedAll(lists, rounds[..k])
    {
      lists := CollectRound(lists, rounds, k);
    }
    assert rounds[..|rounds|] == rounds;
  }

  /** All scores of the visited validators and some of the next one are collected. */
  ghost predicate PartlyCollected(lists: map<PeerId, seq<real>>, rounds: seq<Round>, scores: seq<Score>) {
    forall p :: Collected(lists, p, TotalFor(rounds, p) + SumFor(scores, p), VotesFor(rounds, p) + CountFor(scores, p))
  }

  lemma {:induction false} PartlyStep(lists: map<PeerId, seq<real>>, rounds: seq<Round>, scores: seq<Score>, j: nat)
    requires j < |scores| && PartlyCollected(lists, rounds, scores[..j])
    ensures var s := scores[j];
            var lists' := lists[s.peer := (if s.peer in lists then lists[s.peer] else []) + [s.value]];
            PartlyCollected(lists', rounds, scores[..j + 1])
  {
    var s := scores[j];
    var lists' := lists[s.peer := (if s.peer in lists then lists[s.peer] else []) + [s.value]];
    forall p
      ensures Collected(lists', p, TotalFor(rounds, p) + SumFor(scores[..j + 1], p),
                        VotesFor(rounds, p) + CountFor(scores[..j + 1], p))
    {
      var total, votes := TotalFor(rounds, p) + SumFor(scores[..j], p), VotesFor(rounds, p) + CountFor(scores[..j], p);
      CollectOne(lists, s, p, total, votes);
      SlicePush(scores, j, p);
    }
  }

  lemma {:induction false} RoundDone(lists: map<PeerId, seq<real>>, rounds: seq<Round>, k: nat)
    requires k < |rounds| && PartlyCollected(lists, rounds[..k], rounds[k].scores)
    ensures CollectedAll(lists, rounds[..k + 1])
  {
    var done := rounds[..k + 1];
    assert done[..k] == rounds[..k];
    forall p ensures Collected(lists, p, TotalFor(done, p), VotesFor(done, p)) {
      assert TotalFor(done, p) == TotalFor(rounds[..k], p) + SumFor(rounds[k].scores, p);
    }
  }

  method CollectRound(before: map<PeerId, seq<real>>, rounds: seq<Round>, k: nat)
    returns (lists: map<PeerId, seq<real>>)
    requires k < |rounds| && CollectedAll(before, rounds[..k])
    ensures CollectedAll(lists, rounds[..k + 1])
  {
    lists := before;
    var scores := rounds[k].scores;
    assert PartlyCollected(lists, rounds[..k], scores[..0]);
    for j := 0 to |scores|
      invariant PartlyCollected(lists, rounds[..k], scores[..j])
    {
      PartlyStep(lists, rounds[..k], scores, j);
      var s := scores[j];
      lists := lists[s.peer := (if s.peer in lists then lists[s.peer] else []) + [s.value]];
    }
    assert scores[..|scores|] == scores;
    RoundDone(lists, rounds, k);
  }

  /** A peer that a validator scored has a vote. */
  lemma {:induction false} ScoredHasVote(rounds: seq<Round>, k: nat, j: nat)
    requires k < |rounds| && j < |rounds[k].scores|
    ensures VotesFor(rounds, rounds[k].scores[j].peer) > 0
  {
    TotalRemove(rounds, k, rounds[k].scores[j].peer);
    Counted(rounds[k].scores, j);
  }

  lemma {:induction false} Counted(scores: seq<Score>, j: nat)
    requires j < |scores|
    ensures CountFor(scores, scores[j].peer) > 0
  {
    var n := |scores| - 1;
    if j < n { Counted(scores[..n], j); }
  }

  ghost predicate AreMeans(rounds: seq<Round>, means: map<PeerId, real>) {
    && (forall p :: p in means <==> VotesFor(rounds, p) > 0)
    && forall p :: p in means ==> means[p] == MeanFor(rounds, p)
  }

  /** Step 2: the mean of each list. */
  method Means(rounds: seq<Round>, lists: map<PeerId, seq<real>>) returns (means: map<PeerId, real>)
    requires CollectedAll(lists, rounds)
    ensures AreMeans(rounds, means)
  {
    means := map p | p in lists && |lists[p]| > 0 :: Total(lists[p]) / |lists[p]| as real;
    forall p ensures (p in means <==> VotesFor(rounds, p) > 0) && (p in means ==> means[p] == MeanFor(rounds, p)) {
      assert Collected(lists, p, TotalFor(rounds, p), VotesFor(rounds, p));
    }
  }

  /** Step 3: the squared error of one validator. */
  method ErrorSum(rounds: seq<Round>, k: nat, means: map<PeerId, real>) returns (error: real)
    requires k < |rounds| && AreMeans(rounds, means)
    ensures error == ErrorOf(rounds, rounds[k].scores)
  {
    error := 0.0;
    var scores := rounds[k].scores;
    for j := 0 to |scores|
      invariant error == ErrorOf(rounds, scores[..j])
    {
      ScoredHasVote(rounds, k, j);
      assert scores[..j + 1][..j] == scores[..j];
      if scores[j].peer in means {
        var d := scores[j].value - means[scores[j].peer];
        error := error + Product(d, d);
      }
    }
    assert scores[..|scores|] == scores;
  }

  ghost predicate DistinctValidators(rounds: seq<Round>) {
    forall i, j :: 0 <= i < j < |rounds| ==> rounds[i].validator != rounds[j].validator
  }

  /** Step 3: the errors of all validators and the largest of them. */
  method Errors(rounds: seq<Round>, means: map<PeerId, real>) returns (errors: seq<real>, maxError: real)
    requires AreMeans(rounds, means)
    ensures |errors| == |rounds| && forall i :: 0 <= i < |rounds| ==> errors[i] == ErrorOf(rounds, rounds[i].scores)
    ensures IsMaxError(rounds, maxError) && maxError >= 0.0
  {
    errors, maxError := [], 1.0;
    for k := 0 to |rounds|
      invariant |errors| == k && forall i :: 0 <= i < k ==> errors[i] == ErrorOf(rounds, rounds[i].scores) <= maxError
      invariant if k == 0 then maxError == 1.0 else exists i :: 0 <= i < k && errors[i] == maxError
    {
      var e := ErrorSum(rounds, k, means);
      errors := errors + [e];
      maxError := if k == 0 || e > maxError then e else maxError;
      assert errors[k] == e;
    }
  }

  /** All steps: the scaled score of every validator. */
  method ScoreValidators(rounds: seq<Round>) returns (scores: map<PeerId, int>)
    requires DistinctValidators(rounds)
    ensures ScoredBy(rounds, scores)
  {
    var lists := CollectScores(rounds);
    var means := Means(rounds, lists);
    var errors, maxError := Errors(rounds, means);
    scores := map[];
    for k := 0 to |rounds|
      invariant forall i :: 0 <= i < k ==>
                  && rounds[i].validator in scores
                  && scores[rounds[i].validator] == Scaled(Unscaled(errors[i], maxError))
      invariant forall v :: v in scores ==> exists i :: 0 <= i < k && rounds[i].validator == v
    {
      scores := scores[rounds[k].validator := Scaled(Unscaled(errors[k], maxError))];
    }
    forall i, m | 0 <= i < |rounds| && IsMaxError(rounds, m) && m >= 0.0
      ensures scores[rounds[i].validator] == Scaled(Unscaled(ErrorOf(rounds, rounds[i].scores), m))
    {
      MaxPermutation(rounds, rounds, m, maxError);
    }
  }
}
