/** What makes the errors of validators squared distances, and what that gives in one concrete round. */
module ScoringLaws {
  import opened Basics
  import opened Scoring

  // ---------------------------------------------------------------- the sum of squared errors

  /** The scores of a list that are about one peer. */
  ghost function About(scores: seq<Score>, p: PeerId): (r: seq<Score>) {
    if scores == [] then []
    else
      var n := |scores| - 1;
      About(scores[..n], p) + (if scores[n].peer == p then [scores[n]] else [])
  }

  /** Sum of a function of the scores of a peer. */
  ghost function SumBy(f: real -> real, scores: seq<Score>, p: PeerId): (r: real) {
    if scores == [] then 0.0
    else
      var last := scores[|scores| - 1];
      SumBy(f, scores[..|scores| - 1], p) + (if last.peer == p then f(last.value) else 0.0)
  }

  ghost function AllBy(f: real -> real, rounds: seq<Round>, p: PeerId): (r: real) {
    if rounds == [] then 0.0 else AllBy(f, rounds[..|rounds| - 1], p) + SumBy(f, rounds[|rounds| - 1].scores, p)
  }

  lemma {:induction false} SumByAdds(f: real -> real, g: real -> real, h: real -> real, scores: seq<Score>, p: PeerId)
    requires forall v :: f(v) == g(v) + h(v)
    ensures SumBy(f, scores, p) == SumBy(g, scores, p) + SumBy(h, scores, p)
  {
    if scores != [] { SumByAdds(f, g, h, scores[..|scores| - 1], p); }
  }

  lemma {:induction false} AllByAdds(f: real -> real, g: real -> real, h: real -> real, rounds: seq<Round>, p: PeerId)
    requires forall v :: f(v) == g(v) + h(v)
    ensures AllBy(f, rounds, p) == AllBy(g, rounds, p) + AllBy(h, rounds, p)
  {
    if rounds != [] {
      AllByAdds(f, g, h, rounds[..|rounds| - 1], p);
      SumByAdds(f, g, h, rounds[|rounds| - 1].scores, p);
    }
  }

  lemma {:induction false} Distribute(c: real, x: real, y: real)
    ensures c * (x + y) == c * x + c * y
  {
  }

  lemma {:induction false} SumByScales(f: real -> real, g: real -> real, c: real, scores: seq<Score>, p: PeerId)
    requires forall v :: f(v) == c * g(v)
    ensures SumBy(f, scores, p) == c * SumBy(g, scores, p)
  {
    if scores != [] {
      var n := |scores| - 1;
      SumByScales(f, g, c, scores[..n], p);
      Distribute(c, SumBy(g, scores[..n], p), g(scores[n].value));
    }
  }

  lemma {:induction false} AllByScales(f: real -> real, g: real -> real, c: real, rounds: seq<Round>, p: PeerId)
    requires forall v :: f(v) == c * g(v)
    ensures AllBy(f, rounds, p) == c * AllBy(g, rounds, p)
  {
    if rounds != [] {
      var n := |rounds| - 1;
      AllByScales(f, g, c, rounds[..n], p);
      SumByScales(f, g, c, rounds[n].scores, p);
      Distribute(c, AllBy(g, rounds[..n], p), SumBy(g, rounds[n].scores, p));
    }
  }

  const SAME: real -> real := v => v
  const ONE: real -> real := v => 1.0
  const SQUARE: real -> real := v => v * v

  lemma {:induction false} SumsAre(scores: seq<Score>, p: PeerId)
    ensures SumBy(SAME, scores, p) == SumFor(scores, p) && SumBy(ONE, scores, p) == CountFor(scores, p) as real
  {
    if scores != [] { SumsAre(scores[..|scores| - 1], p); }
  }

  lemma {:induction false} TotalsAre(rounds: seq<Round>, p: PeerId)
    ensures AllBy(SAME, rounds, p) == TotalFor(rounds, p) && AllBy(ONE, rounds, p) == VotesFor(rounds, p) as real
  {
    if rounds != [] {
      TotalsAre(rounds[..|rounds| - 1], p);
      SumsAre(rounds[|rounds| - 1].scores, p);
    }
  }

  /** What all validators' errors about one peer add up to, with the means of all `rounds`. */
  ghost function ErrorsAbout(rounds: seq<Round>, visited: seq<Round>, p: PeerId): (r: real) {
    if visited == [] then 0.0
    else
      ErrorsAbout(rounds, visited[..|visited| - 1], p) + ErrorOf(rounds, About(visited[|visited| - 1].scores, p))
  }

  /** The square of the distance from `m`. */
  ghost predicate Squares(f: real -> real, m: real) {
    forall v :: f(v) == (v - m) * (v - m)
  }

  /** One more score adds the square of its distance from the mean. */
  lemma {:induction false} ErrorPush(rounds: seq<Round>, scores: seq<Score>, s: Score, f: real -> real)
    requires Squares(f, MeanFor(rounds, s.peer))
    ensures ErrorOf(rounds, scores + [s]) == ErrorOf(rounds, scores) + f(s.value)
  {
    assert (scores + [s])[..|scores|] == scores;
  }

  /** So the error about one peer is the sum of the squared distances of its scores from their mean. */
  lemma {:induction false} ErrorAbout(rounds: seq<Round>, scores: seq<Score>, p: PeerId, f: real -> real)
    requires Squares(f, MeanFor(rounds, p))
    ensures ErrorOf(rounds, About(scores, p)) == SumBy(f, scores, p)
  {
    if scores != [] {
      var n := |scores| - 1;
      var rest := About(scores[..n], p);
      ErrorAbout(rounds, scores[..n], p, f);
      if scores[n].peer == p { ErrorPush(rounds, rest, scores[n], f); } else { assert rest + [] == rest; }
    }
  }

  lemma {:induction false} ErrorsAboutIs(rounds: seq<Round>, visited: seq<Round>, p: PeerId, f: real -> real)
    requires Squares(f, MeanFor(rounds, p))
    ensures ErrorsAbout(rounds, visited, p) == AllBy(f, visited, p)
  {
    if visited != [] {
      ErrorsAboutIs(rounds, visited[..|visited| - 1], p, f);
      ErrorAbout(rounds, visited[|visited| - 1].scores, p, f);
    }
  }

  lemma {:induction false} NoVotesNoTotal(rounds: seq<Round>, p: PeerId)
    requires VotesFor(rounds, p) == 0
    ensures TotalFor(rounds, p) == 0.0
  {
    if rounds != [] {
      NoVotesNoTotal(rounds[..|rounds| - 1], p);
      NoCountNoSum(rounds[|rounds| - 1].scores, p);
    }
  }

  lemma {:induction false} NoCountNoSum(scores: seq<Score>, p: PeerId)
    requires CountFor(scores, p) == 0
    ensures SumFor(scores, p) == 0.0
  {
    if scores != [] { NoCountNoSum(scores[..|scores| - 1], p); }
  }

  lemma {:induction false} MeanTimesVotes(rounds: seq<Round>, p: PeerId)
    ensures MeanFor(rounds, p) * VotesFor(rounds, p) as real == TotalFor(rounds, p)
  {
    if VotesFor(rounds, p) == 0 {
      NoVotesNoTotal(rounds, p);
    } else {
      Divided(TotalFor(rounds, p), VotesFor(rounds, p) as real);
    }
  }

  lemma {:induction false} Divided(x: real, n: real)
    requires n != 0.0
    ensures x / n * n == x
  {
  }

  lemma {:induction false} SquareParts(v: real, m: real)
    ensures (v - m) * (v - m) == v * v + (-2.0 * m * v + m * m * 1.0)
  {
  }

  ghost function Line(c: real): real -> real {
    v => c * v
  }

  ghost function Level(d: real): real -> real {
    v => d * 1.0
  }

  ghost function Affine(c: real, d: real): real -> real {
    v => c * v + d * 1.0
  }

  lemma {:induction false} SquareIs(f: real -> real, m: real, c: real, d: real)
    requires Squares(f, m) && c == -2.0 * m && d == m * m
    ensures forall v :: f(v) == SQUARE(v) + Affine(c, d)(v)
  {
    forall v ensures f(v) == SQUARE(v) + Affine(c, d)(v) { SquareParts(v, m); }
  }

  lemma {:induction false} AffineParts(c: real, d: real)
    ensures forall v :: Affine(c, d)(v) == Line(c)(v) + Level(d)(v)
  {
  }

  /** Sums of squared distances from `m` are sums of squares, of multiples of the scores and of multiples of one. */
  lemma {:induction false} SumOfParts(f: real -> real, m: real, c: real, d: real, rounds: seq<Round>, p: PeerId)
    requires Squares(f, m) && c == -2.0 * m && d == m * m
    ensures AllBy(f, rounds, p)
         == AllBy(SQUARE, rounds, p) + (AllBy(Line(c), rounds, p) + AllBy(Level(d), rounds, p))
  {
    SquareIs(f, m, c, d);
    AffineParts(c, d);
    AddTwice(f, SQUARE, Affine(c, d), Line(c), Level(d), rounds, p);
  }

  lemma {:induction false} AddTwice(f: real -> real, e: real -> real, k: real -> real, g: real -> real, h: real -> real,
                                    rounds: seq<Round>, p: PeerId)
    requires (forall v :: f(v) == e(v) + k(v)) && (forall v :: k(v) == g(v) + h(v))
    ensures AllBy(f, rounds, p) == AllBy(e, rounds, p) + (AllBy(g, rounds, p) + AllBy(h, rounds, p))
  {
    AllByAdds(f, e, k, rounds, p);
    AllByAdds(k, g, h, rounds, p);
  }

  lemma {:induction false} LineSum(c: real, rounds: seq<Round>, p: PeerId) returns (total: real)
    ensures total == TotalFor(rounds, p) && AllBy(Line(c), rounds, p) == c * total
  {
    TotalsAre(rounds, p);
    AllByScales(Line(c), SAME, c, rounds, p);
    total := TotalFor(rounds, p);
  }

  lemma {:induction false} LevelSum(d: real, rounds: seq<Round>, p: PeerId) returns (votes: real)
    ensures votes == VotesFor(rounds, p) as real && AllBy(Level(d), rounds, p) == d * votes
  {
    TotalsAre(rounds, p);
    AllByScales(Level(d), ONE, d, rounds, p);
    votes := VotesFor(rounds, p) as real;
  }

  /** The mean of `n` numbers with this sum, and the sum of their squared distances from it. */
  ghost predicate SquaredAround(mean: real, n: real, sum: real, squares: real, errors: real) {
    mean * n == sum && errors == squares - n * (mean * mean)
  }

  lemma {:induction false} AroundMean(mean: real, n: real, sum: real, squares: real, errors: real, line: real,
                                      level: real, c: real, d: real)
    requires mean * n == sum && errors == squares + (line + level) && line == c * sum && level == d * n
    requires c == -2.0 * mean && d == mean * mean
    ensures SquaredAround(mean, n, sum, squares, errors)
  {
    assert mean * sum == mean * mean * n;
  }

  /** The sums of the law below, with a function that squares distances from the mean. */
  lemma {:induction false} SumsBy(rounds: seq<Round>, p: PeerId, f: real -> real, m: real, c: real, d: real)
    returns (votes: real, total: real, line: real, level: real)
    requires Squares(f, m) && c == -2.0 * m && d == m * m
    ensures votes == VotesFor(rounds, p) as real && total == TotalFor(rounds, p)
    ensures line == c * total && level == d * votes
    ensures AllBy(f, rounds, p) == AllBy(SQUARE, rounds, p) + (line + level)
  {
    total := LineSum(c, rounds, p);
    votes := LevelSum(d, rounds, p);
    line, level := AllBy(Line(c), rounds, p), AllBy(Level(d), rounds, p);
    SumOfParts(f, m, c, d, rounds, p);
  }

  lemma {:induction false} AroundAny(rounds: seq<Round>, p: PeerId, f: real -> real, m: real)
    requires Squares(f, m) && m * VotesFor(rounds, p) as real == TotalFor(rounds, p)
    ensures SquaredAround(m, VotesFor(rounds, p) as real, TotalFor(rounds, p), AllBy(SQUARE, rounds, p),
                          AllBy(f, rounds, p))
  {
    var c, d := -2.0 * m, m * m;
    var votes, total, line, level := SumsBy(rounds, p, f, m, c, d);
    AroundMean(m, votes, total, AllBy(SQUARE, rounds, p), AllBy(f, rounds, p), line, level, c, d);
  }

  /**
   * Errors are squared distances from the means: about each peer all validators' errors add up to the sum of
   * the squares of its scores, less the square of their mean for every score.
   */
  lemma {:induction false} SquaredErrors(rounds: seq<Round>, p: PeerId)
    ensures SquaredAround(MeanFor(rounds, p), VotesFor(rounds, p) as real, TotalFor(rounds, p),
                          AllBy(SQUARE, rounds, p), ErrorsAbout(rounds, rounds, p))
  {
    var m := MeanFor(rounds, p);
    SquaresFrom(m);
    assert ErrorsAbout(rounds, rounds, p) == AllBy(From(m), rounds, p) by {
      ErrorsAboutIs(rounds, rounds, p, From(m));
    }
    assert SquaredAround(m, VotesFor(rounds, p) as real, TotalFor(rounds, p), AllBy(SQUARE, rounds, p),
                         AllBy(From(m), rounds, p)) by {
      MeanTimesVotes(rounds, p);
      AroundAny(rounds, p, From(m), m);
    }
  }

  ghost function From(m: real): real -> real {
    v => (v - m) * (v - m)
  }

  lemma {:induction false} SquaresFrom(m: real)
    ensures Squares(From(m), m)
  {
  }

  /** A validator's error is what its errors about single peers add up to. */
  lemma {:induction false} ErrorByPeer(rounds: seq<Round>, scores: seq<Score>, p: PeerId)
    ensures ErrorOf(rounds, scores) == ErrorOf(rounds, About(scores, p)) + ErrorOf(rounds, NotAbout(scores, p))
  {
    if scores != [] {
      var n := |scores| - 1;
      var s, a, b := scores[n], About(scores[..n], p), NotAbout(scores[..n], p);
      ErrorByPeer(rounds, scores[..n], p);
      assert (a + [s])[..|a|] == a && (b + [s])[..|b|] == b && a + [] == a && b + [] == b;
    }
  }

  ghost function NotAbout(scores: seq<Score>, p: PeerId): (r: seq<Score>) {
    if scores == [] then []
    else
      var n := |scores| - 1;
      NotAbout(scores[..n], p) + (if scores[n].peer != p then [scores[n]] else [])
  }

  // ---------------------------------------------------------------- the final score

  /** The final score of a validator, up to rounding down. */
  lemma {:induction false} FinalScore(rounds: seq<Round>, scores: map<PeerId, int>, i: nat, m: real)
    requires ScoredBy(rounds, scores) && i < |rounds| && IsMaxError(rounds, m)
    ensures var v, e := rounds[i].validator, ErrorOf(rounds, rounds[i].scores);
            && m >= 0.0 && v in scores
            && var exact := (1.0 - e / (m + 0.00000001)) * 1000000000000000000.0;
            scores[v] as real <= exact < scores[v] as real + 1.0
  {
    var e := ErrorOf(rounds, rounds[i].scores);
    ScoreInRange(e, m);
  }

  // ---------------------------------------------------------------- one round

  function TwoScores(a: real, b: real): (r: seq<Score>) {
    [Score(10, a), Score(20, b)]
  }

  /** Three validators score two peers: one full marks for both, one for the first only, one none. */
  const THREE: seq<Round> :=
    [Round(1, TwoScores(1.0, 1.0)), Round(2, TwoScores(1.0, 0.0)), Round(3, TwoScores(0.0, 0.0))]

  lemma {:induction false} SumOfTwo(a: real, b: real)
    ensures var s := TwoScores(a, b);
            && SumFor(s, 10) == a && CountFor(s, 10) == 1 && SumFor(s, 20) == b && CountFor(s, 20) == 1
  {
    var s := TwoScores(a, b);
    assert s[..1] == [s[0]] && [s[0]][..0] == [];
    assert SumFor([s[0]], 10) == a && CountFor([s[0]], 10) == 1;
    assert SumFor([s[0]], 20) == 0.0 && CountFor([s[0]], 20) == 0;
  }

  lemma {:induction false} MeansOfThree()
    ensures MeanFor(THREE, 10) == 2.0 / 3.0 && MeanFor(THREE, 20) == 1.0 / 3.0
  {
    SumOfTwo(1.0, 1.0);
    SumOfTwo(1.0, 0.0);
    SumOfTwo(0.0, 0.0);
    var r := THREE;
    assert r[..2] == [r[0], r[1]] && r[..2][..1] == [r[0]] && [r[0]][..0] == [];
    assert TotalFor([r[0]], 10) == 1.0 && TotalFor([r[0]], 20) == 1.0;
    assert TotalFor(r[..2], 10) == 2.0 && TotalFor(r[..2], 20) == 1.0;
    assert VotesFor([r[0]], 10) == 1 && VotesFor([r[0]], 20) == 1;
    assert VotesFor(r[..2], 10) == 2 && VotesFor(r[..2], 20) == 2;
    assert TotalFor(r, 10) == 2.0 && TotalFor(r, 20) == 1.0 && VotesFor(r, 10) == 3 && VotesFor(r, 20) == 3;
  }

  lemma {:induction false} ErrorOfTwo(a: real, b: real)
    ensures ErrorOf(THREE, TwoScores(a, b))
         == (a - 2.0 / 3.0) * (a - 2.0 / 3.0) + (b - 1.0 / 3.0) * (b - 1.0 / 3.0)
  {
    MeansOfThree();
    var s := TwoScores(a, b);
    SquaresFrom(2.0 / 3.0);
    SquaresFrom(1.0 / 3.0);
    ErrorPush(THREE, [], s[0], From(2.0 / 3.0));
    ErrorPush(THREE, [s[0]], s[1], From(1.0 / 3.0));
    assert [] + [s[0]] == [s[0]] && [s[0]] + [s[1]] == s;
  }

  /** The errors are 5/9, 2/9 and 5/9, and the second validator gets six tenths of the full score. */
  lemma {:induction false} ThreeValidators(scores: map<PeerId, int>)
    requires ScoredBy(THREE, scores)
    ensures ErrorOf(THREE, THREE[0].scores) == ErrorOf(THREE, THREE[2].scores) == 5.0 / 9.0
    ensures ErrorOf(THREE, THREE[1].scores) == 2.0 / 9.0
    ensures 1 in scores && 2 in scores && 3 in scores && scores[1] == scores[3]
    ensures 600000007000000000 <= scores[2] <= 600000008000000000 && 0 <= scores[1] <= 20000000000
  {
    ErrorOfTwo(1.0, 1.0);
    ErrorOfTwo(1.0, 0.0);
    ErrorOfTwo(0.0, 0.0);
    var r := THREE;
    assert ErrorOf(r, r[0].scores) == 5.0 / 9.0 && ErrorOf(r, r[1].scores) == 2.0 / 9.0;
    assert ErrorOf(r, r[2].scores) == 5.0 / 9.0;
    assert IsMaxError(r, 5.0 / 9.0);
    FinalScore(r, scores, 0, 5.0 / 9.0);
    FinalScore(r, scores, 1, 5.0 / 9.0);
    FinalScore(r, scores, 2, 5.0 / 9.0);
  }
}
