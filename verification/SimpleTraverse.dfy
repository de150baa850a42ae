/** Single-query beam search over the DHT graph. */
module SimpleTraverse {
  import opened XorMetric
  import opened Ranked
  import opened Counting
  import opened Beam

  /** Drops the ids that are already visited, keeping order and repetitions. */
  function Unseen(s: seq<nat>, visited: set<nat>): (r: seq<nat>)
    ensures forall n :: n in r <==> n in s && n !in visited
  {
    if s == [] then []
    else if s[0] in visited then Unseen(s[1..], visited)
    else [s[0]] + Unseen(s[1..], visited)
  }

  lemma {:induction false} UnseenDistinct(s: seq<nat>, visited: set<nat>)
    requires Distinct(s)
    ensures Distinct(Unseen(s, visited))
  {
    if s != [] { UnseenDistinct(s[1..], visited); }
  }

  ghost predicate InSpace(s: set<nat>, width: nat) {
    forall n :: n in s ==> n < Pow2(width)
  }

  ghost predicate RepliesInSpace(oracle: (nat, nat) -> Reply, width: nat) {
    forall i, n, m :: m in oracle(i, n).neighbors ==> m < Pow2(width)
  }

  /** Everything that was reported by the nodes asked. */
  ghost function Reported(oracle: (nat, nat) -> Reply, asked: seq<nat>): (r: set<nat>) {
    set i, m | 0 <= i < |asked| && m in oracle(i, asked[i]).neighbors :: m
  }

  lemma {:induction false} ReportedPush(oracle: (nat, nat) -> Reply, asked: seq<nat>, node: nat)
    ensures Reported(oracle, asked + [node]) == Reported(oracle, asked) + Members(oracle(|asked|, node).neighbors)
  {
    var more := asked + [node];
    assert forall i :: 0 <= i < |asked| ==> more[i] == asked[i];
    assert more[|asked|] == node;
    forall m | m in Reported(oracle, asked) ensures m in Reported(oracle, more) {
      var i :| 0 <= i < |asked| && m in oracle(i, asked[i]).neighbors;
      assert m in oracle(i, more[i]).neighbors;
    }
    forall m | m in oracle(|asked|, node).neighbors ensures m in Reported(oracle, more) {
      assert m in oracle(|asked|, more[|asked|]).neighbors;
    }
  }

  /** No list of nodes given to the search repeats a node. */
  ghost predicate Tidy(oracle: (nat, nat) -> Reply, initial: seq<nat>) {
    Distinct(initial) && forall i, n :: Distinct(oracle(i, n).neighbors)
  }

  /** The search knows exactly the unvisited initial nodes and the unvisited nodes reported to it. */
  ghost predicate Ledger(oracle: (nat, nat) -> Reply, initial: seq<nat>, visited0: set<nat>,
                         visited: set<nat>, discovered: seq<nat>, asked: seq<nat>)
  {
    && visited == visited0 + Members(discovered)
    && Members(discovered) == (Members(initial) + Reported(oracle, asked)) - visited0
    && Members(asked) <= Members(discovered)
    && (Tidy(oracle, initial) ==> Distinct(discovered))
  }

  /** Every node is asked and waits to be asked no more often, together, than it was discovered. */
  ghost predicate Balanced(discovered: seq<nat>, asked: seq<nat>, waiting: seq<nat>) {
    multiset(asked) + multiset(waiting) <= multiset(discovered)
  }

  /** What holds of the heaps between two rounds. */
  ghost predicate Beaming(q: nat, beam: nat, discovered: seq<nat>, asked: seq<nat>, waiting: seq<nat>,
                          nearest: seq<nat>)
  {
    Searching(q, beam, discovered, Members(asked), waiting, nearest) && Balanced(discovered, asked, waiting)
  }

  lemma {:induction false} BalancedAsk(discovered: seq<nat>, asked: seq<nat>, waiting: seq<nat>)
    requires Balanced(discovered, asked, waiting) && waiting != []
    ensures Balanced(discovered, asked + [waiting[0]], waiting[1..])
  {
    assert waiting == [waiting[0]] + waiting[1..];
  }

  lemma {:induction false} BalancedPush(q: nat, discovered: seq<nat>, asked: seq<nat>, waiting: seq<nat>, x: nat)
    requires Balanced(discovered, asked, waiting)
    ensures Balanced(discovered + [x], asked, waiting) && Balanced(discovered + [x], asked, Insert(Dist(q), waiting, x))
  {
    InsertContents(Dist(q), waiting, x);
  }

  lemma {:induction false} DistinctConcat(s: seq<nat>, t: seq<nat>)
    requires Distinct(s) && Distinct(t) && Members(s) !! Members(t)
    ensures Distinct(s + t)
  {
    forall i, j | 0 <= i < j < |s + t| ensures (s + t)[i] != (s + t)[j] {
      if i < |s| <= j { assert s[i] in Members(s) && t[j - |s|] in Members(t); }
    }
  }

  lemma {:induction false} LedgerStart(oracle: (nat, nat) -> Reply, initial: seq<nat>, visited0: set<nat>)
    ensures var start := Unseen(initial, visited0);
            Ledger(oracle, initial, visited0, visited0 + Members(start), start, [])
  {
    if Tidy(oracle, initial) { UnseenDistinct(initial, visited0); }
    assert Members<nat>([]) == {};
  }

  lemma {:induction false} LedgerStep(oracle: (nat, nat) -> Reply, initial: seq<nat>, visited0: set<nat>,
                                      visited: set<nat>, discovered: seq<nat>, asked: seq<nat>, node: nat)
    requires Ledger(oracle, initial, visited0, visited, discovered, asked) && node in discovered
    ensures var batch := Unseen(oracle(|asked|, node).neighbors, visited);
            Ledger(oracle, initial, visited0, visited + Members(batch), discovered + batch, asked + [node])
  {
    var batch := Unseen(oracle(|asked|, node).neighbors, visited);
    if Tidy(oracle, initial) {
      UnseenDistinct(oracle(|asked|, node).neighbors, visited);
      DistinctConcat(discovered, batch);
    }
    ReportedPush(oracle, asked, node);
    assert Members(discovered + batch) == Members(discovered) + Members(batch);
    assert Members(asked + [node]) == Members(asked) + {node};
  }

  /** Each answered node either brings new ids or leaves one node less to ask. */
  lemma {:induction false} Progress(visited: set<nat>, batch: seq<nat>, width: nat)
    requires InSpace(visited, width) && forall n :: n in batch ==> n < Pow2(width) && n !in visited
    ensures InSpace(visited + Members(batch), width)
    ensures |visited| <= |visited + Members(batch)| <= Pow2(width)
    ensures batch != [] ==> |visited| < |visited + Members(batch)|
  {
    SubsetSize(visited, visited + Members(batch));
    SubsetSize(visited + Members(batch), Interval(0, Pow2(width)));
    if batch != [] { assert batch[0] in Members(batch); }
  }

  /** Pushes one batch of new neighbours onto both heaps. */
  method PushNeighbors(q: nat, beam: nat, batch: seq<nat>, ghost discovered: seq<nat>, ghost asked: seq<nat>,
                       waiting: seq<nat>, nearest: seq<nat>)
    returns (waiting': seq<nat>, nearest': seq<nat>)
    requires nearest != [] && Beaming(q, beam, discovered, asked, waiting, nearest)
    ensures nearest' != [] && Beaming(q, beam, discovered + batch, asked, waiting', nearest')
    ensures batch == [] ==> waiting' == waiting
  {
    waiting', nearest' := waiting, nearest;
    ghost var known := discovered;
    for i := 0 to |batch|
      invariant nearest' != [] && known == discovered + batch[..i]
      invariant Beaming(q, beam, known, asked, waiting', nearest')
      invariant i == 0 ==> waiting' == waiting
    {
      waiting', nearest' := PushOne(q, beam, batch[i], known, asked, waiting', nearest');
      AppendNext(discovered, batch, i);
      known := known + [batch[i]];
    }
    assert batch[..|batch|] == batch;
  }

  lemma {:induction false} AppendNext(s: seq<nat>, t: seq<nat>, i: nat)
    requires i < |t|
    ensures s + t[..i + 1] == s + t[..i] + [t[i]]
  {
  }

  /** Pushes one new neighbour onto both heaps if it is near enough. */
  method PushOne(q: nat, beam: nat, x: nat, ghost discovered: seq<nat>, ghost asked: seq<nat>,
                 waiting: seq<nat>, nearest: seq<nat>)
    returns (waiting': seq<nat>, nearest': seq<nat>)
    requires nearest != [] && Beaming(q, beam, discovered, asked, waiting, nearest)
    ensures nearest' != [] && Beaming(q, beam, discovered + [x], asked, waiting', nearest')
  {
    waiting', nearest' := waiting, nearest;
    var distance, upperBound := Xor(q, x), Xor(q, nearest[|nearest| - 1]);
    NearestBasics(q, beam, discovered);
    LastIsFarthest(q, nearest);
    BalancedPush(q, discovered, asked, waiting, x);
    if distance <= upperBound || |nearest| < beam {
      PushStep(q, beam, discovered, Members(asked), waiting, nearest, x);
      waiting' := Insert(Dist(q), waiting, x);
      nearest' := First(beam, Insert(Dist(q), nearest, x));
    } else {
      SkipStep(q, beam, discovered, Members(asked), waiting, nearest, x);
    }
  }

  /** The last node asked told the search to stop. */
  predicate StopRequested(oracle: (nat, nat) -> Reply, asked: seq<nat>) {
    asked != [] && oracle(|asked| - 1, asked[|asked| - 1]).stop
  }

  lemma {:induction false} StopPush(oracle: (nat, nat) -> Reply, asked: seq<nat>, node: nat)
    ensures StopRequested(oracle, asked + [node]) == oracle(|asked|, node).stop
  {
    var s := asked + [node];
    assert |s| - 1 == |asked| && s[|asked|] == node;
  }

  /** What a search is given: `oracle(i, n)` is what node `n` answers as the `i`-th node asked. */
  datatype Query = Query(q: nat, beam: nat, initial: seq<nat>, oracle: (nat, nat) -> Reply, visited0: set<nat>)

  /** What a search keeps between two rounds: both heaps, the nodes visited and those asked, in order. */
  datatype State = State(visited: set<nat>, asked: seq<nat>, waiting: seq<nat>, nearest: seq<nat>)

  /** What holds between two rounds; `discovered` lists every node the search learned of. */
  ghost predicate Rounds(t: Query, width: nat, s: State, discovered: seq<nat>) {
    && s.nearest != [] && Beaming(t.q, t.beam, discovered, s.asked, s.waiting, s.nearest)
    && Ledger(t.oracle, t.initial, t.visited0, s.visited, discovered, s.asked) && InSpace(s.visited, width)
  }

  lemma {:induction false} AskRound(t: Query, width: nat, s: State, discovered: seq<nat>)
    requires s.waiting != [] && Rounds(t, width, s, discovered) && RepliesInSpace(t.oracle, width)
    ensures Beaming(t.q, t.beam, discovered, s.asked + [s.waiting[0]], s.waiting[1..], s.nearest)
    ensures var node := s.waiting[0];
            var batch := Unseen(t.oracle(|s.asked|, node).neighbors, s.visited);
            var visited := s.visited + Members(batch);
            && Ledger(t.oracle, t.initial, t.visited0, visited, discovered + batch, s.asked + [node])
            && InSpace(visited, width) && |s.visited| <= |visited| <= Pow2(width)
            && (batch != [] ==> |s.visited| < |visited|)
  {
    AskStep(t.q, t.beam, discovered, Members(s.asked), s.waiting, s.nearest);
    MembersPush(s.asked, s.waiting[0]);
    BalancedAsk(discovered, s.asked, s.waiting);
    LedgerStep(t.oracle, t.initial, t.visited0, s.visited, discovered, s.asked, s.waiting[0]);
    var neighbors := t.oracle(|s.asked|, s.waiting[0]).neighbors;
    assert forall n :: n in Unseen(neighbors, s.visited) ==> n in neighbors && n < Pow2(width);
    Progress(s.visited, Unseen(neighbors, s.visited), width);
  }

  /** Asks the nearest waiting node and learns from its answer. */
  method AskNext(t: Query, ghost width: nat, s: State, ghost discovered: seq<nat>)
    returns (s': State, ghost discovered': seq<nat>, stop: bool)
    requires s.waiting != [] && Rounds(t, width, s, discovered) && RepliesInSpace(t.oracle, width)
    ensures Rounds(t, width, s', discovered')
    ensures s'.asked == s.asked + [s.waiting[0]] && stop == StopRequested(t.oracle, s'.asked)
    ensures |s.visited| <= |s'.visited| <= Pow2(width)
    ensures |s'.visited| > |s.visited| || |s'.waiting| < |s.waiting|
  {
    var node := s.waiting[0];
    AskRound(t, width, s, discovered);
    StopPush(t.oracle, s.asked, node);
    var reply := t.oracle(|s.asked|, node);
    var asked := s.asked + [node];
    var batch := Unseen(reply.neighbors, s.visited);
    var visited := s.visited + (set n | n in batch);
    var waiting, nearest := PushNeighbors(t.q, t.beam, batch, discovered, asked, s.waiting[1..], s.nearest);
    s', discovered', stop := State(visited, asked, waiting, nearest), discovered + batch, reply.stop;
  }

  /**
   * Beam search for the `beam` nodes nearest to `q`. `discovered` lists every node the search learned
   * of and `asked` the nodes it asked, in order; `oracle(i, n)` is what node `n` answers as the
   * `i`-th node asked. No node is asked more often than it was discovered, so none twice if no list
   * given to the search repeats a node.
   */
  method SimpleTraverse(q: nat, initial: seq<nat>, beam: nat, oracle: (nat, nat) -> Reply, visited0: set<nat>,
                        ghost width: nat)
    returns (nearest: seq<nat>, visited: set<nat>, interrupted: bool, asked: seq<nat>, ghost discovered: seq<nat>)
    requires beam > 0
    requires forall n :: n in initial || n in visited0 ==> n < Pow2(width)
    requires RepliesInSpace(oracle, width)
    ensures nearest == First(beam, SortBy(Dist(q), discovered))
    ensures Ledger(oracle, initial, visited0, visited, discovered, asked)
    ensures multiset(asked) <= multiset(discovered) && (Tidy(oracle, initial) ==> Distinct(asked))
    ensures !interrupted ==> forall n :: n in nearest ==> n in asked
    ensures interrupted == StopRequested(oracle, asked)
  {
    visited := visited0;
    var start := Unseen(initial, visited);
    interrupted, asked, discovered := false, [], start;
    assert Ledger(oracle, initial, visited0, visited0 + Members(start), start, []) by {
      LedgerStart(oracle, initial, visited0);
    }
    visited := visited + (set n | n in start);
    if start == [] { return [], visited, interrupted, asked, discovered; }
    var waiting := SortBy(Dist(q), start);
    nearest := First(beam, waiting);
    assert Beaming(q, beam, start, [], waiting, nearest) by { StartStep(q, beam, start); }
    var s;
    s, discovered, interrupted :=
      Explore(Query(q, beam, initial, oracle, visited0), width, State(visited, asked, waiting, nearest), start);
    nearest, visited, asked := s.nearest, s.visited, s.asked;
    EndStep(Query(q, beam, initial, oracle, visited0), width, s, discovered, interrupted);
  }

  /** Some waiting node is not farther than the end of the beam. */
  predicate Promising(q: nat, waiting: seq<nat>, nearest: seq<nat>)
    requires nearest != []
  {
    waiting != [] && Xor(q, waiting[0]) <= Xor(q, nearest[|nearest| - 1])
  }

  /** The rounds of the search, until it is told to stop or no waiting node lies within the beam. */
  method Explore(t: Query, ghost width: nat, s: State, ghost discovered: seq<nat>)
    returns (s': State, ghost discovered': seq<nat>, interrupted: bool)
    requires Rounds(t, width, s, discovered) && s.asked == [] && RepliesInSpace(t.oracle, width)
    ensures Rounds(t, width, s', discovered')
    ensures interrupted == StopRequested(t.oracle, s'.asked)
    ensures interrupted || !Promising(t.q, s'.waiting, s'.nearest)
  {
    s', discovered', interrupted := s, discovered, false;
    while !interrupted && Promising(t.q, s'.waiting, s'.nearest)
      invariant Rounds(t, width, s', discovered')
      invariant interrupted == StopRequested(t.oracle, s'.asked)
      decreases Pow2(width) - |s'.visited|, |s'.waiting|
    {
      s', discovered', interrupted := AskNext(t, width, s', discovered');
    }
  }

  lemma {:induction false} EndStep(t: Query, width: nat, s: State, discovered: seq<nat>, interrupted: bool)
    requires Rounds(t, width, s, discovered) && (interrupted || !Promising(t.q, s.waiting, s.nearest))
    ensures s.nearest == First(t.beam, SortBy(Dist(t.q), discovered)) && multiset(s.asked) <= multiset(discovered)
    ensures Tidy(t.oracle, t.initial) ==> Distinct(s.asked)
    ensures !interrupted ==> forall n :: n in s.nearest ==> n in s.asked
  {
    if !interrupted { BeamExhausted(t.q, t.beam, discovered, Members(s.asked), s.waiting, s.nearest); }
    if Tidy(t.oracle, t.initial) { DistinctPart(s.asked, discovered); }
  }

  lemma {:induction false} StartStep(q: nat, beam: nat, start: seq<nat>)
    requires start != [] && beam > 0
    ensures Beaming(q, beam, start, [], SortBy(Dist(q), start), First(beam, SortBy(Dist(q), start)))
  {
    SortAscending(Dist(q), start);
    SortContents(Dist(q), start);
    SameMembers(SortBy(Dist(q), start), start);
  }
}
