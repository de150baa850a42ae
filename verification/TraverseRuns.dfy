/** Whole runs of the concurrent search: what they return, that they never get stuck, and that they end. */
module TraverseRuns {
  import opened XorMetric
  import opened Ranked
  import opened Counting
  import opened Beam
  import opened TraverseSystem
  import opened TraverseSafety

  ghost predicate Takes(c: Config, st: State, step: Step, st': State) {
    Shaped(c, st) && Enabled(c, st, step) && st' == Next(c, st, step)
  }

  /** The state is reached from the start by these steps, each enabled where it is taken. */
  ghost predicate Reached(c: Config, numWorkers: nat, steps: seq<Step>, st: State) {
    if steps == [] then st == Init(c, numWorkers)
    else
      var k := |steps| - 1;
      exists before :: Reached(c, numWorkers, steps[..k], before) && Takes(c, before, steps[k], st)
  }

  lemma {:induction false} TakesInv(c: Config, st: State, step: Step, st': State)
    requires c.Valid() && Inv(c, st) && Takes(c, st, step, st')
    ensures Inv(c, st')
  {
    StepInv(c, st, step);
  }

  /** Every state of every run satisfies the invariants. */
  lemma {:induction false} RunInv(c: Config, numWorkers: nat, steps: seq<Step>, st: State)
    requires c.Valid() && numWorkers > 0 && Reached(c, numWorkers, steps, st)
    ensures Inv(c, st)
    decreases |steps|
  {
    if steps == [] {
      InitInv(c, numWorkers);
    } else {
      var k := |steps| - 1;
      var before :| Reached(c, numWorkers, steps[..k], before) && Takes(c, before, steps[k], st);
      RunInv(c, numWorkers, steps[..k], before);
      TakesInv(c, before, steps[k], st);
    }
  }

  // ---------------------------------------------------------------- results

  /** A node that was learned but did not make it into the beam is farther than the whole beam. */
  lemma {:induction false} LeftOutIsFarther(q: nat, beam: nat, learned: seq<nat>, n: nat, m: nat)
    requires var r := First(beam, SortBy(Dist(q), learned)); n in r && m in learned && m !in r
    ensures Xor(q, n) < Xor(q, m)
  {
    var r := First(beam, SortBy(Dist(q), learned));
    NearestMeaning(Dist(q), beam, learned);
    assert m in multiset(learned) - multiset(r);
    assert Dist(q)(n) <= Dist(q)(m);
    XorInjective(q, n, m);
  }

  /**
   * The result of a query that ends without being told to stop: the `beam` nearest of all nodes
   * reported for it, each of them asked and answered (or marked visited beforehand), and whatever an
   * asked peer reported is in the result or farther than all of it. The query finishes exactly once.
   */
  lemma {:induction false} SearchResult(c: Config, numWorkers: nat, steps: seq<Step>, st: State, q: nat)
    requires c.Valid() && numWorkers > 0 && Reached(c, numWorkers, steps, st) && q in c.queries
    ensures q in st.search
    ensures var s := st.search[q];
            && s.finishes == (if q in st.unfinished then 0 else 1)
            && Distinct(s.asked) && Members(s.asked) !! c.Pre(q)
            && s.nearest == First(c.beam, SortBy(Dist(q), s.learned))
            && Members(s.learned) == s.heard && Extends(c.initial, s.learned)
            && (q !in st.unfinished && !s.stopped ==>
                  && (forall n :: n in s.nearest ==> n in c.Pre(q) || n in s.asked)
                  && (forall p :: p in s.asked ==> p in s.reports)
                  && (forall p, m, n ::
                        p in s.asked && p in s.reports && m in s.reports[p] && m !in s.nearest && n in s.nearest ==>
                          Xor(q, n) < Xor(q, m)))
  {
    RunInv(c, numWorkers, steps, st);
    assert q in Members(c.queries);
    var s := st.search[q];
    assert QueryInv(c, q, s, q in st.unfinished);
    if q !in st.unfinished && !s.stopped {
      forall n | n in s.nearest ensures n in c.Pre(q) || n in s.asked { assert n in s.visited; }
      forall p, m, n | p in s.asked && p in s.reports && m in s.reports[p] && m !in s.nearest && n in s.nearest
        ensures Xor(q, n) < Xor(q, m)
      {
        assert m in s.known && m in Members(s.learned);
        LeftOutIsFarther(q, c.beam, s.learned, n, m);
      }
    }
  }

  /** How many positions of the list hold nodes nearer than this one. */
  ghost function CountNearer(q: nat, s: seq<nat>, n: nat): (k: nat) {
    if s == [] then 0 else CountNearer(q, s[..|s| - 1], n) + (if Xor(q, s[|s| - 1]) < Xor(q, n) then 1 else 0)
  }

  lemma {:induction false} CountConcat(q: nat, s: seq<nat>, t: seq<nat>, n: nat)
    ensures CountNearer(q, s + t, n) == CountNearer(q, s, n) + CountNearer(q, t, n)
  {
    if t == [] {
      assert s + t == s;
    } else {
      var k := |t| - 1;
      CountConcat(q, s, t[..k], n);
      assert (s + t)[..|s + t| - 1] == s + t[..k];
    }
  }

  lemma {:induction false} CountOne(q: nat, x: nat, n: nat)
    ensures CountNearer(q, [x], n) == if Xor(q, x) < Xor(q, n) then 1 else 0
  {
    assert [x][..0] == [];
  }

  lemma {:induction false} CountInsert(q: nat, s: seq<nat>, x: nat, n: nat)
    ensures CountNearer(q, Insert(Dist(q), s, x), n) == CountNearer(q, s, n) + CountNearer(q, [x], n)
  {
    if s == [] || Dist(q)(x) < Dist(q)(s[0]) {
      CountConcat(q, [x], s, n);
    } else {
      CountInsert(q, s[1..], x, n);
      CountConcat(q, [s[0]], s[1..], n);
      CountConcat(q, [s[0]], Insert(Dist(q), s[1..], x), n);
      assert s == [s[0]] + s[1..];
    }
  }

  /** Sorting does not change how many are nearer. */
  lemma {:induction false} CountSorted(q: nat, s: seq<nat>, n: nat)
    ensures CountNearer(q, SortBy(Dist(q), s), n) == CountNearer(q, s, n)
  {
    if s != [] {
      var k := |s| - 1;
      SortStep(Dist(q), s);
      CountSorted(q, s[..k], n);
      CountInsert(q, SortBy(Dist(q), s[..k]), s[k], n);
      CountOne(q, s[k], n);
    }
  }

  /** In a sorted list as many positions are nearer as come before the first occurrence. */
  lemma {:induction false} CountBefore(q: nat, t: seq<nat>, i: nat, n: nat)
    requires i <= |t| && (forall j :: 0 <= j < i ==> Xor(q, t[j]) < Xor(q, n))
    requires forall j :: i <= j < |t| ==> Xor(q, t[j]) >= Xor(q, n)
    ensures CountNearer(q, t, n) == i
  {
    if t != [] { CountBefore(q, t[..|t| - 1], if i == |t| then i - 1 else i, n); }
  }

  lemma {:induction false} FirstOccurrence(t: seq<nat>, n: nat) returns (i: nat)
    requires n in t
    ensures i < |t| && t[i] == n && n !in t[..i]
  {
    var k := |t| - 1;
    assert t == t[..k] + [t[k]];
    if n in t[..k] {
      i := FirstOccurrence(t[..k], n);
      assert t[..k][..i] == t[..i];
    } else {
      i := k;
    }
  }

  lemma {:induction false} RankOfFirst(q: nat, t: seq<nat>, n: nat, i: nat)
    requires Ascending(Dist(q), t) && i < |t| && t[i] == n && n !in t[..i]
    ensures CountNearer(q, t, n) == i
  {
    forall j | 0 <= j < i ensures Xor(q, t[j]) < Xor(q, n) {
      assert t[..i][j] == t[j] && Dist(q)(t[j]) <= Dist(q)(t[i]);
      XorInjective(q, t[j], n);
    }
    forall j | i <= j < |t| ensures Xor(q, t[j]) >= Xor(q, n) {
      if i < j { assert Dist(q)(t[i]) <= Dist(q)(t[j]); }
    }
    CountBefore(q, t, i, n);
  }

  lemma {:induction false} RankIff(q: nat, beam: nat, learned: seq<nat>, n: nat)
    ensures n in First(beam, SortBy(Dist(q), learned)) <==> n in learned && CountNearer(q, learned, n) < beam
  {
    var t := SortBy(Dist(q), learned);
    SortAscending(Dist(q), learned);
    SortContents(Dist(q), learned);
    SameMembers(t, learned);
    if n in t {
      var i := FirstOccurrence(t, n);
      RankOfFirst(q, t, n, i);
      CountSorted(q, learned, n);
      if i < beam { assert First(beam, t)[i] == n; }
      assert beam <= i ==> n !in First(beam, t) by { assert beam <= i ==> t[..beam] <= t[..i]; }
    }
  }

  ghost function Nearer(q: nat, heard: set<nat>, n: nat): set<nat> {
    set m | m in heard && Xor(q, m) < Xor(q, n)
  }

  /** Nodes after the base count once each. */
  lemma {:induction false} ExtendCount(q: nat, base: seq<nat>, s: seq<nat>, n: nat)
    requires Extends(base, s)
    ensures CountNearer(q, s, n) == CountNearer(q, base, n) + |Nearer(q, Members(s) - Members(base), n)|
  {
    if |s| == |base| {
      assert s == base;
      assert Members(s) - Members(base) == {} && Nearer(q, {}, n) == {};
    } else {
      var k := |s| - 1;
      assert s == s[..k] + [s[k]];
      ExtendCount(q, base, s[..k], n);
      MembersPush(s[..k], s[k]);
      var rest := Members(s[..k]) - Members(base);
      assert s[k] !in s[..k] && s[k] !in base;
      assert Members(s) - Members(base) == rest + {s[k]};
      NearerPush(q, rest, s[k], n);
    }
  }

  lemma {:induction false} NearerPush(q: nat, heard: set<nat>, x: nat, n: nat)
    requires x !in heard
    ensures |Nearer(q, heard + {x}, n)| == |Nearer(q, heard, n)| + (if Xor(q, x) < Xor(q, n) then 1 else 0)
  {
    var a, b := Nearer(q, heard, n), Nearer(q, heard + {x}, n);
    assert b == if Xor(q, x) < Xor(q, n) then a + {x} else a;
  }

  /**
   * Exactly when a node is in the result of a query: it was reported, and fewer nodes than the beam
   * holds are nearer, counting a node as often as the initial list repeats it and every other node
   * once. Having been marked visited beforehand makes no difference.
   */
  lemma {:induction false} ReturnedIff(c: Config, numWorkers: nat, steps: seq<Step>, st: State, q: nat, n: nat)
    requires c.Valid() && numWorkers > 0 && Reached(c, numWorkers, steps, st) && q in c.queries
    ensures q in st.search
    ensures var s := st.search[q];
            n in s.nearest <==>
            n in s.heard && CountNearer(q, c.initial, n) + |Nearer(q, s.heard - Members(c.initial), n)| < c.beam
  {
    SearchResult(c, numWorkers, steps, st, q);
    RankIff(q, c.beam, st.search[q].learned, n);
    ExtendCount(q, c.initial, st.search[q].learned, n);
  }

  /**
   * A run of two steps that returns a node although it was marked visited beforehand: it is popped,
   * skipped and kept.
   */
  lemma {:induction false} PreVisitedReturned(c: Config, q: nat, n: nat) returns (st1: State, st2: State)
    requires c == Config([q], [n], 1, 1, c.width, map[q := {n}]) && n < Pow2(c.width)
    ensures c.Valid() && n in c.Pre(q)
    ensures Takes(c, Init(c, 1), Skip(0, q), st1) && Takes(c, st1, FinishAll(0, q), st2)
    ensures q in st2.search && q !in st2.unfinished && !st2.search[q].stopped && st2.search[q].nearest == [n]
  {
    st1 := SkipPreVisited(c, q, n);
    st2 := FinishEmpty(c, q, st1);
  }

  lemma {:induction false} SkipPreVisited(c: Config, q: nat, n: nat) returns (st: State)
    requires c == Config([q], [n], 1, 1, c.width, map[q := {n}]) && n < Pow2(c.width)
    ensures Takes(c, Init(c, 1), Skip(0, q), st) && Shaped(c, st) && st.workers == [Ready] && st.unfinished == {q}
    ensures st.active == map[q := 0] && st.search[q].candidates == []
    ensures st.search[q].nearest == [n] && !st.search[q].stopped
  {
    var st0 := Init(c, 1);
    OneNodeStart(c, q, n);
    assert Members([q]) == {q};
    assert Picks(c, st0, 0, q);
    st := AfterSkip(c, st0, q);
    assert st0.workers == [Ready];
    assert st.search.Keys == {q};
  }

  lemma {:induction false} FinishEmpty(c: Config, q: nat, st: State) returns (st': State)
    requires Shaped(c, st) && st.workers == [Ready] && st.unfinished == {q} && st.active == map[q := 0]
    requires st.search[q].candidates == [] && !st.search[q].stopped
    ensures Takes(c, st, FinishAll(0, q), st') && q in st'.search && q !in st'.unfinished
    ensures st'.search[q].nearest == st.search[q].nearest && !st'.search[q].stopped
  {
    assert Picks(c, st, 0, q);
    st' := AfterFinishAll(st, 0);
  }

  lemma {:induction false} OneNodeStart(c: Config, q: nat, n: nat)
    requires c.initial == [n] && c.beam == 1 && c.preVisited == map[q := {n}]
    ensures StartSearch(c, q) == Search([n], [n], {n}, {n}, [n], {n}, [], map[], false, 0)
  {
    assert SortBy(Dist(q), [n]) == Insert(Dist(q), [], n) == [n] + [] == [n];
    assert Members([n]) == {n};
  }

  /** When the first worker leaves, every query has finished. */
  lemma {:induction false} FirstExitMeansFinished(c: Config, numWorkers: nat, steps: seq<Step>, st: State, w: nat)
    requires c.Valid() && numWorkers > 0 && Reached(c, numWorkers, steps, st)
    requires w < |st.workers| && st.workers[w].Done?
    ensures st.unfinished == {}
    ensures forall q :: q in c.queries ==> q in st.search && st.search[q].finishes == 1
  {
    RunInv(c, numWorkers, steps, st);
    assert WorkerOk(st.workers[w], st.unfinished);
    forall q | q in c.queries ensures q in st.search && st.search[q].finishes == 1 {
      assert q in Members(c.queries);
      assert QueryInv(c, q, st.search[q], false);
    }
  }

  // ---------------------------------------------------------------- how the work is spread

  /** No candidate of the other query is nearer to it than this node is to its own. */
  ghost predicate NoNearer(distance: int, s: Search, q: nat) {
    forall n :: n in s.candidates ==> distance <= Xor(q, n)
  }

  /**
   * In every run a request is sent for a query with the fewest requests in flight among those that have
   * candidates, and among equally busy ones for the query with the nearest candidate.
   */
  lemma {:induction false} WorkSpreads(c: Config, numWorkers: nat, steps: seq<Step>, st: State, w: nat, q: nat,
                                       extra: set<nat>, p: nat)
    requires c.Valid() && numWorkers > 0 && Reached(c, numWorkers, steps, st)
    requires Shaped(c, st) && Enabled(c, st, Request(w, q, extra))
    requires p in st.unfinished && HasCandidates(c, p, st.search[p])
    ensures Count(st.workers, q) <= Count(st.workers, p)
    ensures Count(st.workers, q) == Count(st.workers, p) ==>
              NoNearer(Xor(q, st.search[q].candidates[0]), st.search[p], p)
  {
    RunInv(c, numWorkers, steps, st);
    assert st.active[p] == Count(st.workers, p) && st.active[q] == Count(st.workers, q);
    assert Prefers(c, st, q, p);
    var ns := st.search[p].candidates;
    assert Ascending(Dist(p), ns) by { assert QueryInv(c, p, st.search[p], true); }
    forall n | n in ns ensures Xor(p, ns[0]) <= Xor(p, n) {
      var i :| 0 <= i < |ns| && ns[i] == n;
      assert i > 0 ==> Dist(p)(ns[0]) <= Dist(p)(ns[i]);
    }
  }

  /** A worker waits, or finishes the search, only when no unfinished query has a candidate. */
  lemma {:induction false} IdleOnlyWithoutWork(c: Config, st: State, w: nat, q: nat, p: nat)
    requires Shaped(c, st) && p in st.unfinished
    requires Enabled(c, st, Wait(w, q)) || Enabled(c, st, FinishAll(w, q))
    ensures !HasCandidates(c, p, st.search[p])
  {
    assert Prefers(c, st, q, p);
  }

  // ---------------------------------------------------------------- progress

  /** Among finitely many queries some query is preferred to all others. */
  lemma {:induction false} PickExists(c: Config, st: State, pool: set<nat>) returns (q: nat)
    requires Shaped(c, st) && pool <= st.unfinished && pool != {}
    ensures q in pool && forall q' :: q' in pool ==> Prefers(c, st, q, q')
    decreases |pool|
  {
    q :| q in pool;
    if pool != {q} {
      var rest := pool - {q};
      assert pool == rest + {q};
      var r := PickExists(c, st, rest);
      if !Prefers(c, st, q, r) { q := r; }
    }
  }

  lemma {:induction false} NearestExists(peer: nat, pool: set<nat>, n: int) returns (chosen: set<nat>)
    ensures NearestOf(peer, pool, n, chosen)
    decreases |pool|
  {
    if n <= 0 || pool == {} {
      chosen := {};
    } else {
      var x := NearestMember(peer, pool);
      var rest := pool - {x};
      assert pool == rest + {x};
      var more := NearestExists(peer, rest, n - 1);
      chosen := more + {x};
      forall y, z | y in chosen && z in pool - chosen ensures Xor(peer, y) < Xor(peer, z) {
        if y == x { XorInjective(peer, x, z); } else { assert z in rest - more; }
      }
    }
  }

  lemma {:induction false} NearestMember(peer: nat, pool: set<nat>) returns (x: nat)
    requires pool != {}
    ensures x in pool && forall y :: y in pool ==> Xor(peer, x) <= Xor(peer, y)
    decreases |pool|
  {
    x :| x in pool;
    if pool != {x} {
      var rest := pool - {x};
      assert pool == rest + {x};
      var r := NearestMember(peer, rest);
      if Xor(peer, r) < Xor(peer, x) { x := r; }
    }
  }

  /** A ready worker of an unfinished search always has something to do. */
  lemma {:induction false} ReadyCanMove(c: Config, st: State, w: nat) returns (step: Step)
    requires Shaped(c, st) && w < |st.workers| && st.workers[w].Ready? && st.unfinished != {}
    ensures Enabled(c, st, step)
  {
    var q := PickExists(c, st, st.unfinished);
    assert Picks(c, st, w, q);
    if !HasCandidates(c, q, st.search[q]) {
      step := if Busy(st) then Wait(w, q) else FinishAll(w, q);
    } else {
      var peer := st.search[q].candidates[0];
      if peer in st.search[q].visited {
        step := Skip(w, q);
      } else {
        var extra := NearestExists(peer, Possible(st, q, peer), c.queriesPerCall - 1);
        step := Request(w, q, extra);
      }
    }
  }

  /** No run gets stuck: until the first worker leaves, some step is enabled. */
  lemma {:induction false} NeverStuck(c: Config, numWorkers: nat, steps: seq<Step>, st: State) returns (step: Step)
    requires c.Valid() && numWorkers > 0 && Reached(c, numWorkers, steps, st)
    requires Done !in st.workers
    ensures Shaped(c, st) && Enabled(c, st, step)
  {
    RunInv(c, numWorkers, steps, st);
    var w :| 0 <= w < |st.workers| && !st.workers[w].Waiting?;
    if st.workers[w].InFlight? {
      step := if st.unfinished == {} then Abort(w) else Answer(w, map[]);
    } else {
      assert st.workers[w].Ready? by { assert st.workers[w] in st.workers; }
      if st.unfinished == {} { step := Exit(w); } else { step := ReadyCanMove(c, st, w); }
    }
  }

  // ---------------------------------------------------------------- termination

  ghost function Sum(f: map<nat, nat>, qs: seq<nat>): nat
    requires Members(qs) <= f.Keys
  {
    if qs == [] then 0
    else
      var k := |qs| - 1;
      assert qs[k] in Members(qs);
      assert Members(qs[..k]) <= Members(qs);
      Sum(f, qs[..k]) + f[qs[k]]
  }

  lemma {:induction false} SumMonotone(f: map<nat, nat>, g: map<nat, nat>, qs: seq<nat>)
    requires Members(qs) <= f.Keys && Members(qs) <= g.Keys
    requires forall q :: q in qs ==> f[q] <= g[q]
    ensures Sum(f, qs) <= Sum(g, qs)
    ensures (exists q :: q in qs && f[q] < g[q]) ==> Sum(f, qs) < Sum(g, qs)
  {
    if qs != [] {
      var k := |qs| - 1;
      assert qs[k] in Members(qs);
      assert Members(qs[..k]) <= Members(qs);
      SumMonotone(f, g, qs[..k]);
      if exists q :: q in qs && f[q] < g[q] {
        var q :| q in qs && f[q] < g[q];
        assert q == qs[k] || q in qs[..k];
      }
    }
  }

  /** How many requests a query can still make, at most. */
  ghost function Unasked(c: Config, s: Search): nat {
    if |s.asked| <= Pow2(c.width) then Pow2(c.width) - |s.asked| else 0
  }

  ghost function UnaskedOf(c: Config, search: map<nat, Search>): map<nat, nat> {
    map q | q in search :: Unasked(c, search[q])
  }

  ghost function QueuedOf(search: map<nat, Search>): map<nat, nat> {
    map q | q in search :: |search[q].candidates|
  }

  ghost function Flying(ws: seq<Worker>): nat {
    if ws == [] then 0 else Flying(ws[..|ws| - 1]) + (if ws[|ws| - 1].InFlight? then 1 else 0)
  }

  ghost function ReadyCount(ws: seq<Worker>): nat {
    if ws == [] then 0 else ReadyCount(ws[..|ws| - 1]) + (if ws[|ws| - 1].Ready? then 1 else 0)
  }

  datatype Measure = Measure(unasked: nat, flying: nat, queued: nat, ready: nat)

  ghost function MeasureOf(c: Config, st: State): Measure
    requires Shaped(c, st)
  {
    Measure(Sum(UnaskedOf(c, st.search), c.queries), Flying(st.workers),
            Sum(QueuedOf(st.search), c.queries), ReadyCount(st.workers))
  }

  ghost predicate Less(a: Measure, b: Measure) {
    || a.unasked < b.unasked
    || (a.unasked == b.unasked &&
        (|| a.flying < b.flying
         || (a.flying == b.flying && (a.queued < b.queued || (a.queued == b.queued && a.ready < b.ready)))))
  }

  ghost predicate Shrinks(c: Config, st: State, st': State) {
    Shaped(c, st) && Shaped(c, st') && Less(MeasureOf(c, st'), MeasureOf(c, st))
  }

  lemma {:induction false} CountsUpdate(ws: seq<Worker>, w: nat, x: Worker)
    requires w < |ws|
    ensures Flying(ws[w := x]) == Flying(ws) - (if ws[w].InFlight? then 1 else 0) + (if x.InFlight? then 1 else 0)
    ensures ReadyCount(ws[w := x]) == ReadyCount(ws) - (if ws[w].Ready? then 1 else 0) + (if x.Ready? then 1 else 0)
  {
    var last := |ws| - 1;
    if w == last {
      assert ws[w := x][..last] == ws[..last];
    } else {
      CountsUpdate(ws[..last], w, x);
      assert ws[w := x][..last] == ws[..last][w := x];
    }
  }

  lemma {:induction false} FlyingWake(ws: seq<Worker>)
    ensures Flying(Wake(ws)) == Flying(ws)
  {
    if ws != [] {
      FlyingWake(ws[..|ws| - 1]);
      assert Wake(ws)[..|ws| - 1] == Wake(ws[..|ws| - 1]);
    }
  }

  /** Distinctness bounds the number of requests of a query. */
  lemma {:induction false} AskedBounded(c: Config, q: nat, s: Search)
    requires AskedOnce(c, q, s)
    ensures |s.asked| <= Pow2(c.width)
  {
    DistinctBounded(s.asked, Pow2(c.width));
  }

  /** Sums over the queries for two search maps of the same shape. */
  lemma {:induction false} UnaskedShrinks(c: Config, search: map<nat, Search>, search': map<nat, Search>)
    requires Members(c.queries) <= search.Keys && search'.Keys == search.Keys
    requires forall q :: q in search ==> |search[q].asked| <= |search'[q].asked|
    ensures Sum(UnaskedOf(c, search'), c.queries) <= Sum(UnaskedOf(c, search), c.queries)
  {
    forall q | q in c.queries ensures UnaskedOf(c, search')[q] <= UnaskedOf(c, search)[q] {
      assert q in Members(c.queries);
    }
    SumMonotone(UnaskedOf(c, search'), UnaskedOf(c, search), c.queries);
  }

  lemma {:induction false} SameUnasked(c: Config, search: map<nat, Search>, search': map<nat, Search>)
    requires Members(c.queries) <= search.Keys && search'.Keys == search.Keys
    requires forall q :: q in search ==> |search[q].asked| == |search'[q].asked|
    ensures Sum(UnaskedOf(c, search'), c.queries) == Sum(UnaskedOf(c, search), c.queries)
  {
    UnaskedShrinks(c, search, search');
    UnaskedShrinks(c, search', search);
  }

  lemma {:induction false} SameQueued(c: Config, search: map<nat, Search>, search': map<nat, Search>)
    requires Members(c.queries) <= search.Keys && search'.Keys == search.Keys
    requires forall q :: q in search ==> |search[q].candidates| == |search'[q].candidates|
    ensures Sum(QueuedOf(search'), c.queries) == Sum(QueuedOf(search), c.queries)
  {
    assert QueuedOf(search') == QueuedOf(search);
  }

  lemma {:induction false} FewerQueued(c: Config, search: map<nat, Search>, q: nat, s: Search)
    requires Members(c.queries) <= search.Keys && q in c.queries
    requires q in search && |s.candidates| < |search[q].candidates|
    ensures Sum(QueuedOf(search[q := s]), c.queries) < Sum(QueuedOf(search), c.queries)
  {
    var f, g := QueuedOf(search[q := s]), QueuedOf(search);
    forall p | p in c.queries ensures f[p] <= g[p] { assert p in Members(c.queries); }
    assert f[q] < g[q];
    SumMonotone(f, g, c.queries);
  }

  lemma {:induction false} FewerUnasked(c: Config, search: map<nat, Search>, search': map<nat, Search>, q: nat)
    requires Members(c.queries) <= search.Keys && search'.Keys == search.Keys && q in c.queries && q in search
    requires forall p :: p in search ==> |search[p].asked| <= |search'[p].asked|
    requires |search[q].asked| < |search'[q].asked| <= Pow2(c.width)
    ensures Sum(UnaskedOf(c, search'), c.queries) < Sum(UnaskedOf(c, search), c.queries)
  {
    var f, g := UnaskedOf(c, search'), UnaskedOf(c, search);
    forall p | p in c.queries ensures f[p] <= g[p] { assert p in Members(c.queries); }
    assert f[q] < g[q];
    SumMonotone(f, g, c.queries);
  }

  /** The new request stays within the number of ids, because no peer is asked twice. */
  lemma {:induction false} RequestBounded(c: Config, st: State, w: nat, q: nat, extra: set<nat>)
    requires Inv(c, st) && Requestable(st, q, extra) && w < |st.workers| && st.workers[w].Ready?
    ensures var st' := AfterRequest(st, w, q, extra);
            Shaped(c, st') && q in st'.search && |st'.search[q].asked| <= Pow2(c.width)
  {
    var st' := AfterRequest(st, w, q, extra);
    RequestInv(c, st, w, q, extra);
    assert QueryInv(c, q, st'.search[q], q in st'.unfinished);
    AskedBounded(c, q, st'.search[q]);
  }

  lemma {:induction false} RequestShrinks(c: Config, st: State, w: nat, q: nat, extra: set<nat>)
    requires Shaped(c, st) && Requestable(st, q, extra) && w < |st.workers|
    requires var st' := AfterRequest(st, w, q, extra);
             Shaped(c, st') && q in st'.search && |st'.search[q].asked| <= Pow2(c.width)
    ensures Shrinks(c, st, AfterRequest(st, w, q, extra))
  {
    assert q in c.queries by { assert q in Members(c.queries); }
    FewerUnasked(c, st.search, AfterRequest(st, w, q, extra).search, q);
  }

  lemma {:induction false} AnswerShrinks(c: Config, st: State, w: nat, replies: map<nat, Reply>)
    requires c.Valid() && Inv(c, st) && Answerable(c, st, w, replies)
    ensures Shrinks(c, st, AfterAnswer(c, st, w, replies))
  {
    var st' := AfterAnswer(c, st, w, replies);
    AnswerInv(c, st, w, replies);
    forall p | p in st.search ensures |st.search[p].asked| == |st'.search[p].asked| { AnswerOne(c, st, w, replies, p); }
    SameUnasked(c, st.search, st'.search);
    CountsUpdate(st.workers, w, Ready);
    FlyingWake(st.workers[w := Ready]);
  }

  lemma {:induction false} IdleShrinks(c: Config, st: State, w: nat, x: Worker, search': map<nat, Search>,
                                       unfinished': set<nat>)
    requires Shaped(c, st) && w < |st.workers| && !x.InFlight? && !x.Ready?
    requires (st.workers[w].Ready? || st.workers[w].InFlight?)
    requires search'.Keys == st.search.Keys && unfinished' <= st.unfinished
    requires forall q :: q in search' ==>
               search'[q].asked == st.search[q].asked && search'[q].candidates == st.search[q].candidates
    ensures Shrinks(c, st, State(unfinished', search', st.active, st.workers[w := x]))
  {
    SameUnasked(c, st.search, search');
    SameQueued(c, st.search, search');
    CountsUpdate(st.workers, w, x);
  }

  lemma {:induction false} SkipShrinks(c: Config, st: State, q: nat)
    requires Shaped(c, st) && q in st.unfinished && st.search[q].candidates != []
    ensures Shrinks(c, st, st.(search := st.search[q := Pop(st.search[q])]))
  {
    var s, search := st.search[q], st.search[q := Pop(st.search[q])];
    assert search.Keys == st.search.Keys;
    assert q in c.queries by { assert q in Members(c.queries); }
    FewerQueued(c, st.search, q, Pop(s));
    SameUnasked(c, st.search, search);
  }

  lemma {:induction false} FinishShrinks(c: Config, st: State, w: nat)
    requires Shaped(c, st) && w < |st.workers| && st.workers[w].Ready?
    ensures Shrinks(c, st, AfterFinishAll(st, w))
  {
    IdleShrinks(c, st, w, Done, AfterFinishAll(st, w).search, {});
  }

  lemma {:induction false} RestShrinks(c: Config, st: State, step: Step)
    requires Shaped(c, st) && Enabled(c, st, step) && Resting(step)
    ensures Shrinks(c, st, Next(c, st, step))
  {
    match step
    case Exit(w) => IdleShrinks(c, st, w, Done, st.search, st.unfinished);
    case Wait(w, q) => IdleShrinks(c, st, w, Waiting, st.search, st.unfinished);
    case FinishAll(w, q) => FinishShrinks(c, st, w);
    case Abort(w) => IdleShrinks(c, st, w, Done, st.search, st.unfinished);
  }

  lemma {:induction false} WorkShrinks(c: Config, st: State, step: Step)
    requires c.Valid() && Inv(c, st) && Enabled(c, st, step) && !Resting(step)
    ensures Shrinks(c, st, Next(c, st, step))
  {
    match step
    case Skip(w, q) => EarlyFinishUnreachable(c, st, w, q); SkipShrinks(c, st, q);
    case Request(w, q, extra) =>
      RequestFacts(c, st, w, q, extra);
      RequestBounded(c, st, w, q, extra);
      RequestShrinks(c, st, w, q, extra);
    case Answer(w, replies) => AnswerShrinks(c, st, w, replies);
  }

  /** Every step makes the measure smaller. */
  lemma {:induction false} StepShrinks(c: Config, st: State, step: Step)
    requires c.Valid() && Inv(c, st) && Enabled(c, st, step)
    ensures Shrinks(c, st, Next(c, st, step))
  {
    if Resting(step) { RestShrinks(c, st, step); } else { WorkShrinks(c, st, step); }
  }

  /** The `i`-th step of an endless sequence is taken. */
  ghost predicate Follows(c: Config, f: nat -> State, g: nat -> Step, i: nat) {
    Takes(c, f(i), g(i), f(i + 1))
  }

  lemma {:induction false} FollowShrinks(c: Config, f: nat -> State, g: nat -> Step, i: nat)
    requires c.Valid() && Inv(c, f(i)) && Follows(c, f, g, i)
    ensures Inv(c, f(i + 1)) && Shrinks(c, f(i), f(i + 1))
  {
    TakesInv(c, f(i), g(i), f(i + 1));
    StepShrinks(c, f(i), g(i));
  }

  /** No endless sequence of steps starts at a state that satisfies the invariants. */
  lemma {:induction false} Descent(c: Config, f: nat -> State, g: nat -> Step, i: nat, m: Measure) returns (k: nat)
    requires c.Valid() && Inv(c, f(i)) && m == MeasureOf(c, f(i))
    ensures !Follows(c, f, g, k)
    decreases m.unasked, m.flying, m.queued, m.ready
  {
    if !Follows(c, f, g, i) {
      k := i;
    } else {
      FollowShrinks(c, f, g, i);
      k := Descent(c, f, g, i + 1, MeasureOf(c, f(i + 1)));
    }
  }

  /** Every run ends: whatever the peers answer and however steps interleave, some step is not taken. */
  lemma {:induction false} RunsEnd(c: Config, numWorkers: nat, f: nat -> State, g: nat -> Step) returns (k: nat)
    requires c.Valid() && numWorkers > 0 && f(0) == Init(c, numWorkers)
    ensures !Follows(c, f, g, k)
  {
    InitInv(c, numWorkers);
    k := Descent(c, f, g, 0, MeasureOf(c, f(0)));
  }
}
