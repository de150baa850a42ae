/** Every step of the concurrent search keeps its invariants, and what a finished query has then. */
module TraverseSafety {
  import opened XorMetric
  import opened Ranked
  import opened Counting
  import opened Beam
  import opened TraverseSystem

  // ---------------------------------------------------------------- one query

  /** What learning needs and keeps; `heard` is brought up to date once per reply. */
  ghost predicate Learning(c: Config, q: nat, s: Search) {
    && Searching(q, c.beam, s.learned, s.visited, s.candidates, s.nearest)
    && Members(s.learned) == s.known && Members(c.initial) <= s.known
    && Extends(c.initial, s.learned)
    && (forall n :: n in s.known ==> n < Pow2(c.width))
  }

  lemma {:induction false} LearnOneKeeps(c: Config, q: nat, s: Search, n: nat)
    requires c.beam > 0 && Learning(c, q, s) && n < Pow2(c.width)
    ensures var s' := LearnOne(c, q, s, n);
            && Learning(c, q, s') && s'.known == s.known + {n}
            && s' == s.(candidates := s'.candidates, nearest := s'.nearest, known := s'.known, learned := s'.learned)
  {
    if n !in s.known {
      LearnSearching(c, q, s, n);
      LearnMembers(c, s, n);
    }
  }

  lemma {:induction false} LearnMembers(c: Config, s: Search, n: nat)
    requires Members(s.learned) == s.known && n !in s.known && Extends(c.initial, s.learned)
    ensures Members(s.learned + [n]) == s.known + {n} && Extends(c.initial, s.learned + [n])
  {
    MembersPush(s.learned, n);
    assert n !in Members(s.learned);
    ExtendsPush(c.initial, s.learned, n);
  }

  lemma {:induction false} LearnSearching(c: Config, q: nat, s: Search, n: nat)
    requires c.beam > 0 && Searching(q, c.beam, s.learned, s.visited, s.candidates, s.nearest) && n !in s.known
    ensures var s' := LearnOne(c, q, s, n);
            Searching(q, c.beam, s.learned + [n], s.visited, s'.candidates, s'.nearest)
  {
    NearestBasics(q, c.beam, s.learned);
    if Within(c, q, s, n) || |s.nearest| < c.beam {
      PushStep(q, c.beam, s.learned, s.visited, s.candidates, s.nearest, n);
    } else {
      LastIsFarthest(q, s.nearest);
      SkipStep(q, c.beam, s.learned, s.visited, s.candidates, s.nearest, n);
    }
  }

  lemma {:induction false} LearnAllKeeps(c: Config, q: nat, s: Search, ns: seq<nat>)
    requires c.beam > 0 && Learning(c, q, s) && InSpace(ns, c.width)
    ensures var s' := LearnAll(c, q, s, ns);
            && Learning(c, q, s') && s'.known == s.known + Members(ns)
            && s' == s.(candidates := s'.candidates, nearest := s'.nearest, known := s'.known, learned := s'.learned)
  {
    if ns == [] {
      assert s.known + Members(ns) == s.known;
    } else {
      var k := |ns| - 1;
      LearnAllKeeps(c, q, s, ns[..k]);
      LearnOneKeeps(c, q, LearnAll(c, q, s, ns[..k]), ns[k]);
      assert Members(ns) == Members(ns[..k]) + {ns[k]} by {
        MembersPush(ns[..k], ns[k]);
        assert ns == ns[..k] + [ns[k]];
      }
    }
  }

  lemma {:induction false} AbsorbKeeps(c: Config, q: nat, s: Search, peer: nat, carried: bool, replies: map<nat, Reply>)
    requires c.beam > 0 && Sane(c, q, s) && AskedOnce(c, q, s) && (carried ==> peer in s.asked)
    requires q in replies ==> InSpace(replies[q].neighbors, c.width)
    ensures var s' := Absorb(c, q, s, peer, carried, replies);
            && Sane(c, q, s') && AskedOnce(c, q, s')
            && s'.asked == s.asked && s'.visited == s.visited
            && (q in replies && replies[q].stop ==> s'.stopped && s'.finishes == s.finishes + 1)
            && (!(q in replies && replies[q].stop) ==>
                  && s'.stopped == s.stopped && s'.finishes == s.finishes
                  && s'.reports.Keys == s.reports.Keys + (if carried then {peer} else {}))
  {
    if q in replies && !replies[q].stop { LearnAllKeeps(c, q, s, replies[q].neighbors); }
  }

  /** Asking a peer for a query whose heap may still hold it. */
  lemma {:induction false} MarkKeeps(c: Config, q: nat, s: Search, peer: nat)
    requires Sane(c, q, s) && AskedOnce(c, q, s) && peer !in s.visited && peer < Pow2(c.width)
    ensures Sane(c, q, Mark(s, peer)) && AskedOnce(c, q, Mark(s, peer))
    ensures s.candidates != [] && s.candidates[0] == peer ==>
              Sane(c, q, Mark(Pop(s), peer)) && AskedOnce(c, q, Mark(Pop(s), peer))
  {
    MembersPush(s.asked, peer);
    assert peer !in Members(s.asked);
    DistinctPush(s.asked, peer);
    forall n | n in s.learned ensures Handled(q, c.beam, n, s.visited + {peer}, s.candidates, s.nearest) {
      assert Handled(q, c.beam, n, s.visited, s.candidates, s.nearest);
    }
    if s.candidates != [] && s.candidates[0] == peer {
      AskStep(q, c.beam, s.learned, s.visited, s.candidates, s.nearest);
    }
  }

  lemma {:induction false} PopKeeps(c: Config, q: nat, s: Search)
    requires Sane(c, q, s) && AskedOnce(c, q, s) && s.candidates != [] && s.candidates[0] in s.visited
    ensures Sane(c, q, Pop(s)) && AskedOnce(c, q, Pop(s))
  {
    AskStep(q, c.beam, s.learned, s.visited, s.candidates, s.nearest);
    assert s.visited + {s.candidates[0]} == s.visited;
  }

  /** Without a candidate inside the beam every node of the beam has been visited. */
  lemma {:induction false} ExhaustedBeam(c: Config, q: nat, s: Search)
    requires Sane(c, q, s) && !HasCandidates(c, q, s)
    ensures forall n :: n in s.nearest ==> n in s.visited
  {
    if s.nearest != [] { BeamExhausted(q, c.beam, s.learned, s.visited, s.candidates, s.nearest); }
  }

  // ---------------------------------------------------------------- counting workers

  lemma {:induction false} CountUpdate(ws: seq<Worker>, w: nat, x: Worker, q: nat)
    requires w < |ws|
    ensures Count(ws[w := x], q)
         == Count(ws, q) - (if Carries(ws[w], q) then 1 else 0) + (if Carries(x, q) then 1 else 0)
  {
    var last := |ws| - 1;
    if w == last {
      assert ws[w := x][..last] == ws[..last];
    } else {
      CountUpdate(ws[..last], w, x, q);
      assert ws[w := x][..last] == ws[..last][w := x];
    }
  }

  lemma {:induction false} CountWake(ws: seq<Worker>, q: nat)
    ensures Count(Wake(ws), q) == Count(ws, q)
  {
    if ws != [] {
      CountWake(ws[..|ws| - 1], q);
      assert Wake(ws)[..|ws| - 1] == Wake(ws[..|ws| - 1]);
    }
  }

  lemma {:induction false} CountPositive(ws: seq<Worker>, q: nat)
    ensures Count(ws, q) > 0 <==> exists w :: 0 <= w < |ws| && Carries(ws[w], q)
  {
    if ws != [] {
      var last := |ws| - 1;
      CountPositive(ws[..last], q);
      if exists w :: 0 <= w < last && Carries(ws[w], q) {
        var w :| 0 <= w < last && Carries(ws[w], q);
        assert Carries(ws[..last][w], q);
      }
      if exists w :: 0 <= w < last && Carries(ws[..last][w], q) {
        var w :| 0 <= w < last && Carries(ws[..last][w], q);
        assert Carries(ws[w], q);
      }
    }
  }

  // ---------------------------------------------------------------- initial state

  lemma {:induction false} StartSane(c: Config, q: nat)
    requires c.Valid()
    ensures QueryInv(c, q, StartSearch(c, q), true)
  {
    SortAscending(Dist(q), c.initial);
    SortContents(Dist(q), c.initial);
    SameMembers(SortBy(Dist(q), c.initial), c.initial);
    assert c.Pre(q) + Members<nat>([]) == c.Pre(q);
  }

  lemma {:induction false} CountIdle(ws: seq<Worker>, q: nat)
    requires forall i :: 0 <= i < |ws| ==> !ws[i].InFlight?
    ensures Count(ws, q) == 0
  {
    if ws != [] { CountIdle(ws[..|ws| - 1], q); }
  }

  lemma {:induction false} InitInv(c: Config, numWorkers: nat)
    requires c.Valid() && numWorkers > 0
    ensures Inv(c, Init(c, numWorkers))
  {
    var st := Init(c, numWorkers);
    assert !st.workers[0].Waiting?;
    InitSearch(c, numWorkers);
    InitCount(c, numWorkers);
    assert st.search.Keys == Members(c.queries) && st.active.Keys == Members(c.queries);
  }

  lemma {:induction false} InitSearch(c: Config, numWorkers: nat)
    requires c.Valid()
    ensures var st := Init(c, numWorkers);
            SearchInv(c, st.search, st.unfinished) && FlightInv(st.workers, st.search, st.unfinished)
  {
    var st := Init(c, numWorkers);
    forall q | q in st.search ensures QueryInv(c, q, st.search[q], q in st.unfinished) { StartSane(c, q); }
  }

  lemma {:induction false} InitCount(c: Config, numWorkers: nat)
    ensures var st := Init(c, numWorkers); CountInv(st.workers, st.active, st.unfinished)
  {
    var st := Init(c, numWorkers);
    forall q | q in st.active ensures st.active[q] == Count(st.workers, q) { CountIdle(st.workers, q); }
  }

  // ---------------------------------------------------------------- a worker changes its place

  lemma {:induction false} StillPending(ws: seq<Worker>, w: nat, x: Worker, q: nat, s: Search)
    requires w < |ws| && !ws[w].InFlight? && Accounted(ws, q, s)
    ensures Accounted(ws[w := x], q, s)
  {
    forall p | p in s.asked && p !in s.reports ensures Pending(ws[w := x], q, p) {
      var i :| 0 <= i < |ws| && Carries(ws[i], q) && ws[i].peer == p;
      assert Carries(ws[w := x][i], q) && ws[w := x][i].peer == p;
    }
  }

  /** A worker without a request may go anywhere as far as the requests are concerned. */
  lemma {:induction false} MovedFlight(ws: seq<Worker>, w: nat, x: Worker, search: map<nat, Search>,
                                       unfinished: set<nat>)
    requires w < |ws| && !ws[w].InFlight? && FlightInv(ws, search, unfinished)
    ensures FlightInv(ws[w := x], search, unfinished)
  {
    forall q | q in unfinished && q in search ensures Accounted(ws[w := x], q, search[q]) {
      StillPending(ws, w, x, q, search[q]);
    }
  }

  lemma {:induction false} MovedCount(ws: seq<Worker>, w: nat, x: Worker, active: map<nat, int>, unfinished: set<nat>)
    requires w < |ws| && !ws[w].InFlight? && !x.InFlight? && CountInv(ws, active, unfinished)
    ensures CountInv(ws[w := x], active, unfinished)
  {
    if unfinished != {} {
      forall q | q in active ensures active[q] == Count(ws[w := x], q) { CountUpdate(ws, w, x, q); }
    }
  }

  lemma {:induction false} MovedNoted(ws: seq<Worker>, w: nat, x: Worker, search: map<nat, Search>)
    requires w < |ws| && Noted(x, search) && NotedInv(ws, search)
    ensures NotedInv(ws[w := x], search)
  {
    var ws' := ws[w := x];
    forall i | 0 <= i < |ws'| ensures Noted(ws'[i], search) {
      assert Noted(ws[i], search);
    }
  }

  /** Notes are never lost. */
  lemma {:induction false} NotesGrow(ws: seq<Worker>, search: map<nat, Search>, search': map<nat, Search>)
    requires NotedInv(ws, search) && search'.Keys == search.Keys
    requires forall q :: q in search ==> search[q].asked <= search'[q].asked
    ensures NotedInv(ws, search')
  {
    forall w | 0 <= w < |ws| ensures Noted(ws[w], search') {
      assert Noted(ws[w], search);
    }
  }

  lemma {:induction false} MovedWorkers(ws: seq<Worker>, w: nat, x: Worker, unfinished: set<nat>)
    requires w < |ws| && ws[w].Ready? && WorkerOk(x, unfinished) && WorkersInv(ws, unfinished)
    requires x.Waiting? ==> SomeInFlight(ws)
    ensures WorkersInv(ws[w := x], unfinished)
  {
    var ws' := ws[w := x];
    if x.Waiting? {
      var i :| 0 <= i < |ws| && ws[i].InFlight?;
      assert !ws'[i].Waiting?;
    } else {
      assert !ws'[w].Waiting?;
    }
    if unfinished != {} && Waiting in ws' {
      assert x.Waiting? || Waiting in ws by {
        var j :| 0 <= j < |ws'| && ws'[j] == Waiting;
        assert j == w || ws[j] == Waiting;
      }
      var i :| 0 <= i < |ws| && ws[i].InFlight?;
      assert ws'[i].InFlight?;
    }
  }

  /** A busy query means a request in flight. */
  lemma {:induction false} BusyFlies(c: Config, st: State)
    requires Inv(c, st) && st.unfinished != {} && Busy(st)
    ensures SomeInFlight(st.workers)
  {
    var q :| q in st.active && st.active[q] > 0;
    CountPositive(st.workers, q);
    var w :| 0 <= w < |st.workers| && Carries(st.workers[w], q);
    assert st.workers[w].InFlight?;
  }

  lemma {:induction false} WaitInv(c: Config, st: State, w: nat, q: nat)
    requires Inv(c, st) && Enabled(c, st, Wait(w, q))
    ensures Inv(c, Next(c, st, Wait(w, q)))
  {
    BusyFlies(c, st);
    MovedFlight(st.workers, w, Waiting, st.search, st.unfinished);
    MovedCount(st.workers, w, Waiting, st.active, st.unfinished);
    MovedNoted(st.workers, w, Waiting, st.search);
    MovedWorkers(st.workers, w, Waiting, st.unfinished);
  }

  /** Once the search is over workers just leave. */
  lemma {:induction false} LeaveInv(c: Config, st: State, w: nat)
    requires Inv(c, st) && w < |st.workers| && st.unfinished == {}
    ensures Inv(c, st.(workers := st.workers[w := Done]))
  {
    MovedNoted(st.workers, w, Done, st.search);
    DoneWorkers(st.workers, w, st.unfinished);
  }

  // ---------------------------------------------------------------- finishing

  /** When nothing is in flight for a query, every one of its requests has been answered. */
  lemma {:induction false} QuietAnswered(ws: seq<Worker>, q: nat, s: Search)
    requires Accounted(ws, q, s) && Count(ws, q) == 0
    ensures forall p :: p in s.asked ==> p in s.reports
  {
    CountPositive(ws, q);
    forall p | p in s.asked ensures p in s.reports {
      assert !Pending(ws, q, p);
    }
  }

  lemma {:induction false} FinishOne(c: Config, ws: seq<Worker>, p: nat, s: Search)
    requires QueryInv(c, p, s, true) && !HasCandidates(c, p, s) && Accounted(ws, p, s) && Count(ws, p) == 0
    ensures QueryInv(c, p, Finish(s), false)
  {
    ExhaustedBeam(c, p, s);
    QuietAnswered(ws, p, s);
  }

  /** When the picked query has no candidate and nothing is in flight, no query is worth waiting for. */
  lemma {:induction false} NothingLeft(c: Config, st: State, q: nat, p: nat)
    requires Shaped(c, st) && CountInv(st.workers, st.active, st.unfinished)
    requires q in st.unfinished && p in st.unfinished && Prefers(c, st, q, p)
    requires !HasCandidates(c, q, st.search[q]) && !Busy(st)
    ensures !HasCandidates(c, p, st.search[p]) && Count(st.workers, p) == 0
  {
    assert st.active[p] == Count(st.workers, p);
  }

  lemma {:induction false} FinishSearch(c: Config, st: State, w: nat)
    requires w < |st.workers| && st.unfinished <= st.search.Keys
    requires SearchInv(c, st.search, st.unfinished) && FlightInv(st.workers, st.search, st.unfinished)
    requires Exhausted(c, st)
    ensures SearchInv(c, AfterFinishAll(st, w).search, {})
  {
    var search := AfterFinishAll(st, w).search;
    forall p | p in search ensures QueryInv(c, p, search[p], p in {}) {
      assert QueryInv(c, p, st.search[p], p in st.unfinished);
      if p in st.unfinished {
        assert Accounted(st.workers, p, st.search[p]);
        FinishOne(c, st.workers, p, st.search[p]);
      }
    }
  }

  lemma {:induction false} DoneWorkers(ws: seq<Worker>, w: nat, unfinished: set<nat>)
    requires w < |ws| && WorkersInv(ws, unfinished)
    ensures WorkersInv(ws[w := Done], {})
  {
    var ws' := ws[w := Done];
    assert !ws'[w].Waiting?;
    forall i | 0 <= i < |ws'| ensures WorkerOk(ws'[i], {}) {
      assert WorkerOk(ws[i], unfinished);
    }
  }

  lemma {:induction false} FinishNoted(st: State, w: nat)
    requires w < |st.workers| && NotedInv(st.workers, st.search)
    ensures var st' := AfterFinishAll(st, w); NotedInv(st'.workers, st'.search)
  {
    var search := AfterFinishAll(st, w).search;
    NotesGrow(st.workers, st.search, search);
    MovedNoted(st.workers, w, Done, search);
  }

  /** No open query has a candidate inside its beam or a request in flight. */
  ghost predicate Exhausted(c: Config, st: State) {
    forall p :: p in st.unfinished && p in st.search ==> !HasCandidates(c, p, st.search[p]) && Count(st.workers, p) == 0
  }

  lemma {:induction false} FinishFacts(c: Config, st: State, w: nat, q: nat)
    requires Inv(c, st) && Enabled(c, st, FinishAll(w, q))
    ensures Exhausted(c, st)
  {
    forall p | p in st.unfinished && p in st.search
      ensures !HasCandidates(c, p, st.search[p]) && Count(st.workers, p) == 0
    {
      assert Prefers(c, st, q, p);
      NothingLeft(c, st, q, p);
    }
  }

  lemma {:induction false} FinishShaped(c: Config, st: State, w: nat)
    requires Shaped(c, st) && w < |st.workers|
    ensures Shaped(c, AfterFinishAll(st, w))
  {
    assert AfterFinishAll(st, w).search.Keys == st.search.Keys;
  }

  lemma {:induction false} FinishAllInv(c: Config, st: State, w: nat)
    requires Inv(c, st) && Exhausted(c, st) && w < |st.workers|
    ensures Inv(c, AfterFinishAll(st, w))
  {
    FinishShaped(c, st, w);
    FinishSearch(c, st, w);
    FinishNoted(st, w);
    DoneWorkers(st.workers, w, st.unfinished);
  }

  // ---------------------------------------------------------------- skipping

  /** The popped candidate lies inside the beam, so the early finish of a popped query never happens. */
  lemma {:induction false} EarlyFinishUnreachable(c: Config, st: State, w: nat, q: nat)
    requires Shaped(c, st) && Enabled(c, st, Skip(w, q))
    ensures st.search[q].candidates[0] in st.search[q].visited
    ensures AfterSkip(c, st, q) == st.(search := st.search[q := Pop(st.search[q])])
  {
  }

  /** Replacing the state of one open query by another good one. */
  lemma {:induction false} ReplaceQuery(c: Config, search: map<nat, Search>, unfinished: set<nat>, q: nat, s: Search)
    requires SearchInv(c, search, unfinished) && q in search && QueryInv(c, q, s, q in unfinished)
    ensures SearchInv(c, search[q := s], unfinished) && search[q := s].Keys == search.Keys
  {
  }

  /** Replacing the state of one query keeps its requests accounted for if they are the same. */
  lemma {:induction false} ReplaceFlight(ws: seq<Worker>, search: map<nat, Search>, unfinished: set<nat>, q: nat,
                                         s: Search)
    requires FlightInv(ws, search, unfinished) && q in search
    requires s.asked == search[q].asked && s.reports == search[q].reports
    ensures FlightInv(ws, search[q := s], unfinished)
  {
    forall p | p in unfinished && p in search[q := s] ensures Accounted(ws, p, search[q := s][p]) {
      assert Accounted(ws, p, search[p]);
    }
  }

  lemma {:induction false} ReplaceNoted(ws: seq<Worker>, search: map<nat, Search>, q: nat, s: Search)
    requires NotedInv(ws, search) && q in search && s.asked == search[q].asked
    ensures NotedInv(ws, search[q := s])
  {
    NotesGrow(ws, search, search[q := s]);
  }

  lemma {:induction false} PopInv(c: Config, st: State, q: nat)
    requires Inv(c, st) && q in st.unfinished && st.search[q].candidates != []
    requires st.search[q].candidates[0] in st.search[q].visited
    ensures Inv(c, st.(search := st.search[q := Pop(st.search[q])]))
  {
    var s := st.search[q];
    assert QueryInv(c, q, Pop(s), true) by {
      assert QueryInv(c, q, s, true);
      PopKeeps(c, q, s);
    }
    ReplaceQuery(c, st.search, st.unfinished, q, Pop(s));
    ReplaceFlight(st.workers, st.search, st.unfinished, q, Pop(s));
    ReplaceNoted(st.workers, st.search, q, Pop(s));
  }

  lemma {:induction false} SkipInv(c: Config, st: State, w: nat, q: nat)
    requires Inv(c, st) && Enabled(c, st, Skip(w, q))
    ensures Inv(c, AfterSkip(c, st, q))
  {
    EarlyFinishUnreachable(c, st, w, q);
    PopInv(c, st, q);
  }

  // ---------------------------------------------------------------- requesting

  /** What a request does to the state of one query. */
  function Requested(p: nat, s: Search, q: nat, qs: set<nat>, peer: nat): (r: Search)
    requires p == q ==> s.candidates != []
  {
    if p == q then Mark(Pop(s), peer) else if p in qs then Mark(s, peer) else s
  }

  lemma {:induction false} RequestQuery(c: Config, p: nat, s: Search, q: nat, qs: set<nat>, peer: nat, open: bool)
    requires QueryInv(c, p, s, open) && peer < Pow2(c.width)
    requires p == q ==> s.candidates != [] && s.candidates[0] == peer
    requires p == q || p in qs ==> open && peer !in s.visited
    ensures QueryInv(c, p, Requested(p, s, q, qs, peer), open)
  {
    if p == q || p in qs { MarkKeeps(c, p, s, peer); }
  }

  /** What an enabled request guarantees about the queries it carries. */
  ghost predicate Requestable(st: State, q: nat, extra: set<nat>) {
    && q in st.search && q in st.unfinished && st.search[q].candidates != []
    && st.search[q].candidates[0] !in st.search[q].visited
    && forall p :: p in extra ==>
         p in st.search && p in st.unfinished && p != q && st.search[q].candidates[0] !in st.search[p].visited
  }

  lemma {:induction false} RequestFacts(c: Config, st: State, w: nat, q: nat, extra: set<nat>)
    requires Shaped(c, st) && Enabled(c, st, Request(w, q, extra))
    ensures Requestable(st, q, extra) && w < |st.workers| && st.workers[w].Ready?
  {
    assert forall p :: p in extra ==> p in Possible(st, q, st.search[q].candidates[0]);
  }

  lemma {:induction false} CandidateInSpace(c: Config, q: nat, s: Search)
    requires Sane(c, q, s) && s.candidates != []
    ensures s.candidates[0] < Pow2(c.width)
  {
    assert s.candidates[0] in s.learned;
    assert s.candidates[0] in Members(s.learned);
  }

  lemma {:induction false} RequestOne(c: Config, st: State, w: nat, q: nat, extra: set<nat>, p: nat)
    requires w < |st.workers| && Requestable(st, q, extra) && st.search[q].candidates[0] < Pow2(c.width)
    requires p in st.search && QueryInv(c, p, st.search[p], p in st.unfinished)
    ensures p in AfterRequest(st, w, q, extra).search
    ensures QueryInv(c, p, AfterRequest(st, w, q, extra).search[p], p in st.unfinished)
  {
    var peer, qs := st.search[q].candidates[0], extra + {q};
    RequestQuery(c, p, st.search[p], q, qs, peer, p in st.unfinished);
    assert AfterRequest(st, w, q, extra).search[p] == Requested(p, st.search[p], q, qs, peer);
  }

  lemma {:induction false} RequestSearch(c: Config, st: State, w: nat, q: nat, extra: set<nat>)
    requires w < |st.workers| && Requestable(st, q, extra) && SearchInv(c, st.search, st.unfinished)
    ensures SearchInv(c, AfterRequest(st, w, q, extra).search, st.unfinished)
  {
    var search := AfterRequest(st, w, q, extra).search;
    assert st.search[q].candidates[0] < Pow2(c.width) by {
      assert QueryInv(c, q, st.search[q], true);
      CandidateInSpace(c, q, st.search[q]);
    }
    forall p | p in search ensures QueryInv(c, p, search[p], p in st.unfinished) {
      assert QueryInv(c, p, st.search[p], p in st.unfinished);
      RequestOne(c, st, w, q, extra, p);
    }
  }

  /** The query's requests stay accounted for when a worker takes up one more of them. */
  lemma {:induction false} NewlyPending(ws: seq<Worker>, w: nat, peer: nat, qs: set<nat>, p: nat, s: Search, s': Search)
    requires w < |ws| && !ws[w].InFlight? && Accounted(ws, p, s)
    requires s'.reports == s.reports && (s'.asked == s.asked || (p in qs && s'.asked == s.asked + [peer]))
    ensures Accounted(ws[w := InFlight(peer, qs)], p, s')
  {
    var ws' := ws[w := InFlight(peer, qs)];
    StillPending(ws, w, InFlight(peer, qs), p, s);
    forall a | a in s'.asked ensures a in s'.reports || Pending(ws', p, a) {
      if a !in s.asked { assert Carries(ws'[w], p) && ws'[w].peer == a; }
    }
  }

  lemma {:induction false} RequestFlight(st: State, w: nat, q: nat, extra: set<nat>)
    requires w < |st.workers| && st.workers[w].Ready? && q in st.search && st.search[q].candidates != []
    requires FlightInv(st.workers, st.search, st.unfinished)
    ensures var st' := AfterRequest(st, w, q, extra); FlightInv(st'.workers, st'.search, st.unfinished)
  {
    var st', peer, qs := AfterRequest(st, w, q, extra), st.search[q].candidates[0], extra + {q};
    forall p | p in st.unfinished && p in st'.search ensures Accounted(st'.workers, p, st'.search[p]) {
      assert Accounted(st.workers, p, st.search[p]);
      NewlyPending(st.workers, w, peer, qs, p, st.search[p], st'.search[p]);
    }
  }

  lemma {:induction false} RequestNoted(st: State, w: nat, q: nat, extra: set<nat>)
    requires w < |st.workers| && q in st.search && st.search[q].candidates != [] && extra <= st.search.Keys
    requires NotedInv(st.workers, st.search)
    ensures var st' := AfterRequest(st, w, q, extra); NotedInv(st'.workers, st'.search)
  {
    var st', peer, qs := AfterRequest(st, w, q, extra), st.search[q].candidates[0], extra + {q};
    NotesGrow(st.workers, st.search, st'.search);
    MovedNoted(st.workers, w, InFlight(peer, qs), st'.search);
  }

  lemma {:induction false} RequestCount(st: State, w: nat, q: nat, extra: set<nat>)
    requires w < |st.workers| && st.workers[w].Ready? && q in st.search && st.search[q].candidates != []
    requires CountInv(st.workers, st.active, st.unfinished)
    ensures var st' := AfterRequest(st, w, q, extra); CountInv(st'.workers, st'.active, st.unfinished)
  {
    var st', peer, qs := AfterRequest(st, w, q, extra), st.search[q].candidates[0], extra + {q};
    if st.unfinished != {} {
      forall p | p in st'.active ensures st'.active[p] == Count(st'.workers, p) {
        CountUpdate(st.workers, w, InFlight(peer, qs), p);
      }
    }
  }

  lemma {:induction false} RequestShaped(c: Config, st: State, w: nat, q: nat, extra: set<nat>)
    requires Shaped(c, st) && w < |st.workers| && q in st.search && st.search[q].candidates != []
    ensures Shaped(c, AfterRequest(st, w, q, extra))
  {
    var st' := AfterRequest(st, w, q, extra);
    assert st'.search.Keys == st.search.Keys && st'.active.Keys == st.active.Keys;
  }

  lemma {:induction false} RequestWorkers(st: State, w: nat, q: nat, extra: set<nat>)
    requires w < |st.workers| && st.workers[w].Ready? && q in st.search && st.search[q].candidates != []
    requires WorkersInv(st.workers, st.unfinished)
    ensures WorkersInv(AfterRequest(st, w, q, extra).workers, st.unfinished)
  {
    assert q in extra + {q};
    MovedWorkers(st.workers, w, InFlight(st.search[q].candidates[0], extra + {q}), st.unfinished);
  }

  lemma {:induction false} RequestInv(c: Config, st: State, w: nat, q: nat, extra: set<nat>)
    requires Inv(c, st) && Requestable(st, q, extra) && w < |st.workers| && st.workers[w].Ready?
    ensures Inv(c, AfterRequest(st, w, q, extra))
  {
    RequestShaped(c, st, w, q, extra);
    RequestSearch(c, st, w, q, extra);
    RequestFlight(st, w, q, extra);
    RequestNoted(st, w, q, extra);
    RequestCount(st, w, q, extra);
    RequestWorkers(st, w, q, extra);
  }

  // ---------------------------------------------------------------- answering

  /** What an answer does to the state of one query. */
  lemma {:induction false} AnswerQuery(c: Config, p: nat, s: Search, open: bool, peer: nat, carried: bool,
                                       replies: map<nat, Reply>)
    requires c.beam > 0 && QueryInv(c, p, s, open) && (carried ==> peer in s.asked)
    requires p in replies ==> InSpace(replies[p].neighbors, c.width)
    ensures var s' := if open then Absorb(c, p, s, peer, carried, replies) else s;
            var open' := open && !(p in replies && replies[p].stop);
            && QueryInv(c, p, s', open') && s'.asked == s.asked
            && (open' ==> s'.reports.Keys == s.reports.Keys + (if carried then {peer} else {}))
  {
    if open { AbsorbKeeps(c, p, s, peer, carried, replies); }
  }

  /** A request that carried the query adds its peer to those heard from. */
  ghost predicate Reported(worker: Worker, p: nat, s: Search, s': Search)
    requires worker.InFlight?
  {
    s'.reports.Keys == s.reports.Keys + (if p in worker.queries then {worker.peer} else {})
  }

  /** What an enabled answer guarantees. */
  ghost predicate Answerable(c: Config, st: State, w: nat, replies: map<nat, Reply>) {
    && w < |st.workers| && st.workers[w].InFlight? && st.unfinished != {}
    && forall q :: q in replies ==> InSpace(replies[q].neighbors, c.width)
  }

  /** The same, for a query of the state. */
  lemma {:induction false} AnswerOne(c: Config, st: State, w: nat, replies: map<nat, Reply>, p: nat)
    requires c.beam > 0 && Shaped(c, st) && Answerable(c, st, w, replies) && p in st.search
    requires SearchInv(c, st.search, st.unfinished) && NotedInv(st.workers, st.search)
    ensures var st' := AfterAnswer(c, st, w, replies);
            && p in st'.search && QueryInv(c, p, st'.search[p], p in st'.unfinished)
            && st'.search[p].asked == st.search[p].asked
            && (p in st'.unfinished ==> Reported(st.workers[w], p, st.search[p], st'.search[p]))
  {
    var peer, carried := st.workers[w].peer, p in st.workers[w].queries;
    assert QueryInv(c, p, st.search[p], p in st.unfinished);
    assert Noted(st.workers[w], st.search);
    AnswerQuery(c, p, st.search[p], p in st.unfinished, peer, carried, replies);
  }

  /** The answered request leaves its query accounted for. */
  lemma {:induction false} AnsweredPending(ws: seq<Worker>, w: nat, p: nat, s: Search, s': Search)
    requires w < |ws| && ws[w].InFlight? && Accounted(ws, p, s)
    requires s'.asked == s.asked && Reported(ws[w], p, s, s')
    ensures Accounted(Wake(ws[w := Ready]), p, s')
  {
    var ws' := Wake(ws[w := Ready]);
    forall a | a in s'.asked && a !in s'.reports ensures Pending(ws', p, a) {
      assert a !in s.reports;
      var i :| 0 <= i < |ws| && Carries(ws[i], p) && ws[i].peer == a;
      assert Carries(ws'[i], p) && ws'[i].peer == a;
    }
  }

  lemma {:induction false} AnswerSearch(c: Config, st: State, w: nat, replies: map<nat, Reply>)
    requires c.beam > 0 && Shaped(c, st) && Answerable(c, st, w, replies)
    requires SearchInv(c, st.search, st.unfinished) && NotedInv(st.workers, st.search)
    ensures var st' := AfterAnswer(c, st, w, replies); SearchInv(c, st'.search, st'.unfinished)
  {
    var st' := AfterAnswer(c, st, w, replies);
    forall p | p in st'.search ensures QueryInv(c, p, st'.search[p], p in st'.unfinished) {
      AnswerOne(c, st, w, replies, p);
    }
  }

  lemma {:induction false} AnswerFlight(c: Config, st: State, w: nat, replies: map<nat, Reply>)
    requires c.beam > 0 && Shaped(c, st) && Answerable(c, st, w, replies)
    requires SearchInv(c, st.search, st.unfinished) && NotedInv(st.workers, st.search)
    requires FlightInv(st.workers, st.search, st.unfinished)
    ensures var st' := AfterAnswer(c, st, w, replies); FlightInv(st'.workers, st'.search, st'.unfinished)
  {
    var st' := AfterAnswer(c, st, w, replies);
    forall p | p in st'.unfinished && p in st'.search ensures Accounted(st'.workers, p, st'.search[p]) {
      AnswerOne(c, st, w, replies, p);
      assert Accounted(st.workers, p, st.search[p]);
      AnsweredPending(st.workers, w, p, st.search[p], st'.search[p]);
    }
  }

  lemma {:induction false} WakeNoted(ws: seq<Worker>, search: map<nat, Search>)
    requires NotedInv(ws, search)
    ensures NotedInv(Wake(ws), search)
  {
    var ws' := Wake(ws);
    forall w | 0 <= w < |ws'| ensures Noted(ws'[w], search) { assert Noted(ws[w], search); }
  }

  lemma {:induction false} AnswerNoted(c: Config, st: State, w: nat, replies: map<nat, Reply>)
    requires c.beam > 0 && Shaped(c, st) && Answerable(c, st, w, replies)
    requires SearchInv(c, st.search, st.unfinished) && NotedInv(st.workers, st.search)
    ensures var st' := AfterAnswer(c, st, w, replies); NotedInv(st'.workers, st'.search)
  {
    var st' := AfterAnswer(c, st, w, replies);
    forall p | p in st.search ensures st.search[p].asked <= st'.search[p].asked { AnswerOne(c, st, w, replies, p); }
    NotesGrow(st.workers, st.search, st'.search);
    MovedNoted(st.workers, w, Ready, st'.search);
    WakeNoted(st.workers[w := Ready], st'.search);
  }

  lemma {:induction false} AnswerCount(c: Config, st: State, w: nat, replies: map<nat, Reply>)
    requires w < |st.workers| && st.workers[w].InFlight? && st.unfinished != {}
    requires CountInv(st.workers, st.active, st.unfinished)
    ensures var st' := AfterAnswer(c, st, w, replies); CountInv(st'.workers, st'.active, st'.unfinished)
  {
    var st' := AfterAnswer(c, st, w, replies);
    forall p | p in st'.active ensures st'.active[p] == Count(st'.workers, p) {
      CountUpdate(st.workers, w, Ready, p);
      CountWake(st.workers[w := Ready], p);
    }
  }

  lemma {:induction false} WokenWorkers(ws: seq<Worker>, w: nat, unfinished: set<nat>, unfinished': set<nat>)
    requires w < |ws| && WorkersInv(ws, unfinished) && unfinished != {}
    ensures WorkersInv(Wake(ws[w := Ready]), unfinished')
  {
    var ws' := Wake(ws[w := Ready]);
    assert !ws'[w].Waiting?;
    forall i | 0 <= i < |ws'| ensures WorkerOk(ws'[i], unfinished') {
      assert WorkerOk(ws[i], unfinished);
    }
  }

  lemma {:induction false} AnswerInv(c: Config, st: State, w: nat, replies: map<nat, Reply>)
    requires c.beam > 0 && Inv(c, st) && Answerable(c, st, w, replies)
    ensures Inv(c, AfterAnswer(c, st, w, replies))
  {
    var st' := AfterAnswer(c, st, w, replies);
    assert Shaped(c, st') by { assert st'.search.Keys == st.search.Keys && st'.active.Keys == st.active.Keys; }
    assert SearchInv(c, st'.search, st'.unfinished) by { AnswerSearch(c, st, w, replies); }
    assert FlightInv(st'.workers, st'.search, st'.unfinished) by { AnswerFlight(c, st, w, replies); }
    assert NotedInv(st'.workers, st'.search) by { AnswerNoted(c, st, w, replies); }
    assert CountInv(st'.workers, st'.active, st'.unfinished) by { AnswerCount(c, st, w, replies); }
    assert WorkersInv(st'.workers, st'.unfinished) by { WokenWorkers(st.workers, w, st.unfinished, st'.unfinished); }
  }

  // ---------------------------------------------------------------- every run

  /** A worker waits, leaves or ends the search. */
  predicate Resting(step: Step) {
    step.Exit? || step.Wait? || step.FinishAll? || step.Abort?
  }

  lemma {:induction false} RestInv(c: Config, st: State, step: Step)
    requires c.Valid() && Inv(c, st) && Enabled(c, st, step) && Resting(step)
    ensures Inv(c, Next(c, st, step))
  {
    match step
    case Exit(w) => LeaveInv(c, st, w);
    case Wait(w, q) => WaitInv(c, st, w, q);
    case FinishAll(w, q) => FinishFacts(c, st, w, q); FinishAllInv(c, st, w);
    case Abort(w) => LeaveInv(c, st, w);
  }

  lemma {:induction false} WorkInv(c: Config, st: State, step: Step)
    requires c.Valid() && Inv(c, st) && Enabled(c, st, step) && !Resting(step)
    ensures Inv(c, Next(c, st, step))
  {
    match step
    case Skip(w, q) => SkipInv(c, st, w, q);
    case Request(w, q, extra) => RequestFacts(c, st, w, q, extra); RequestInv(c, st, w, q, extra);
    case Answer(w, replies) => AnswerInv(c, st, w, replies);
  }

  lemma {:induction false} StepInv(c: Config, st: State, step: Step)
    requires c.Valid() && Inv(c, st) && Enabled(c, st, step)
    ensures Inv(c, Next(c, st, step))
  {
    if Resting(step) { RestInv(c, st, step); } else { WorkInv(c, st, step); }
  }
}
