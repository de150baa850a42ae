/**
 * The concurrent multi-query search as a step system: workers share the heaps, requests are in
 * flight until answered, and answers come in any order. A run is any sequence of enabled steps.
 */
module TraverseSystem {
  import opened XorMetric
  import opened Ranked
  import opened Counting
  import opened Beam

  ghost predicate InSpace(s: seq<nat>, width: nat) {
    forall i :: 0 <= i < |s| ==> s[i] < Pow2(width)
  }

  datatype Config = Config(queries: seq<nat>, initial: seq<nat>, beam: nat, queriesPerCall: int, width: nat,
                           preVisited: map<nat, set<nat>>)
  {
    ghost predicate Valid() {
      && beam > 0 && queries != []
      && InSpace(initial, width)
    }

    function Pre(q: nat): (r: set<nat>) {
      if q in preVisited then preVisited[q] else {}
    }
  }

  /**
   * The state of one query. The first four fields are the program's; the others record its history:
   * the nodes in the order they were learned, everything reported for the query, the peers asked in
   * order, what each answering peer reported, and how the search ended.
   */
  datatype Search = Search(candidates: seq<nat>, nearest: seq<nat>, known: set<nat>, visited: set<nat>,
                           learned: seq<nat>, heard: set<nat>, asked: seq<nat>, reports: map<nat, set<nat>>,
                           stopped: bool, finishes: nat)

  datatype Worker = Ready | Waiting | InFlight(peer: nat, queries: set<nat>) | Done

  datatype State = State(unfinished: set<nat>, search: map<nat, Search>, active: map<nat, int>, workers: seq<Worker>)

  // ---------------------------------------------------------------- one query

  function StartSearch(c: Config, q: nat): (s: Search) {
    var heap := SortBy(Dist(q), c.initial);
    Search(heap, First(c.beam, heap), Members(c.initial), c.Pre(q),
           c.initial, Members(c.initial), [], map[], false, 0)
  }

  /** Not farther than the end of a full beam. */
  predicate Within(c: Config, q: nat, s: Search, n: nat) {
    |s.nearest| >= c.beam && s.nearest != [] ==> Xor(q, n) <= Xor(q, s.nearest[|s.nearest| - 1])
  }

  predicate HasCandidates(c: Config, q: nat, s: Search) {
    s.candidates != [] && Within(c, q, s, s.candidates[0])
  }

  function LearnOne(c: Config, q: nat, s: Search, n: nat): (r: Search) {
    if n in s.known then s
    else
      var s1 := s.(known := s.known + {n}, learned := s.learned + [n]);
      if Within(c, q, s, n) || |s.nearest| < c.beam then
        s1.(candidates := Insert(Dist(q), s.candidates, n),
            nearest := First(c.beam, Insert(Dist(q), s.nearest, n)))
      else s1
  }

  function LearnAll(c: Config, q: nat, s: Search, ns: seq<nat>): (r: Search) {
    if ns == [] then s else LearnOne(c, q, LearnAll(c, q, s, ns[..|ns| - 1]), ns[|ns| - 1])
  }

  function Finish(s: Search): (r: Search) {
    s.(finishes := s.finishes + 1)
  }

  function Mark(s: Search, peer: nat): (r: Search) {
    s.(visited := s.visited + {peer}, asked := s.asked + [peer])
  }

  function Pop(s: Search): (r: Search)
    requires s.candidates != []
  {
    s.(candidates := s.candidates[1..])
  }

  /** What one reply does to a query that is still unfinished; `carried` says the request named it. */
  function Absorb(c: Config, q: nat, s: Search, peer: nat, carried: bool, replies: map<nat, Reply>): (r: Search) {
    if q !in replies then (if carried then s.(reports := s.reports[peer := {}]) else s)
    else if replies[q].stop then Finish(s.(stopped := true))
    else
      var ns := replies[q].neighbors;
      var s1 := LearnAll(c, q, s, ns).(heard := s.heard + Members(ns));
      if carried then s1.(reports := s.reports[peer := Members(ns)]) else s1
  }

  // ---------------------------------------------------------------- steps

  function Init(c: Config, numWorkers: nat): (st: State)
  {
    State(Members(c.queries), map q | q in c.queries :: StartSearch(c, q), map q | q in c.queries :: 0,
          seq(numWorkers, _ => Ready))
  }

  /** `a` comes no later than `b` in the order by which workers pick the next query. */
  predicate Prefers(c: Config, st: State, a: nat, b: nat)
    requires a in st.search && a in st.active && b in st.search && b in st.active
  {
    HasCandidates(c, b, st.search[b]) ==>
      && HasCandidates(c, a, st.search[a])
      && (|| st.active[a] < st.active[b]
          || (&& st.active[a] == st.active[b]
              && Xor(a, st.search[a].candidates[0]) <= Xor(b, st.search[b].candidates[0])))
  }

  ghost predicate Shaped(c: Config, st: State) {
    && st.search.Keys == Members(c.queries) && st.active.Keys == Members(c.queries)
    && st.unfinished <= Members(c.queries)
  }

  /** The query that a ready worker picks. */
  ghost predicate Picks(c: Config, st: State, w: nat, q: nat)
    requires Shaped(c, st)
  {
    && w < |st.workers| && st.workers[w].Ready? && q in st.unfinished
    && forall q' :: q' in st.unfinished ==> Prefers(c, st, q, q')
  }

  /** Unfinished queries other than `q` for which the peer has not been asked. */
  function Possible(st: State, q: nat, peer: nat): (r: set<nat>)
    requires st.unfinished <= st.search.Keys
  {
    set q' | q' in st.unfinished && q' != q && peer !in st.search[q'].visited
  }

  /** The `n` elements of `pool` nearest to the peer. */
  ghost predicate NearestOf(peer: nat, pool: set<nat>, n: int, chosen: set<nat>) {
    && chosen <= pool
    && |chosen| == (if n <= 0 then 0 else if n < |pool| then n else |pool|)
    && forall x, y :: x in chosen && y in pool - chosen ==> Xor(peer, x) < Xor(peer, y)
  }

  datatype Step =
    | Exit(w: nat)
    | Wait(w: nat, q: nat)
    | FinishAll(w: nat, q: nat)
    | Skip(w: nat, q: nat)
    | Request(w: nat, q: nat, extra: set<nat>)
    | Answer(w: nat, replies: map<nat, Reply>)
    | Abort(w: nat)

  ghost predicate Busy(st: State) {
    exists q :: q in st.active && st.active[q] > 0
  }

  ghost predicate Enabled(c: Config, st: State, step: Step)
    requires Shaped(c, st)
  {
    step.w < |st.workers| &&
    match step
    case Exit(w) => st.workers[w].Ready? && st.unfinished == {}
    case Wait(w, q) => Picks(c, st, w, q) && !HasCandidates(c, q, st.search[q]) && Busy(st)
    case FinishAll(w, q) => Picks(c, st, w, q) && !HasCandidates(c, q, st.search[q]) && !Busy(st)
    case Skip(w, q) =>
      && Picks(c, st, w, q) && HasCandidates(c, q, st.search[q])
      && var peer := st.search[q].candidates[0];
      (peer in st.search[q].visited || !Within(c, q, st.search[q], peer))
    case Request(w, q, extra) =>
      && Picks(c, st, w, q) && HasCandidates(c, q, st.search[q])
      && var peer := st.search[q].candidates[0];
      && peer !in st.search[q].visited && Within(c, q, st.search[q], peer)
      && NearestOf(peer, Possible(st, q, peer), c.queriesPerCall - 1, extra)
    case Answer(w, replies) =>
      && st.workers[w].InFlight? && st.unfinished != {}
      && forall q :: q in replies ==> InSpace(replies[q].neighbors, c.width)
    case Abort(w) => st.workers[w].InFlight? && st.unfinished == {}
  }

  function Wake(workers: seq<Worker>): (r: seq<Worker>)
    ensures |r| == |workers|
    ensures forall i :: 0 <= i < |r| ==> r[i] == if workers[i].Waiting? then Ready else workers[i]
  {
    seq(|workers|, i requires 0 <= i < |workers| => if workers[i].Waiting? then Ready else workers[i])
  }

  function AfterFinishAll(st: State, w: nat): (r: State)
    requires w < |st.workers|
  {
    st.(unfinished := {},
        search := map q | q in st.search :: if q in st.unfinished then Finish(st.search[q]) else st.search[q],
        workers := st.workers[w := Done])
  }

  function AfterSkip(c: Config, st: State, q: nat): (r: State)
    requires q in st.search && q in st.active && st.search[q].candidates != []
  {
    var s := st.search[q];
    if !Within(c, q, s, s.candidates[0]) && st.active[q] == 0
    then st.(unfinished := st.unfinished - {q}, search := st.search[q := Finish(Pop(s))])
    else st.(search := st.search[q := Pop(s)])
  }

  function AfterRequest(st: State, w: nat, q: nat, extra: set<nat>): (r: State)
    requires w < |st.workers| && q in st.search && st.search[q].candidates != []
  {
    var peer, qs := st.search[q].candidates[0], extra + {q};
    st.(search := map p | p in st.search ::
          if p == q then Mark(Pop(st.search[p]), peer) else if p in qs then Mark(st.search[p], peer) else st.search[p],
        active := map p | p in st.active :: if p in qs then st.active[p] + 1 else st.active[p],
        workers := st.workers[w := InFlight(peer, qs)])
  }

  function AfterAnswer(c: Config, st: State, w: nat, replies: map<nat, Reply>): (r: State)
    requires w < |st.workers| && st.workers[w].InFlight?
  {
    var peer, qs := st.workers[w].peer, st.workers[w].queries;
    State(set q | q in st.unfinished && !(q in replies && replies[q].stop),
          map q | q in st.search ::
            if q in st.unfinished then Absorb(c, q, st.search[q], peer, q in qs, replies) else st.search[q],
          map q | q in st.active :: if q in qs then st.active[q] - 1 else st.active[q],
          Wake(st.workers[w := Ready]))
  }

  ghost function Next(c: Config, st: State, step: Step): State
    requires Shaped(c, st) && Enabled(c, st, step)
  {
    match step
    case Exit(w) => st.(workers := st.workers[w := Done])
    case Wait(w, _) => st.(workers := st.workers[w := Waiting])
    case FinishAll(w, _) => AfterFinishAll(st, w)
    case Skip(w, q) => AfterSkip(c, st, q)
    case Request(w, q, extra) => AfterRequest(st, w, q, extra)
    case Answer(w, replies) => AfterAnswer(c, st, w, replies)
    case Abort(w) => st.(workers := st.workers[w := Done])
  }

  // ---------------------------------------------------------------- invariants

  /** What one query keeps, whatever the interleaving. */
  ghost predicate Sane(c: Config, q: nat, s: Search) {
    && Searching(q, c.beam, s.learned, s.visited, s.candidates, s.nearest)
    && Members(s.learned) == s.known == s.heard && Members(c.initial) <= s.known
    && Extends(c.initial, s.learned)
    && (forall n :: n in s.known ==> n < Pow2(c.width))
  }

  /** No peer is asked twice for a query and none that was visited beforehand is asked at all. */
  ghost predicate AskedOnce(c: Config, q: nat, s: Search) {
    && Distinct(s.asked) && Members(s.asked) !! c.Pre(q)
    && s.visited == c.Pre(q) + Members(s.asked)
    && (forall p :: p in s.asked ==> p < Pow2(c.width))
    && (forall p :: p in s.reports ==> p in s.asked && s.reports[p] <= s.known)
  }

  /** The result of a search that ran to its end: the whole beam was asked and every answer came in. */
  ghost predicate Complete(s: Search) {
    && (forall n :: n in s.nearest ==> n in s.visited)
    && (forall p :: p in s.asked ==> p in s.reports)
  }

  ghost predicate Carries(worker: Worker, q: nat) {
    worker.InFlight? && q in worker.queries
  }

  ghost function Count(workers: seq<Worker>, q: nat): nat {
    if workers == [] then 0
    else Count(workers[..|workers| - 1], q) + (if Carries(workers[|workers| - 1], q) then 1 else 0)
  }

  /** A request to this peer for this query is in flight. */
  ghost predicate Pending(workers: seq<Worker>, q: nat, peer: nat) {
    exists w :: 0 <= w < |workers| && Carries(workers[w], q) && workers[w].peer == peer
  }

  /** Everything known about one query, open or finished. */
  ghost predicate QueryInv(c: Config, q: nat, s: Search, open: bool) {
    && Sane(c, q, s) && AskedOnce(c, q, s)
    && s.finishes == (if open then 0 else 1)
    && (open ==> !s.stopped)
    && (!open && !s.stopped ==> Complete(s))
  }

  ghost predicate SearchInv(c: Config, search: map<nat, Search>, unfinished: set<nat>) {
    forall q :: q in search ==> QueryInv(c, q, search[q], q in unfinished)
  }

  ghost predicate SomeInFlight(ws: seq<Worker>) {
    exists w :: 0 <= w < |ws| && ws[w].InFlight?
  }

  /** A worker that left means a finished search; requests name at least one query. */
  ghost predicate WorkerOk(worker: Worker, unfinished: set<nat>) {
    && (worker.Done? ==> unfinished == {})
    && (worker.InFlight? ==> worker.queries != {})
  }

  ghost predicate SomeAwake(ws: seq<Worker>) {
    exists w :: 0 <= w < |ws| && !ws[w].Waiting?
  }

  /** Somebody is always awake, and workers wait only while a request is in flight. */
  ghost predicate WorkersInv(ws: seq<Worker>, unfinished: set<nat>) {
    && (forall w :: 0 <= w < |ws| ==> WorkerOk(ws[w], unfinished))
    && (unfinished != {} && Waiting in ws ==> SomeInFlight(ws))
    && SomeAwake(ws)
  }

  /** The counters agree with the requests in flight as long as the search goes on. */
  ghost predicate CountInv(ws: seq<Worker>, active: map<nat, int>, unfinished: set<nat>) {
    unfinished != {} ==> forall q :: q in active ==> active[q] == Count(ws, q)
  }

  /** Every request of the query is answered or in flight. */
  ghost predicate Accounted(ws: seq<Worker>, q: nat, s: Search) {
    forall p :: p in s.asked ==> p in s.reports || Pending(ws, q, p)
  }

  ghost predicate FlightInv(ws: seq<Worker>, search: map<nat, Search>, unfinished: set<nat>) {
    forall q :: q in unfinished && q in search ==> Accounted(ws, q, search[q])
  }

  /** Whatever a worker's request carries has been noted as asked. */
  ghost predicate Noted(worker: Worker, search: map<nat, Search>) {
    worker.InFlight? ==> forall q :: q in worker.queries ==> q in search && worker.peer in search[q].asked
  }

  ghost predicate NotedInv(ws: seq<Worker>, search: map<nat, Search>) {
    forall w :: 0 <= w < |ws| ==> Noted(ws[w], search)
  }

  ghost predicate Inv(c: Config, st: State) {
    && Shaped(c, st)
    && SearchInv(c, st.search, st.unfinished)
    && WorkersInv(st.workers, st.unfinished)
    && CountInv(st.workers, st.active, st.unfinished)
    && FlightInv(st.workers, st.search, st.unfinished)
    && NotedInv(st.workers, st.search)
  }
}
