/** The sliding-window rate limiter in front of an authorizer. */
module RateLimit {
  import opened Basics

  datatype Threat = Normal | Suspicious | Moderate | High | Critical
  {
    function Level(): (n: nat) {
      match this
      case Normal => 0
      case Suspicious => 1
      case Moderate => 2
      case High => 3
      case Critical => 4
    }
  }

  /** `canBan` says that banning is enabled and a callback for it is installed. */
  datatype Config = Config(perSecond: nat, perMinute: nat, perHour: nat, burst: nat,
                           suspicious: real, blocking: real, ban: real,
                           shortWindow: real, mediumWindow: real, longWindow: real,
                           tempBlock: real, extendedBlock: real, canBan: bool, banViolations: nat)

  const DEFAULT: Config := Config(10, 100, 1000, 20, 1.5, 3.0, 5.0, 1.0, 60.0, 3600.0, 300.0, 3600.0, false, 10)

  /** Everything the limiter keeps about one peer. */
  datatype Peer = Peer(requests: seq<real>, threat: Threat, blockedUntil: Option<real>, violations: nat, banned: bool)

  const STRANGER: Peer := Peer([], Normal, None, 0, false)

  // ---------------------------------------------------------------- one request

  function DropOld(s: seq<real>, cutoff: real): (r: seq<real>) {
    if s != [] && s[0] < cutoff then DropOld(s[1..], cutoff) else s
  }

  /** How many times are later than the given one. */
  function CountAfter(s: seq<real>, since: real): (n: nat) {
    if s == [] then 0 else CountAfter(s[..|s| - 1], since) + (if s[|s| - 1] > since then 1 else 0)
  }

  function Detect(c: Config, violations: nat, short: nat, medium: nat, long: nat): (t: Threat) {
    var rate := c.perSecond as real;
    if short as real > rate * c.ban || violations >= c.banViolations then Critical
    else if short as real > rate * c.blocking then High
    else if medium >= c.perMinute then Moderate
    else if long >= c.perHour then Moderate
    else if short >= c.burst then Suspicious
    else if short as real > rate * c.suspicious then Suspicious
    else Normal
  }

  /** Reacting to a threat at time `now`. */
  function Handle(c: Config, p: Peer, threat: Threat, now: real): (r: Peer) {
    var worse := if threat.Level() > p.threat.Level() then threat else p.threat;
    var p1 := p.(threat := worse, violations := p.violations + 1);
    match threat
    case Moderate => p1.(blockedUntil := Some(now + c.tempBlock))
    case High => p1.(blockedUntil := Some(now + c.extendedBlock))
    case Critical => if c.canBan then p1.(banned := true) else p1.(blockedUntil := Some(now + 86400.0))
    case _ => p1
  }

  /** Deciding about a request at time `now`; a block, if there is one, starts at time `later`. */
  function Check(c: Config, p: Peer, now: real, later: real): (r: (Peer, bool)) {
    if p.banned then (p, false)
    else if p.blockedUntil.Some? && now < p.blockedUntil.value then (p, false)
    else
      var p1 := p.(blockedUntil := None, requests := DropOld(p.requests, now - c.longWindow));
      var threat := Detect(c, p1.violations, CountAfter(p1.requests, now - c.shortWindow),
                           CountAfter(p1.requests, now - c.mediumWindow), |p1.requests|);
      if threat != Normal then (Handle(c, p1, threat, later), false)
      else (p1.(requests := p1.requests + [now]), true)
  }

  /** No limit is reached: counts of the last second, minute and hour, the hour's including its start. */
  ghost predicate WithinLimits(c: Config, short: nat, medium: nat, long: nat) {
    && short < c.burst && medium < c.perMinute && long < c.perHour
    && short as real <= c.perSecond as real * c.suspicious
    && short as real <= c.perSecond as real * c.blocking
    && short as real <= c.perSecond as real * c.ban
  }

  /**
   * Exactly which requests are admitted: those of peers that are neither banned nor blocked any more, have not
   * been refused too often and are within all limits. So a block ends, and leaves nothing behind.
   */
  lemma {:induction false} AdmittedIff(c: Config, p: Peer, now: real, later: real)
    ensures var (p', ok) := Check(c, p, now, later);
            var kept := DropOld(p.requests, now - c.longWindow);
            && (ok <==> && !p.banned && (p.blockedUntil.Some? ==> now >= p.blockedUntil.value)
                        && p.violations < c.banViolations
                        && WithinLimits(c, CountAfter(kept, now - c.shortWindow),
                                        CountAfter(kept, now - c.mediumWindow), |kept|))
            && (ok ==> p' == Peer(kept + [now], p.threat, None, p.violations, false))
  {
  }

  /** How bad the counts are: 4 for extreme rates and repeated violations, 0 within all limits. */
  ghost function Severity(c: Config, violations: nat, short: nat, medium: nat, long: nat): (n: nat) {
    var rate := c.perSecond as real;
    if violations >= c.banViolations || rate * c.ban < short as real then 4
    else if rate * c.blocking < short as real then 3
    else if c.perMinute <= medium || c.perHour <= long then 2
    else if c.burst <= short || rate * c.suspicious < short as real then 1
    else 0
  }

  /**
   * What a refusal leaves with a peer that was neither banned nor blocked: one more violation, the worst
   * level so far, and for the three worse levels a block of its own length, or a ban where that is possible.
   */
  lemma {:induction false} RefusedHow(c: Config, p: Peer, now: real, later: real)
    requires !p.banned && (p.blockedUntil.Some? ==> now >= p.blockedUntil.value) && !Check(c, p, now, later).1
    ensures var p', kept := Check(c, p, now, later).0, DropOld(p.requests, now - c.longWindow);
            var n := Severity(c, p.violations, CountAfter(kept, now - c.shortWindow),
                              CountAfter(kept, now - c.mediumWindow), |kept|);
            && n > 0 && p'.violations == p.violations + 1 && p'.requests == kept
            && p'.threat.Level() == (if n > p.threat.Level() then n else p.threat.Level())
            && (p'.banned <==> n == 4 && c.canBan)
            && p'.blockedUntil == if n == 4 && !c.canBan then Some(later + 86400.0)
                                  else if n == 3 then Some(later + c.extendedBlock)
                                  else if n == 2 then Some(later + c.tempBlock) else None
  {
  }

  /** A recorded refusal counts once, from the fifth on twice, and then the peer is at least suspicious. */
  lemma {:induction false} ViolateMeaning(c: Config, p: Peer, now: real)
    ensures var p' := Violate(c, p, now);
            && p'.violations == p.violations + (if p.violations + 1 >= 5 then 2 else 1)
            && p'.threat == (if p.violations + 1 >= 5 && p.threat.Normal? then Suspicious else p.threat)
            && p' == Peer(p.requests, p'.threat, p.blockedUntil, p'.violations, p.banned)
  {
  }

  /** Nothing recent is dropped, and if requests come in order nothing older is kept. */
  lemma {:induction false} DropOldMeaning(s: seq<real>, cutoff: real)
    requires forall i, j :: 0 <= i < j < |s| ==> s[i] <= s[j]
    ensures var r := DropOld(s, cutoff);
            && |r| <= |s| && r == s[|s| - |r|..]
            && (forall i :: 0 <= i < |s| - |r| ==> s[i] < cutoff) && forall i :: 0 <= i < |r| ==> r[i] >= cutoff
  {
    if s != [] && s[0] < cutoff { DropOldMeaning(s[1..], cutoff); }
  }

  function Violate(c: Config, p: Peer, now: real): (r: Peer) {
    var p1 := p.(violations := p.violations + 1);
    if p1.violations >= 5 then Handle(c, p1, Suspicious, now) else p1
  }

  class RateLimitAuthorizer {
    const config: Config
    var peers: map<PeerId, Peer>

    constructor (config: Config)
      ensures this.config == config && peers == map[]
    {
      this.config, peers := config, map[];
    }

    function Known(id: PeerId): Peer
      reads this
    {
      if id in peers then peers[id] else STRANGER
    }

    method CountLater(s: seq<real>, since: real) returns (n: nat)
      ensures n == CountAfter(s, since)
    {
      n := 0;
      for i := 0 to |s|
        invariant n == CountAfter(s[..i], since)
      {
        assert s[..i + 1][..i] == s[..i];
        if s[i] > since { n := n + 1; }
      }
      assert s[..|s|] == s;
    }

    method HandleThreat(id: PeerId, threat: Threat, now: real)
      modifies this
      ensures peers == old(peers)[id := Handle(config, old(Known(id)), threat, now)]
    {
      var p := Known(id);
      if threat.Level() > p.threat.Level() { p := p.(threat := threat); }
      p := p.(violations := p.violations + 1);
      if threat == Moderate {
        p := p.(blockedUntil := Some(now + config.tempBlock));
      } else if threat == High {
        p := p.(blockedUntil := Some(now + config.extendedBlock));
      } else if threat == Critical {
        if config.canBan { p := p.(banned := true); } else { p := p.(blockedUntil := Some(now + 86400.0)); }
      }
      peers := peers[id := p];
    }

    method CheckRateLimit(id: PeerId, now: real, later: real) returns (allowed: bool)
      modifies this
      ensures (Known(id), allowed) == Check(config, old(Known(id)), now, later)
      ensures forall other :: other != id ==> Known(other) == old(Known(other))
    {
      var p := Known(id);
      if p.banned { return false; }
      if p.blockedUntil.Some? {
        if now < p.blockedUntil.value { return false; }
        p := p.(blockedUntil := None);
      }
      var kept := p.requests;
      while kept != [] && kept[0] < now - config.longWindow
        invariant DropOld(kept, now - config.longWindow) == DropOld(p.requests, now - config.longWindow)
        decreases |kept|
      {
        kept := kept[1..];
      }
      p := p.(requests := kept);
      peers := peers[id := p];
      var short := CountLater(kept, now - config.shortWindow);
      var medium := CountLater(kept, now - config.mediumWindow);
      var threat := Detect(config, p.violations, short, medium, |kept|);
      if threat != Normal {
        HandleThreat(id, threat, later);
        return false;
      }
      peers := peers[id := p.(requests := kept + [now])];
      return true;
    }

    method RecordViolation(id: PeerId, now: real)
      modifies this
      ensures Known(id) == Violate(config, old(Known(id)), now)
      ensures forall other :: other != id ==> Known(other) == old(Known(other))
    {
      var p := Known(id);
      p := p.(violations := p.violations + 1);
      peers := peers[id := p];
      if p.violations >= 5 { HandleThreat(id, Suspicious, now); }
    }

    /** One request: the limiter first, then the inner authorizer, whose answer is `valid`. */
    method ValidateRequest(id: PeerId, valid: bool, now: real, later: real) returns (ok: bool)
      modifies this
      ensures var (p, allowed) := Check(config, old(Known(id)), now, later);
              && ok == (allowed && valid)
              && Known(id) == if ok then p else Violate(config, p, later)
      ensures forall other :: other != id ==> Known(other) == old(Known(other))
    {
      var allowed := CheckRateLimit(id, now, later);
      if !allowed {
        RecordViolation(id, later);
        return false;
      }
      if !valid {
        RecordViolation(id, later);
        return false;
      }
      return true;
    }
  }

  // ---------------------------------------------------------------- whole runs

  /** A request reaches the limiter, or a refusal of an earlier one is recorded; steps may interleave freely. */
  datatype Event = Ask(now: real, later: real) | Refusal(now: real)

  function Advance(c: Config, p: Peer, e: Event): (r: Peer) {
    match e
    case Ask(now, later) => Check(c, p, now, later).0
    case Refusal(now) => Violate(c, p, now)
  }

  function After(c: Config, es: seq<Event>): (p: Peer) {
    if es == [] then STRANGER else Advance(c, After(c, es[..|es| - 1]), es[|es| - 1])
  }

  /** Times of all admitted requests of a run. */
  function Admitted(c: Config, es: seq<Event>): (r: seq<real>) {
    if es == [] then []
    else
      var before, e := es[..|es| - 1], es[|es| - 1];
      var rest := Admitted(c, before);
      if e.Ask? && Check(c, After(c, before), e.now, e.later).1 then rest + [e.now] else rest
  }

  ghost predicate ClockAdvances(es: seq<Event>) {
    forall i, j :: 0 <= i < j < |es| ==> es[i].now <= es[j].now
  }

  /** Times of a list that lie in the window of length `w` ending at `t`, its start excluded. */
  ghost function InWindow(s: seq<real>, t: real, w: real): nat {
    if s == [] then 0
    else InWindow(s[..|s| - 1], t, w) + (if t - w < s[|s| - 1] <= t then 1 else 0)
  }

  ghost predicate NotAfter(s: seq<real>, t: real) {
    forall i :: 0 <= i < |s| ==> s[i] <= t
  }

  lemma {:induction false} CountWindow(s: seq<real>, now: real, w: real)
    requires NotAfter(s, now)
    ensures InWindow(s, now, w) == CountAfter(s, now - w)
  {
    if s != [] { CountWindow(s[..|s| - 1], now, w); }
  }

  lemma {:induction false} WindowMoves(s: seq<real>, now: real, t: real, w: real)
    requires NotAfter(s, now) && now <= t
    ensures InWindow(s, t, w) <= InWindow(s, now, w)
  {
    if s != [] { WindowMoves(s[..|s| - 1], now, t, w); }
  }

  lemma {:induction false} CountPush(s: seq<real>, x: real, since: real)
    ensures CountAfter(s + [x], since) == CountAfter(s, since) + (if x > since then 1 else 0)
  {
    assert (s + [x])[..|s|] == s;
  }

  lemma {:induction false} CountAtMost(s: seq<real>, since: real)
    ensures CountAfter(s, since) <= |s|
  {
    if s != [] { CountAtMost(s[..|s| - 1], since); }
  }

  /** The deque is what is left of all admitted requests when the oldest are dropped; nothing recent is missing. */
  ghost predicate Covers(requests: seq<real>, admitted: seq<real>, cutoff: real) {
    forall since :: since >= cutoff ==> CountAfter(requests, since) == CountAfter(admitted, since)
  }

  lemma {:induction false} DropCovers(s: seq<real>, cutoff: real, since: real)
    requires since >= cutoff
    ensures CountAfter(DropOld(s, cutoff), since) == CountAfter(s, since)
  {
    if s != [] && s[0] < cutoff {
      DropCovers(s[1..], cutoff, since);
      CountFront(s, since);
    }
  }

  lemma {:induction false} CountFront(s: seq<real>, since: real)
    requires s != []
    ensures CountAfter(s, since) == (if s[0] > since then 1 else 0) + CountAfter(s[1..], since)
  {
    var n := |s| - 1;
    if n > 0 {
      CountFront(s[..n], since);
      assert s[..n][1..] == s[1..][..n - 1];
    }
  }

  lemma {:induction false} AdmittedNotAfter(c: Config, es: seq<Event>, t: real)
    requires forall i :: 0 <= i < |es| ==> es[i].now <= t
    ensures NotAfter(Admitted(c, es), t)
  {
    if es != [] { AdmittedNotAfter(c, es[..|es| - 1], t); }
  }

  /** At any later time the deque still knows every request of the longest window. */
  lemma {:induction false} RunCovers(c: Config, es: seq<Event>, t: real)
    requires ClockAdvances(es) && forall i :: 0 <= i < |es| ==> es[i].now <= t
    ensures Covers(After(c, es).requests, Admitted(c, es), t - c.longWindow)
  {
    if es != [] {
      var n := |es| - 1;
      var e, p, a := es[n], After(c, es[..n]), Admitted(c, es[..n]);
      RunCovers(c, es[..n], e.now);
      if e.Ask? {
        forall since | since >= t - c.longWindow
          ensures CountAfter(After(c, es).requests, since) == CountAfter(Admitted(c, es), since)
        {
          AskCovers(c, p, a, e, since);
        }
      }
    }
  }

  lemma {:induction false} AskCovers(c: Config, p: Peer, a: seq<real>, e: Event, since: real)
    requires e.Ask? && Covers(p.requests, a, e.now - c.longWindow) && since >= e.now - c.longWindow
    ensures var (p', ok) := Check(c, p, e.now, e.later);
            CountAfter(p'.requests, since) == CountAfter(if ok then a + [e.now] else a, since)
  {
    var kept := DropOld(p.requests, e.now - c.longWindow);
    CheckRequests(c, p, e.now, e.later);
    DropCovers(p.requests, e.now - c.longWindow, since);
    CountPush(kept, e.now, since);
    CountPush(a, e.now, since);
    assert CountAfter(p.requests, since) == CountAfter(a, since);
  }

  /** What a decision does to the deque: nothing, or old requests dropped, or the new one added as well. */
  lemma {:induction false} CheckRequests(c: Config, p: Peer, now: real, later: real)
    ensures var (p', ok) := Check(c, p, now, later);
            var kept := DropOld(p.requests, now - c.longWindow);
            if ok then p'.requests == kept + [now] else p'.requests == p.requests || p'.requests == kept
  {
  }

  // ---------------------------------------------------------------- window limits

  ghost predicate Bounded(s: seq<real>, w: real, bound: int) {
    forall t :: InWindow(s, t, w) <= bound
  }

  lemma {:induction false} AdmitBounded(s: seq<real>, now: real, w: real, bound: int)
    requires Bounded(s, w, bound) && NotAfter(s, now) && InWindow(s, now, w) < bound
    ensures Bounded(s + [now], w, bound)
  {
    forall t ensures InWindow(s + [now], t, w) <= bound {
      assert (s + [now])[..|s|] == s;
      assert InWindow(s, t, w) <= bound;
      if now <= t { WindowMoves(s, now, t, w); }
    }
  }

  /** At most this many requests are admitted within the short window. */
  function ShortBound(c: Config): (n: nat) {
    var steady := (c.perSecond as real * c.suspicious).Floor + 1;
    if steady < 0 then 0 else if c.burst < steady then c.burst else steady
  }

  lemma {:induction false} NormalHasRoom(c: Config, violations: nat, short: nat, medium: nat, long: nat)
    requires Detect(c, violations, short, medium, long) == Normal
    ensures short < ShortBound(c) && medium < c.perMinute && long < c.perHour
  {
    assert short as real <= c.perSecond as real * c.suspicious;
  }

  /** What the limiter counts is what was admitted in the window. */
  lemma {:induction false} WindowCount(c: Config, p: Peer, a: seq<real>, now: real, w: real)
    requires Covers(p.requests, a, now - c.longWindow) && NotAfter(a, now) && w <= c.longWindow
    ensures CountAfter(DropOld(p.requests, now - c.longWindow), now - w) == InWindow(a, now, w)
  {
    DropCovers(p.requests, now - c.longWindow, now - w);
    CountWindow(a, now, w);
    assert CountAfter(p.requests, now - w) == CountAfter(a, now - w);
  }

  /** A request that is admitted found room in every window that the deque covers. */
  lemma {:induction false} AdmissionHasRoom(c: Config, p: Peer, a: seq<real>, now: real, later: real)
    requires Covers(p.requests, a, now - c.longWindow) && NotAfter(a, now)
    requires Check(c, p, now, later).1
    ensures c.shortWindow <= c.longWindow ==> InWindow(a, now, c.shortWindow) < ShortBound(c)
    ensures c.mediumWindow <= c.longWindow ==> InWindow(a, now, c.mediumWindow) < c.perMinute
    ensures InWindow(a, now, c.longWindow) < c.perHour
  {
    var kept := DropOld(p.requests, now - c.longWindow);
    if c.shortWindow <= c.longWindow { WindowCount(c, p, a, now, c.shortWindow); }
    if c.mediumWindow <= c.longWindow { WindowCount(c, p, a, now, c.mediumWindow); }
    WindowCount(c, p, a, now, c.longWindow);
    CountAtMost(kept, now - c.longWindow);
    NormalHasRoom(c, p.violations, CountAfter(kept, now - c.shortWindow), CountAfter(kept, now - c.mediumWindow),
                  |kept|);
  }

  /**
   * In every run with a clock that never goes back, every window of a second, a minute or an hour,
   * wherever it lies, holds at most as many admitted requests of a peer as configured, as long as the
   * deque covers the window.
   */
  lemma {:induction false} WindowsHold(c: Config, es: seq<Event>)
    requires ClockAdvances(es)
    ensures c.shortWindow <= c.longWindow ==> Bounded(Admitted(c, es), c.shortWindow, ShortBound(c))
    ensures c.mediumWindow <= c.longWindow ==> Bounded(Admitted(c, es), c.mediumWindow, c.perMinute)
    ensures Bounded(Admitted(c, es), c.longWindow, c.perHour)
  {
    if es != [] {
      var n := |es| - 1;
      WindowsHold(c, es[..n]);
      var e, p, a := es[n], After(c, es[..n]), Admitted(c, es[..n]);
      if e.Ask? && Check(c, p, e.now, e.later).1 {
        RunCovers(c, es[..n], e.now);
        AdmittedNotAfter(c, es[..n], e.now);
        AdmissionHasRoom(c, p, a, e.now, e.later);
        if c.shortWindow <= c.longWindow { AdmitBounded(a, e.now, c.shortWindow, ShortBound(c)); }
        if c.mediumWindow <= c.longWindow { AdmitBounded(a, e.now, c.mediumWindow, c.perMinute); }
        AdmitBounded(a, e.now, c.longWindow, c.perHour);
      }
    }
  }

  // ---------------------------------------------------------------- which window lengths the limits need

  ghost predicate Lengths(c: Config, short: real, medium: real, long: real) {
    c.shortWindow == short && c.mediumWindow == medium && c.longWindow == long
  }

  /** A window of no length holds nothing. */
  lemma {:induction false} EmptyWindow(s: seq<real>, w: real, bound: nat)
    requires w <= 0.0
    ensures Bounded(s, w, bound)
  {
    forall t ensures InWindow(s, t, w) <= bound { NothingInWindow(s, t, w); }
  }

  lemma {:induction false} NothingInWindow(s: seq<real>, t: real, w: real)
    requires w <= 0.0
    ensures InWindow(s, t, w) == 0
  {
    if s != [] { NothingInWindow(s[..|s| - 1], t, w); }
  }

  /** A deque shorter than a window forgets the first of two requests that the window still holds. */
  lemma {:induction false} ForgottenInWindow(c: Config, w: real) returns (es: seq<Event>)
    requires 0.0 < w && c.longWindow < w && Detect(c, 0, 0, 0, 0) == Normal
    ensures ClockAdvances(es) && !Bounded(Admitted(c, es), w, 1)
  {
    var x := (w + if c.longWindow > 0.0 then c.longWindow else 0.0) / 2.0;
    var e, f := Ask(0.0, 0.0), Ask(x, x);
    es := [e, f];
    AdmitsBoth(c, x);
    TwoInWindow(x, w);
    assert InWindow(Admitted(c, es), x, w) == 2;
  }

  lemma {:induction false} AdmitsBoth(c: Config, x: real)
    requires c.longWindow < x && 0.0 < x && Detect(c, 0, 0, 0, 0) == Normal
    ensures Admitted(c, [Ask(0.0, 0.0), Ask(x, x)]) == [0.0] + [x]
  {
    var e, f := Ask(0.0, 0.0), Ask(x, x);
    var p := STRANGER.(requests := [0.0]);
    assert Check(c, STRANGER, 0.0, 0.0) == (p, true) by { assert [] + [0.0] == [0.0]; }
    assert DropOld([0.0], x - c.longWindow) == [] by { assert [0.0][1..] == []; }
    assert Check(c, p, x, x).1;
    assert [e, f][..1] == [e] && [e][..0] == [];
    assert After(c, [e]) == Advance(c, After(c, []), e);
    assert Admitted(c, [e]) == [] + [0.0] == [0.0];
  }

  lemma {:induction false} TwoInWindow(x: real, w: real)
    requires 0.0 < x < w
    ensures InWindow([0.0] + [x], x, w) == 2
  {
    assert ([0.0] + [x])[..1] == [0.0] && [0.0][..0] == [];
    assert InWindow([0.0], x, w) == InWindow([], x, w) + 1;
  }

  /**
   * With these window lengths, the minute limit holds for every configuration exactly if the deque covers
   * the minute.
   */
  lemma {:induction false} MinuteLimitIff(short: real, medium: real, long: real)
    ensures (forall c, es :: Lengths(c, short, medium, long) && ClockAdvances(es) ==>
               Bounded(Admitted(c, es), medium, c.perMinute))
       <==> medium <= 0.0 || medium <= long
  {
    if medium <= 0.0 || medium <= long {
      forall c, es | Lengths(c, short, medium, long) && ClockAdvances(es)
        ensures Bounded(Admitted(c, es), medium, c.perMinute)
      {
        WindowsHold(c, es);
        if medium <= 0.0 { EmptyWindow(Admitted(c, es), medium, c.perMinute); }
      }
    } else {
      var c := DEFAULT.(perMinute := 1, shortWindow := short, mediumWindow := medium, longWindow := long);
      var es := ForgottenInWindow(c, medium);
      assert Lengths(c, short, medium, long);
    }
  }

  /** The same for the burst limit and the short window. */
  lemma {:induction false} BurstLimitIff(short: real, medium: real, long: real)
    ensures (forall c, es :: Lengths(c, short, medium, long) && ClockAdvances(es) ==>
               Bounded(Admitted(c, es), short, ShortBound(c)))
       <==> short <= 0.0 || short <= long
  {
    if short <= 0.0 || short <= long {
      forall c, es | Lengths(c, short, medium, long) && ClockAdvances(es)
        ensures Bounded(Admitted(c, es), short, ShortBound(c))
      {
        WindowsHold(c, es);
        if short <= 0.0 { EmptyWindow(Admitted(c, es), short, ShortBound(c)); }
      }
    } else {
      var c := DEFAULT.(burst := 1, shortWindow := short, mediumWindow := medium, longWindow := long);
      assert c.perSecond as real * c.suspicious == 15.0 && ShortBound(c) == 1;
      var es := ForgottenInWindow(c, short);
      assert Lengths(c, short, medium, long);
    }
  }

  // ---------------------------------------------------------------- consequences

  /** The threat a request meets when it is neither banned nor blocked. */
  function ThreatAt(c: Config, p: Peer, now: real): (t: Threat) {
    var kept := DropOld(p.requests, now - c.longWindow);
    Detect(c, p.violations, CountAfter(kept, now - c.shortWindow), CountAfter(kept, now - c.mediumWindow), |kept|)
  }

  /** What the limiter counts in the short window never exceeds the bound. */
  lemma {:induction false} ShortCountBounded(c: Config, es: seq<Event>, now: real)
    requires c.shortWindow <= c.longWindow && ClockAdvances(es) && forall i :: 0 <= i < |es| ==> es[i].now <= now
    ensures CountAfter(DropOld(After(c, es).requests, now - c.longWindow), now - c.shortWindow) <= ShortBound(c)
  {
    RunCovers(c, es, now);
    AdmittedNotAfter(c, es, now);
    WindowsHold(c, es);
    CountBounded(c, After(c, es), Admitted(c, es), now, ShortBound(c));
  }

  lemma {:induction false} CountBounded(c: Config, p: Peer, a: seq<real>, now: real, bound: int)
    requires Covers(p.requests, a, now - c.longWindow) && NotAfter(a, now)
    requires c.shortWindow <= c.longWindow && Bounded(a, c.shortWindow, bound)
    ensures CountAfter(DropOld(p.requests, now - c.longWindow), now - c.shortWindow) <= bound
  {
    WindowCount(c, p, a, now, c.shortWindow);
    assert InWindow(a, now, c.shortWindow) <= bound;
  }

  /** A high threat means more recent requests than the blocking threshold. */
  lemma {:induction false} HighExceeds(c: Config, violations: nat, short: nat, medium: nat, long: nat)
    requires Detect(c, violations, short, medium, long) == High
    ensures c.perSecond as real * c.blocking < short as real <= c.perSecond as real * c.ban
    ensures violations < c.banViolations
  {
  }

  /**
   * When the admitted rate cannot exceed the blocking threshold, no request of any run is ever judged a
   * high threat.
   */
  lemma {:induction false} NeverHigh(c: Config, es: seq<Event>, now: real)
    requires c.shortWindow <= c.longWindow && ShortBound(c) as real <= c.perSecond as real * c.blocking
    requires ClockAdvances(es) && forall i :: 0 <= i < |es| ==> es[i].now <= now
    ensures ThreatAt(c, After(c, es), now) != High
  {
    var p := After(c, es);
    var kept := DropOld(p.requests, now - c.longWindow);
    var short := CountAfter(kept, now - c.shortWindow);
    ShortCountBounded(c, es, now);
    assert short as real <= ShortBound(c) as real;
    if ThreatAt(c, p, now) == High {
      HighExceeds(c, p.violations, short, CountAfter(kept, now - c.mediumWindow), |kept|);
      assert false;
    }
  }

  /** So the level is never recorded either. */
  lemma {:induction false} NeverRecordedHigh(c: Config, es: seq<Event>)
    requires c.shortWindow <= c.longWindow && ShortBound(c) as real <= c.perSecond as real * c.blocking
    requires ClockAdvances(es)
    ensures After(c, es).threat != High
  {
    if es != [] {
      var n := |es| - 1;
      NeverRecordedHigh(c, es[..n]);
      NeverHigh(c, es[..n], es[n].now);
      StepNotHigh(c, After(c, es[..n]), es[n]);
    }
  }

  lemma {:induction false} StepNotHigh(c: Config, p: Peer, e: Event)
    requires p.threat != High && (e.Ask? ==> ThreatAt(c, p, e.now) != High)
    ensures Advance(c, p, e).threat != High
  {
  }

  // ---------------------------------------------------------------- when the high level can be reached

  /** The number of requests at one moment from which on the blocking threshold is exceeded. */
  function HighFrom(c: Config): (n: nat) {
    var n := (c.perSecond as real * c.blocking).Floor + 1;
    if n < 0 then 0 else n
  }

  function Smaller(a: nat, b: nat): (n: nat)
    ensures n <= a && n <= b && (n == a || n == b)
  {
    if a < b then a else b
  }

  /** The most requests that the short window ever holds. */
  function ShortMost(c: Config): (n: nat) {
    Smaller(ShortBound(c), Smaller(c.perMinute, c.perHour))
  }

  /** So many requests, all at time zero. */
  function Burst(n: nat): (es: seq<Event>) {
    if n == 0 then [] else Burst(n - 1) + [Ask(0.0, 0.0)]
  }

  function Zeros(n: nat): (s: seq<real>) {
    if n == 0 then [] else Zeros(n - 1) + [0.0]
  }

  lemma {:induction false} BurstAsks(n: nat)
    ensures |Burst(n)| == n && forall i :: 0 <= i < n ==> Burst(n)[i] == Ask(0.0, 0.0)
  {
    if n > 0 { BurstAsks(n - 1); }
  }

  lemma {:induction false} ZerosAt(n: nat)
    ensures |Zeros(n)| == n && forall i :: 0 <= i < n ==> Zeros(n)[i] == 0.0
  {
    if n > 0 { ZerosAt(n - 1); }
  }

  lemma {:induction false} ZerosCount(n: nat, since: real)
    requires since < 0.0
    ensures CountAfter(Zeros(n), since) == n
  {
    if n > 0 {
      ZerosCount(n - 1, since);
      CountPush(Zeros(n - 1), 0.0, since);
    }
  }

  lemma {:induction false} ZerosKept(n: nat, since: real)
    requires since < 0.0
    ensures DropOld(Zeros(n), since) == Zeros(n)
  {
    ZerosAt(n);
  }

  ghost predicate Ascend(c: Config) {
    0.0 < c.shortWindow <= c.mediumWindow <= c.longWindow
  }

  lemma {:induction false} BurstThreat(c: Config, n: nat)
    requires Ascend(c)
    ensures ThreatAt(c, STRANGER.(requests := Zeros(n)), 0.0) == Detect(c, 0, n, n, n)
  {
    var s := Zeros(n);
    assert |s| == n by { ZerosAt(n); }
    assert DropOld(s, 0.0 - c.longWindow) == s by { ZerosKept(n, 0.0 - c.longWindow); }
    assert CountAfter(s, 0.0 - c.shortWindow) == n by { ZerosCount(n, 0.0 - c.shortWindow); }
    assert CountAfter(s, 0.0 - c.mediumWindow) == n by { ZerosCount(n, 0.0 - c.mediumWindow); }
  }

  /** So many requests within the short window do not exceed the ban threshold. */
  predicate NotBanned(c: Config, n: nat) {
    n as real <= c.perSecond as real * c.ban
  }

  lemma {:induction false} FewerNotBanned(c: Config, n: nat)
    requires n > 0 && NotBanned(c, n)
    ensures NotBanned(c, n - 1)
  {
    assert (n - 1) as real <= n as real;
  }

  /** Below the threshold and the limits, a burst is admitted. */
  lemma {:induction false} BurstAdmitted(c: Config, n: nat)
    requires Ascend(c) && c.banViolations > 0
    requires n <= HighFrom(c) && n <= ShortMost(c) && NotBanned(c, n)
    ensures After(c, Burst(n)) == STRANGER.(requests := Zeros(n))
  {
    if n > 0 {
      FewerNotBanned(c, n);
      BurstAdmitted(c, n - 1);
      assert Check(c, STRANGER.(requests := Zeros(n - 1)), 0.0, 0.0).0 == STRANGER.(requests := Zeros(n)) by {
        BurstStep(c, n - 1);
      }
      BurstLast(c, n);
    }
  }

  lemma {:induction false} BurstLast(c: Config, n: nat)
    requires n > 0
    ensures After(c, Burst(n)) == Check(c, After(c, Burst(n - 1)), 0.0, 0.0).0
  {
    BurstAsks(n - 1);
    assert Burst(n)[..n - 1] == Burst(n - 1) && Burst(n)[n - 1] == Ask(0.0, 0.0);
  }

  lemma {:induction false} BurstStep(c: Config, n: nat)
    requires Ascend(c) && c.banViolations > 0
    requires n < HighFrom(c) && n < ShortMost(c) && NotBanned(c, n)
    ensures Check(c, STRANGER.(requests := Zeros(n)), 0.0, 0.0).0 == STRANGER.(requests := Zeros(n) + [0.0])
  {
    assert ThreatAt(c, STRANGER.(requests := Zeros(n)), 0.0) == Normal by {
      BurstThreat(c, n);
      BelowIsNormal(c, n);
    }
    assert DropOld(Zeros(n), 0.0 - c.longWindow) == Zeros(n) by { ZerosKept(n, 0.0 - c.longWindow); }
  }

  lemma {:induction false} BelowIsNormal(c: Config, n: nat)
    requires c.banViolations > 0 && n < HighFrom(c) && n < ShortMost(c) && NotBanned(c, n)
    ensures Detect(c, 0, n, n, n) == Normal
  {
    var suspicious := c.perSecond as real * c.suspicious;
    var blocking := c.perSecond as real * c.blocking;
    assert n < ShortBound(c) && n <= suspicious.Floor;
    assert n <= blocking.Floor;
  }

  lemma {:induction false} LongerHoldsMore(s: seq<real>, t: real, w: real, v: real)
    requires w <= v
    ensures InWindow(s, t, w) <= InWindow(s, t, v)
  {
    if s != [] { LongerHoldsMore(s[..|s| - 1], t, w, v); }
  }

  lemma {:induction false} ShortCountMost(c: Config, es: seq<Event>, now: real)
    requires Ascend(c) && ClockAdvances(es) && forall i :: 0 <= i < |es| ==> es[i].now <= now
    ensures CountAfter(DropOld(After(c, es).requests, now - c.longWindow), now - c.shortWindow) <= ShortMost(c)
  {
    var a := Admitted(c, es);
    RunCovers(c, es, now);
    AdmittedNotAfter(c, es, now);
    WindowsHold(c, es);
    WindowCount(c, After(c, es), a, now, c.shortWindow);
    LongerHoldsMore(a, now, c.shortWindow, c.mediumWindow);
    LongerHoldsMore(a, now, c.shortWindow, c.longWindow);
    assert InWindow(a, now, c.shortWindow) <= ShortBound(c);
    assert InWindow(a, now, c.mediumWindow) <= c.perMinute;
    assert InWindow(a, now, c.longWindow) <= c.perHour;
  }

  /** A request at this time, after this run, is judged a high threat. */
  ghost predicate JudgedHigh(c: Config, es: seq<Event>, now: real) {
    ClockAdvances(es) && (forall i :: 0 <= i < |es| ==> es[i].now <= now) && ThreatAt(c, After(c, es), now) == High
  }

  lemma {:induction false} HighMeans(c: Config, es: seq<Event>, now: real)
    requires Ascend(c) && JudgedHigh(c, es, now)
    ensures c.banViolations > 0 && HighFrom(c) <= ShortMost(c)
    ensures NotBanned(c, HighFrom(c))
  {
    var kept := DropOld(After(c, es).requests, now - c.longWindow);
    var short := CountAfter(kept, now - c.shortWindow);
    ShortCountMost(c, es, now);
    HighExceeds(c, After(c, es).violations, short, CountAfter(kept, now - c.mediumWindow), |kept|);
    ThresholdPassed(c, short);
  }

  lemma {:induction false} ThresholdPassed(c: Config, short: nat)
    requires c.perSecond as real * c.blocking < short as real
    ensures HighFrom(c) <= short
  {
    var blocking := c.perSecond as real * c.blocking;
    assert blocking.Floor < short;
  }

  lemma {:induction false} ThresholdIsHigh(c: Config)
    requires c.banViolations > 0 && NotBanned(c, HighFrom(c))
    ensures var n := HighFrom(c); Detect(c, 0, n, n, n) == High
  {
    var blocking := c.perSecond as real * c.blocking;
    assert blocking < (blocking.Floor + 1) as real;
    assert blocking < HighFrom(c) as real;
  }

  lemma {:induction false} HighHappens(c: Config)
    requires Ascend(c) && c.banViolations > 0 && HighFrom(c) <= ShortMost(c)
    requires NotBanned(c, HighFrom(c))
    ensures JudgedHigh(c, Burst(HighFrom(c)), 0.0)
  {
    var n := HighFrom(c);
    assert ThreatAt(c, After(c, Burst(n)), 0.0) == Detect(c, 0, n, n, n) by {
      BurstAdmitted(c, n);
      BurstThreat(c, n);
    }
    ThresholdIsHigh(c);
    assert ClockAdvances(Burst(n)) && forall i :: 0 <= i < |Burst(n)| ==> Burst(n)[i].now <= 0.0 by { BurstAsks(n); }
  }

  /** Some run leads to a high threat exactly if the threshold lies within the limits and below the ban. */
  lemma {:induction false} HighReachableIff(c: Config)
    requires Ascend(c)
    ensures (exists es, now :: JudgedHigh(c, es, now))
       <==> c.banViolations > 0 && HighFrom(c) <= ShortMost(c) && NotBanned(c, HighFrom(c))
  {
    if es, now :| JudgedHigh(c, es, now) {
      HighMeans(c, es, now);
    } else if c.banViolations > 0 && HighFrom(c) <= ShortMost(c) && NotBanned(c, HighFrom(c)) {
      HighHappens(c);
    }
  }

  /**
   * With the default configuration: at most 16 requests a second, 100 a minute, 1000 an hour, and no
   * request is ever judged a high threat.
   */
  lemma {:induction false} DefaultLimits(es: seq<Event>, now: real)
    requires ClockAdvances(es) && forall i :: 0 <= i < |es| ==> es[i].now <= now
    ensures Bounded(Admitted(DEFAULT, es), 1.0, 16)
    ensures Bounded(Admitted(DEFAULT, es), 60.0, 100)
    ensures Bounded(Admitted(DEFAULT, es), 3600.0, 1000)
    ensures ThreatAt(DEFAULT, After(DEFAULT, es), now) != High && After(DEFAULT, es).threat != High
  {
    assert DEFAULT.perSecond as real * DEFAULT.suspicious == 15.0;
    assert ShortBound(DEFAULT) == 16;
    WindowsHold(DEFAULT, es);
    NeverHigh(DEFAULT, es, now);
    NeverRecordedHigh(DEFAULT, es);
  }

  function Refusals(es: seq<Event>): (n: nat) {
    if es == [] then 0 else Refusals(es[..|es| - 1]) + (if es[|es| - 1].Refusal? then 1 else 0)
  }

  lemma {:induction false} ViolationsGrow(c: Config, es: seq<Event>)
    ensures After(c, es).violations >= Refusals(es)
  {
    if es != [] { ViolationsGrow(c, es[..|es| - 1]); }
  }

  /** After the configured number of recorded refusals a peer is never admitted again. */
  lemma {:induction false} NeverAgain(c: Config, es: seq<Event>, now: real, later: real)
    requires Refusals(es) >= c.banViolations
    ensures !Check(c, After(c, es), now, later).1
  {
    ViolationsGrow(c, es);
  }

  /** How long a peer is shut out when this threat is found. */
  function BlockTime(c: Config, t: Threat): (d: real) {
    match t
    case Moderate => c.tempBlock
    case High => c.extendedBlock
    case Critical => 86400.0
    case _ => 0.0
  }

  /** A refused request shuts the peer out for the time that belongs to the threat, or for good if it is banned. */
  lemma {:induction false} ShutOut(c: Config, p: Peer, now: real, later: real, again: real, later': real)
    requires !p.banned && (p.blockedUntil.Some? ==> p.blockedUntil.value <= now)
    requires ThreatAt(c, p, now).Level() >= Moderate.Level()
    requires again < later + BlockTime(c, ThreatAt(c, p, now)) || (ThreatAt(c, p, now).Critical? && c.canBan)
    ensures var p' := Check(c, p, now, later).0;
            !Check(c, p, now, later).1 && Check(c, p', again, later') == (p', false)
  {
  }

  /** The recorded threat level of a peer only rises. */
  lemma {:induction false} ThreatRises(c: Config, p: Peer, e: Event)
    ensures Advance(c, p, e).threat.Level() >= p.threat.Level()
    ensures Advance(c, p, e).violations >= p.violations
  {
  }
}
