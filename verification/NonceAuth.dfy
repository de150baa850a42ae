/** Replay protection of the signature authorizer, on top of the timed storage. */
module NonceAuth {
  import opened Basics
  import opened TimedSpec
  import opened TimedStorages

  /** The parts of a request that validation looks at; `signed` says that the signature verifies. */
  datatype Request = Request(nonce: Key, time: real, signed: bool, addressee: nat)

  /** A request that was accepted, and the time of the authorizer's clock when it was checked. */
  datatype Acceptance = Acceptance(request: Request, at: real)

  const MAX_TIME_DIFF: real := 60.0
  const NONCE_LIFETIME: real := 3.0 * MAX_TIME_DIFF

  /** An accepted nonce is still stored, or its lifetime has passed. */
  ghost predicate Remembered(items: Timed<()>, accepted: seq<Acceptance>, now: real) {
    forall i :: 0 <= i < |accepted| ==>
      || (&& accepted[i].request.nonce in items
          && items[accepted[i].request.nonce].deadline >= accepted[i].at + NONCE_LIFETIME)
      || now > accepted[i].at + NONCE_LIFETIME
  }

  /** Accepted requests were in time, and equal nonces are more than a lifetime apart. */
  ghost predicate Fresh(accepted: seq<Acceptance>) {
    && (forall i :: 0 <= i < |accepted| ==>
          -MAX_TIME_DIFF <= accepted[i].request.time - accepted[i].at <= MAX_TIME_DIFF)
    && forall i, j :: 0 <= i < j < |accepted| && accepted[i].request.nonce == accepted[j].request.nonce ==>
         accepted[j].at > accepted[i].at + NONCE_LIFETIME
  }

  /** Accepted requests were signed and meant for this node or for nobody in particular. */
  ghost predicate AllForMe(accepted: seq<Acceptance>, localKey: nat) {
    forall i :: 0 <= i < |accepted| ==>
      accepted[i].request.signed && accepted[i].request.addressee in {0, localKey}
  }

  /** Only nonces of accepted requests are stored. */
  ghost predicate OnlyAccepted(items: Timed<()>, accepted: seq<Acceptance>) {
    forall k :: k in items ==> Used(k, accepted)
  }

  ghost predicate Used(nonce: Key, accepted: seq<Acceptance>) {
    exists i :: 0 <= i < |accepted| && accepted[i].request.nonce == nonce
  }

  lemma {:induction false} UsedGrows(nonce: Key, accepted: seq<Acceptance>, a: Acceptance)
    ensures Used(nonce, accepted) ==> Used(nonce, accepted + [a])
    ensures Used(a.request.nonce, accepted + [a])
  {
    var more := accepted + [a];
    if i :| 0 <= i < |accepted| && accepted[i].request.nonce == nonce { assert more[i].request.nonce == nonce; }
    assert more[|accepted|] == a;
  }

  lemma {:induction false} CleanedOnly(s: Storage<()>, accepted: seq<Acceptance>, now: real)
    requires OnlyAccepted(s.items, accepted)
    ensures OnlyAccepted(Cleaned(s, now).items, accepted)
  {
    PruneMeaning(s.items, s.maxsize, now);
  }

  lemma {:induction false} StoredOnly(s: Storage<()>, accepted: seq<Acceptance>, a: Acceptance, e: real, now: real,
                                      later: real)
    requires OnlyAccepted(s.items, accepted)
    ensures OnlyAccepted(Stored(s, a.request.nonce, (), e, now, later).0.items, accepted + [a])
  {
    var k := a.request.nonce;
    forall j | j in s.items || j == k ensures Used(j, accepted + [a]) { UsedGrows(j, accepted, a); }
    CleanedOnly(s.(items := s.items[k := Item((), e, e)]), accepted + [a], later);
  }

  /** So no request is ever accepted twice: equal nonces come with different times. */
  lemma {:induction false} NoReplay(accepted: seq<Acceptance>, i: nat, j: nat)
    requires Fresh(accepted) && i < j < |accepted| && accepted[i].request.nonce == accepted[j].request.nonce
    ensures accepted[j].request.time - accepted[i].request.time > MAX_TIME_DIFF
  {
    var a, b := accepted[i], accepted[j];
    assert b.at > a.at + 180.0;
    assert a.request.time <= a.at + 60.0 && b.request.time >= b.at - 60.0;
  }

  lemma {:induction false} CleanedRemembers(s: Storage<()>, accepted: seq<Acceptance>, now: real, later: real)
    requires s.maxsize.None? && Remembered(s.items, accepted, now) && now <= later
    ensures Remembered(Cleaned(s, later).items, accepted, later)
  {
    var items := Cleaned(s, later).items;
    forall i | 0 <= i < |accepted|
      ensures || later > accepted[i].at + NONCE_LIFETIME
              || (&& accepted[i].request.nonce in items
                  && items[accepted[i].request.nonce].deadline >= accepted[i].at + NONCE_LIFETIME)
    {
    }
  }

  /** Storing a nonce that is not there keeps all older ones and remembers the new one. */
  lemma {:induction false} StoredRemembers(s: Storage<()>, accepted: seq<Acceptance>, a: Acceptance, start: real,
                                           now: real, later: real)
    requires s.maxsize.None? && Remembered(s.items, accepted, start) && a.request.nonce !in s.items
    requires a.at <= start <= now <= later
    ensures var s' := Stored(s, a.request.nonce, (), a.at + NONCE_LIFETIME, now, later).0;
            Remembered(s'.items, accepted + [a], later)
  {
    var e := a.at + NONCE_LIFETIME;
    if !(e < now && !s.frozen) {
      var s1 := s.(items := s.items[a.request.nonce := Item((), e, e)]);
      assert Remembered(s1.items, accepted + [a], start);
      CleanedRemembers(s1, accepted + [a], start, later);
    }
  }

  lemma {:induction false} AcceptFresh(items: Timed<()>, accepted: seq<Acceptance>, a: Acceptance, now: real)
    requires Fresh(accepted) && Remembered(items, accepted, now) && a.request.nonce !in items && a.at >= now
    requires -MAX_TIME_DIFF <= a.request.time - a.at <= MAX_TIME_DIFF
    ensures Fresh(accepted + [a])
  {
  }

  /** Signed, and meant for this node or for nobody in particular (0). */
  predicate ForMe(request: Request, localKey: nat) {
    request.signed && (request.addressee == 0 || request.addressee == localKey)
  }

  /** For this node, in time, and with an unknown nonce. */
  predicate Admissible(request: Request, localKey: nat, at: real, items: Timed<()>) {
    && ForMe(request, localKey)
    && -MAX_TIME_DIFF <= request.time - at <= MAX_TIME_DIFF
    && request.nonce !in items
  }

  class SignatureAuthorizer {
    const clock: Clock
    const localKey: nat
    const recentNonces: TimedStorage<()>
    ghost var accepted: seq<Acceptance>

    ghost predicate Valid()
      reads this, clock, recentNonces
    {
      && recentNonces.Valid() && recentNonces.clock == clock
      && recentNonces.maxsize.None? && !recentNonces.frozen
      && Remembered(recentNonces.View().items, accepted, clock.now)
      && OnlyAccepted(recentNonces.View().items, accepted)
      && Fresh(accepted) && AllForMe(accepted, localKey)
    }

    constructor (clock: Clock, localKey: nat)
      ensures Valid() && accepted == [] && this.clock == clock && fresh(recentNonces)
    {
      this.clock, this.localKey, accepted := clock, localKey, [];
      recentNonces := new TimedStorage<()>(None, clock);
    }

    /** Checks time and nonce while no nonce can be removed. */
    method CheckFrozen(request: Request) returns (at: real, fine: bool)
      requires Valid()
      modifies recentNonces, clock
      ensures recentNonces.Valid() && recentNonces.View() == old(recentNonces.View())
      ensures old(clock.now) <= at <= clock.now
      ensures fine
           == (-MAX_TIME_DIFF <= request.time - at <= MAX_TIME_DIFF && request.nonce !in recentNonces.View().items)
    {
      var previous := recentNonces.SetFrozen(true);
      at := clock.Read();
      if request.time - at > MAX_TIME_DIFF || at - request.time > MAX_TIME_DIFF {
        previous := recentNonces.SetFrozen(previous);
        return at, false;
      }
      var seen := recentNonces.Contains(request.nonce);
      previous := recentNonces.SetFrozen(previous);
      return at, !seen;
    }

    /** Checks a request without recording it; `at` is the time of the check. */
    method DoValidateRequest(request: Request) returns (at: real, valid: bool)
      requires Valid()
      modifies recentNonces, clock
      ensures Valid() && clock.now >= old(clock.now)
      ensures valid == Admissible(request, localKey, at, old(recentNonces.View()).items)
      ensures valid ==> request.nonce !in recentNonces.View().items
      ensures valid ==> Fresh(accepted + [Acceptance(request, at)])
      ensures ForMe(request, localKey) ==> old(clock.now) <= at <= clock.now
    {
      if !request.signed { return 0.0, false; }
      if request.addressee != 0 && request.addressee != localKey { return 0.0, false; }
      ghost var before, start := recentNonces.View(), clock.now;
      at, valid := CheckFrozen(request);
      if !valid { return; }
      AcceptFresh(before.items, accepted, Acceptance(request, at), start);
      var seen := recentNonces.Contains(request.nonce);
      CleanedRemembers(before, accepted, start, clock.now);
      CleanedOnly(before, accepted, clock.now);
      valid := !seen;
    }

    /**
     * Accepts a request exactly when it is admissible, and never the same one twice. One that is for this
     * node and in time is refused only if its nonce was accepted before.
     */
    method ValidateRequest(request: Request) returns (ok: bool, ghost at: real)
      requires Valid()
      modifies this`accepted, recentNonces, clock
      ensures Valid()
      ensures ok == Admissible(request, localKey, at, old(recentNonces.View()).items)
      ensures ForMe(request, localKey) ==> old(clock.now) <= at <= clock.now
      ensures !ok && ForMe(request, localKey) && -MAX_TIME_DIFF <= request.time - at <= MAX_TIME_DIFF ==>
                Used(request.nonce, old(accepted))
      ensures accepted == if ok then old(accepted) + [Acceptance(request, at)] else old(accepted)
    {
      var checked, valid := DoValidateRequest(request);
      at := checked;
      if !valid { return false, at; }
      ghost var s, start := recentNonces.View(), clock.now;
      ghost var a := Acceptance(request, at);
      var stored, now := recentNonces.Store(request.nonce, (), checked + NONCE_LIFETIME);
      StoredRemembers(s, accepted, a, start, now, clock.now);
      StoredOnly(s, accepted, a, at + NONCE_LIFETIME, now, clock.now);
      accepted := accepted + [a];
      return true, at;
    }
  }
}
