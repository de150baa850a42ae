/** Storing a value on the nearest nodes until enough of them confirmed it. */
module ReplicaStores {
  import opened XorMetric
  import opened Ranked
  import opened Counting

  /** What became of a candidate so far. */
  datatype Fate = Untried | Pending | Succeeded | Failed

  ghost function Where(fates: seq<Fate>, fate: Fate): set<nat> {
    set i | 0 <= i < |fates| && fates[i] == fate
  }

  lemma {:induction false} WhereUpdate(fates: seq<Fate>, i: nat, x: Fate, fate: Fate)
    requires i < |fates| && fates[i] != x
    ensures Where(fates[i := x], fate)
         == if fate == x then Where(fates, fate) + {i}
            else if fate == fates[i] then Where(fates, fate) - {i}
            else Where(fates, fate)
  {
  }

  /** Candidates are tried strictly in order; nothing behind `next` was touched. */
  ghost predicate InOrder(fates: seq<Fate>, next: nat) {
    && next <= |fates|
    && (forall i :: 0 <= i < next ==> !fates[i].Untried?)
    && (forall i :: next <= i < |fates| ==> fates[i].Untried?)
  }

  /** How many stores are confirmed or running. */
  ghost function Load(fates: seq<Fate>): (n: nat) {
    |Where(fates, Succeeded)| + |Where(fates, Pending)|
  }

  // ---------------------------------------------------------------- what happens to the candidates

  /** The nearest untried candidate is tried: a store starts running, or the node stores the value itself. */
  ghost predicate Tries(before: seq<Fate>, after: seq<Fate>, i: nat) {
    i < |before| && InOrder(before, i) && (after == before[i := Pending] || after == before[i := Succeeded])
  }

  /** A running store ends. */
  ghost predicate Settles(before: seq<Fate>, after: seq<Fate>, i: nat) {
    i < |before| && before[i].Pending? && (after == before[i := Succeeded] || after == before[i := Failed])
  }

  ghost predicate Follows(before: seq<Fate>, after: seq<Fate>) {
    exists i: nat :: Tries(before, after, i) || Settles(before, after, i)
  }

  /** From nothing tried on, one event after the other, and never more confirmed and running stores than replicas. */
  ghost predicate Lawful(history: seq<seq<Fate>>, replicas: nat) {
    && history != [] && InOrder(history[0], 0)
    && (forall t :: 0 <= t < |history| ==> Load(history[t]) <= replicas)
    && (forall t, u :: 0 <= t && u == t + 1 && u < |history| ==> Follows(history[t], history[u]))
  }

  /** At every moment exactly the candidates up to some point have been tried. */
  lemma {:induction false} TriedInOrder(history: seq<seq<Fate>>, replicas: nat, t: nat) returns (next: nat)
    requires Lawful(history, replicas) && t < |history|
    ensures |history[t]| == |history[0]| && InOrder(history[t], next)
  {
    next := 0;
    if t > 0 {
      next := TriedInOrder(history, replicas, t - 1);
      assert Follows(history[t - 1], history[t]);
      var i: nat :| Tries(history[t - 1], history[t], i) || Settles(history[t - 1], history[t], i);
      if Tries(history[t - 1], history[t], i) { next := i + 1; }
    }
  }

  /** A store that has ended is never touched again: no candidate is tried twice. */
  lemma {:induction false} EndIsFinal(history: seq<seq<Fate>>, replicas: nat, t: nat, u: nat, i: nat)
    requires Lawful(history, replicas) && t <= u < |history| && i < |history[t]|
    requires history[t][i].Succeeded? || history[t][i].Failed?
    ensures i < |history[u]| && history[u][i] == history[t][i]
    decreases u
  {
    if t < u {
      EndIsFinal(history, replicas, t, u - 1, i);
      assert Follows(history[u - 1], history[u]);
    }
  }

  lemma {:induction false} LawfulGrows(history: seq<seq<Fate>>, fates: seq<Fate>, replicas: nat)
    requires Lawful(history, replicas) && Follows(history[|history| - 1], fates) && Load(fates) <= replicas
    ensures Lawful(history + [fates], replicas)
  {
  }

  lemma {:induction false} LoadMoves(fates: seq<Fate>, i: nat, x: Fate)
    requires i < |fates| && fates[i] != x && (fates[i].Untried? || fates[i].Pending?)
    requires x.Pending? || x.Succeeded? || x.Failed?
    ensures Load(fates[i := x])
         == Load(fates) + (if x.Failed? then 0 else 1) - (if fates[i].Pending? then 1 else 0)
  {
    WhereUpdate(fates, i, x, Succeeded);
    WhereUpdate(fates, i, x, Pending);
  }

  /** The peers that are asked to store, seen from the node; the history is written by its events only. */
  class Network {
    const replicas: nat
    var fates: seq<Fate>
    var history: seq<seq<Fate>>

    ghost predicate Valid()
      reads this
    {
      Lawful(history, replicas) && history[|history| - 1] == fates
    }

    constructor (candidates: nat, replicas: nat)
      ensures Valid() && this.replicas == replicas
      ensures |fates| == candidates && InOrder(fates, 0) && history == [fates]
    {
      this.replicas := replicas;
      fates := seq(candidates, _ => Untried);
      new;
      history := [fates];
      assert Where(fates, Pending) == {} && Where(fates, Succeeded) == {};
    }

    /** Sends a store to the nearest untried candidate; there has to be room for it. */
    method Start(i: nat)
      requires Valid() && i < |fates| && InOrder(fates, i) && Load(fates) < replicas
      modifies this
      ensures Valid() && fates == old(fates)[i := Pending] && history == old(history) + [fates]
    {
      Record(i, Pending);
    }

    /** Stores the value on the node itself, which is the nearest untried candidate. */
    method StoreOwn(i: nat)
      requires Valid() && i < |fates| && InOrder(fates, i) && Load(fates) < replicas
      modifies this
      ensures Valid() && fates == old(fates)[i := Succeeded] && history == old(history) + [fates]
    {
      Record(i, Succeeded);
    }

    /** A running store ends, well or badly. */
    method End(i: nat) returns (confirmed: bool)
      requires Valid() && i < |fates| && fates[i].Pending?
      modifies this
      ensures Valid() && fates == old(fates)[i := if confirmed then Succeeded else Failed]
      ensures history == old(history) + [fates]
    {
      confirmed := *;
      Record(i, if confirmed then Succeeded else Failed);
    }

    method Record(i: nat, x: Fate)
      requires Valid() && i < |fates|
      requires || (InOrder(fates, i) && Load(fates) < replicas && (x.Pending? || x.Succeeded?))
               || (fates[i].Pending? && (x.Succeeded? || x.Failed?))
      modifies this
      ensures Valid() && fates == old(fates)[i := x] && history == old(history) + [fates]
    {
      LoadMoves(fates, i, x);
      assert Tries(fates, fates[i := x], i) || Settles(fates, fates[i := x], i);
      LawfulGrows(history, fates[i := x], replicas);
      fates := fates[i := x];
      history := history + [fates];
    }
  }

  // ---------------------------------------------------------------- the counters of the loop

  /** The counters of the loop agree with the fates of the candidates. */
  ghost predicate Tally(fates: seq<Fate>, next: nat, successes: nat, pending: set<nat>) {
    && InOrder(fates, next)
    && pending == Where(fates, Pending)
    && successes == |Where(fates, Succeeded)|
  }

  lemma {:induction false} TallyTry(fates: seq<Fate>, next: nat, successes: nat, pending: set<nat>)
    requires Tally(fates, next, successes, pending) && next < |fates|
    ensures Tally(fates[next := Succeeded], next + 1, successes + 1, pending)
    ensures Tally(fates[next := Pending], next + 1, successes, pending + {next})
  {
    WhereUpdate(fates, next, Succeeded, Succeeded);
    WhereUpdate(fates, next, Succeeded, Pending);
    WhereUpdate(fates, next, Pending, Succeeded);
    WhereUpdate(fates, next, Pending, Pending);
  }

  lemma {:induction false} TallySettle(fates: seq<Fate>, next: nat, successes: nat, pending: set<nat>, i: nat)
    requires Tally(fates, next, successes, pending) && i in pending
    ensures Tally(fates[i := Succeeded], next, successes + 1, pending - {i})
    ensures Tally(fates[i := Failed], next, successes, pending - {i})
  {
    WhereUpdate(fates, i, Succeeded, Succeeded);
    WhereUpdate(fates, i, Succeeded, Pending);
    WhereUpdate(fates, i, Failed, Succeeded);
    WhereUpdate(fates, i, Failed, Pending);
  }

  /** Storing on the node itself never fails, and only there nothing has to be awaited. */
  ghost predicate OwnStoreHolds(candidates: seq<nat>, fates: seq<Fate>, self: nat) {
    && |fates| == |candidates|
    && forall i :: 0 <= i < |candidates| && candidates[i] == self ==> fates[i].Untried? || fates[i].Succeeded?
  }

  /** Waits until at least one running store is over and counts those that succeeded. */
  method AwaitSome(network: Network, ghost next: nat, successes: nat, pending: set<nat>)
    returns (successes': nat, pending': set<nat>)
    requires network.Valid() && pending != {} && Tally(network.fates, next, successes, pending)
    modifies network
    ensures network.Valid() && Tally(network.fates, next, successes', pending')
    ensures |network.fates| == |old(network.fates)| && pending' < pending && successes' >= successes
    ensures forall i :: 0 <= i < |network.fates| && !old(network.fates)[i].Pending? ==>
              network.fates[i] == old(network.fates)[i]
    ensures old(network.history) <= network.history
  {
    successes', pending' := successes, pending;
    var first: nat :| first in pending;
    var finished: set<nat> := *;
    finished := (finished * pending) + {first};
    while finished != {}
      invariant finished <= pending' <= pending && successes' >= successes
      invariant first in finished || pending' < pending
      invariant network.Valid() && Tally(network.fates, next, successes', pending')
      invariant |network.fates| == |old(network.fates)| && old(network.history) <= network.history
      invariant forall i :: 0 <= i < |network.fates| && !old(network.fates)[i].Pending? ==>
                  network.fates[i] == old(network.fates)[i]
      decreases |finished|
    {
      var task: nat :| task in finished;
      finished := finished - {task};
      TallySettle(network.fates, next, successes', pending', task);
      var confirmed := network.End(task);
      pending' := pending' - {task};
      if confirmed { successes' := successes' + 1; }
    }
  }

  /** Tries candidates, nearest first, as long as there is room for another store. */
  method Dispatch(network: Network, candidates: seq<nat>, self: nat, tried: nat, successes: nat, pending: set<nat>)
    returns (tried': nat, successes': nat, pending': set<nat>)
    requires network.Valid() && Tally(network.fates, tried, successes, pending)
    requires OwnStoreHolds(candidates, network.fates, self)
    modifies network
    ensures network.Valid() && Tally(network.fates, tried', successes', pending')
    ensures OwnStoreHolds(candidates, network.fates, self) && old(network.history) <= network.history
    ensures tried <= tried' && (tried' == |candidates| || successes' + |pending'| >= network.replicas)
    ensures tried' == tried ==> pending' == pending && successes' == successes
  {
    tried', successes', pending' := tried, successes, pending;
    while tried' < |candidates| && successes' + |pending'| < network.replicas
      invariant network.Valid() && Tally(network.fates, tried', successes', pending')
      invariant OwnStoreHolds(candidates, network.fates, self) && old(network.history) <= network.history
      invariant tried <= tried' <= |candidates|
      invariant tried' == tried ==> pending' == pending && successes' == successes
      decreases |candidates| - tried'
    {
      TallyTry(network.fates, tried', successes', pending');
      if candidates[tried'] == self {
        successes' := successes' + 1;
        network.StoreOwn(tried');
      } else {
        pending' := pending' + {tried'};
        network.Start(tried');
      }
      tried' := tried' + 1;
    }
  }

  /**
   * Stores on the nearest candidates. Which running stores end first and which of them succeed is
   * arbitrary. By the history of the network, candidates are tried nearest first, each at most once, and
   * confirmed and running stores together never exceed `replicas`; at the end nothing is running, and
   * either enough stores were confirmed or every candidate was tried.
   */
  method StoreReplicas(key: nat, nearest: seq<nat>, self: nat, excludeSelf: bool, replicas: nat)
    returns (candidates: seq<nat>, network: Network, tried: nat, successes: nat)
    ensures candidates == SortBy(Dist(key), nearest + (if excludeSelf then [] else [self]))
    ensures fresh(network) && network.replicas == replicas && network.Valid()
    ensures Tally(network.fates, tried, successes, {}) && (successes == replicas || tried == |candidates|)
    ensures OwnStoreHolds(candidates, network.fates, self)
  {
    candidates := SortBy(Dist(key), nearest + (if excludeSelf then [] else [self]));
    network := new Network(|candidates|, replicas);
    tried, successes := 0, 0;
    var pending: set<nat> := {};
    assert Where(network.fates, Pending) == {} && Where(network.fates, Succeeded) == {};
    while successes < replicas && (tried < |candidates| || pending != {})
      invariant fresh(network) && network.replicas == replicas && network.Valid()
      invariant Tally(network.fates, tried, successes, pending) && OwnStoreHolds(candidates, network.fates, self)
      decreases |candidates| - tried, |pending|
    {
      tried, successes, pending := Dispatch(network, candidates, self, tried, successes, pending);
      if pending != {} {
        ghost var waiting := pending;
        successes, pending := AwaitSome(network, tried, successes, pending);
        SubsetSize(pending, waiting);
      }
    }
    assert Load(network.fates) <= replicas;
    if successes == replicas { assert |pending| == 0; }
    assert pending == {};
  }
}
