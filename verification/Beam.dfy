/** The two heaps of a beam search: nodes still to be asked, and the nearest nodes found so far. */
module Beam {
  import opened XorMetric
  import opened Ranked

  /** What a node answers when asked for its neighbours, and whether it asks to stop the search. */
  datatype Reply = Reply(neighbors: seq<nat>, stop: bool)

  /** The node was asked, still waits to be asked, or is farther than the whole full beam. */
  ghost predicate Handled(q: nat, beam: nat, n: nat, asked: set<nat>, waiting: seq<nat>, nearest: seq<nat>) {
    || n in asked
    || n in waiting
    || (|nearest| == beam && forall m :: m in nearest ==> Xor(q, m) < Xor(q, n))
  }

  /** What holds between two steps of the search. */
  ghost predicate Searching(q: nat, beam: nat, discovered: seq<nat>, asked: set<nat>, waiting: seq<nat>,
                            nearest: seq<nat>)
  {
    && nearest == First(beam, SortBy(Dist(q), discovered))
    && Ascending(Dist(q), waiting)
    && (forall n :: n in waiting ==> n in discovered)
    && forall n {:trigger Handled(q, beam, n, asked, waiting, nearest)} ::
         n in discovered ==> Handled(q, beam, n, asked, waiting, nearest)
  }

  lemma {:induction false} NearestBasics(q: nat, beam: nat, discovered: seq<nat>)
    ensures var r := First(beam, SortBy(Dist(q), discovered));
            && Ascending(Dist(q), r)
            && (forall n :: n in r ==> n in discovered)
            && (|discovered| <= beam ==> forall n :: n in discovered ==> n in r)
  {
    SortAscending(Dist(q), discovered);
    SortContents(Dist(q), discovered);
    SameMembers(SortBy(Dist(q), discovered), discovered);
  }

  /** The last node of the beam is the farthest of it. */
  lemma {:induction false} LastIsFarthest(q: nat, nearest: seq<nat>)
    requires nearest != [] && Ascending(Dist(q), nearest)
    ensures forall m :: m in nearest ==> Xor(q, m) <= Xor(q, nearest[|nearest| - 1])
  {
    forall m | m in nearest ensures Xor(q, m) <= Xor(q, nearest[|nearest| - 1]) {
      var i :| 0 <= i < |nearest| && nearest[i] == m;
      if i < |nearest| - 1 { assert Dist(q)(nearest[i]) <= Dist(q)(nearest[|nearest| - 1]); }
    }
  }

  lemma {:induction false} FirstIsNearest(q: nat, waiting: seq<nat>, n: nat)
    requires Ascending(Dist(q), waiting) && n in waiting
    ensures Xor(q, waiting[0]) <= Xor(q, n)
  {
    var i :| 0 <= i < |waiting| && waiting[i] == n;
    if i > 0 { assert Dist(q)(waiting[0]) <= Dist(q)(waiting[i]); }
  }

  /** A nearer beam: pushing one more node never moves the end of a full beam outwards. */
  lemma {:induction false} BeamShrinks(q: nat, beam: nat, nearest: seq<nat>, x: nat, bound: nat)
    requires |nearest| == beam && Ascending(Dist(q), nearest) && forall m :: m in nearest ==> Xor(q, m) < bound
    ensures |First(beam, Insert(Dist(q), nearest, x))| == beam
    ensures forall m :: m in First(beam, Insert(Dist(q), nearest, x)) ==> Xor(q, m) < bound
  {
    var t := Insert(Dist(q), nearest, x);
    InsertContents(Dist(q), nearest, x);
    InsertAscending(Dist(q), nearest, x);
    forall m | m in t[..beam] ensures Xor(q, m) < bound {
      assert m in multiset(t);
      if m !in nearest {
        assert m == x;
        if Xor(q, x) >= bound {
          FarInsert(Dist(q), nearest, x);
          assert false;
        }
      }
    }
  }

  /** Learning a node that enters the search: it waits to be asked and competes for the beam. */
  lemma {:induction false} PushStep(q: nat, beam: nat, discovered: seq<nat>, asked: set<nat>, waiting: seq<nat>,
                                    nearest: seq<nat>, x: nat)
    requires Searching(q, beam, discovered, asked, waiting, nearest)
    ensures Searching(q, beam, discovered + [x], asked, Insert(Dist(q), waiting, x),
                      First(beam, Insert(Dist(q), nearest, x)))
  {
    var waiting', nearest' := Insert(Dist(q), waiting, x), First(beam, Insert(Dist(q), nearest, x));
    NearestPush(Dist(q), beam, discovered, x);
    InsertAscending(Dist(q), waiting, x);
    InsertContents(Dist(q), waiting, x);
    forall n ensures n in waiting' <==> n in waiting || n == x {
      assert n in waiting' <==> n in multiset(waiting');
    }
    NearestBasics(q, beam, discovered);
    forall n | n in discovered + [x] ensures Handled(q, beam, n, asked, waiting', nearest') {
      assert n != x ==> Handled(q, beam, n, asked, waiting, nearest);
      if n != x && n !in asked && n !in waiting { BeamShrinks(q, beam, nearest, x, Xor(q, n)); }
    }
  }

  /** Learning a node beyond a full beam changes nothing. */
  lemma {:induction false} SkipStep(q: nat, beam: nat, discovered: seq<nat>, asked: set<nat>, waiting: seq<nat>,
                                    nearest: seq<nat>, x: nat)
    requires Searching(q, beam, discovered, asked, waiting, nearest)
    requires |nearest| == beam && forall m :: m in nearest ==> Xor(q, m) < Xor(q, x)
    ensures Searching(q, beam, discovered + [x], asked, waiting, nearest)
  {
    NearestPush(Dist(q), beam, discovered, x);
    FarInsert(Dist(q), nearest, x);
    assert First(beam, nearest + [x]) == nearest;
  }

  /** Asking the nearest waiting node. */
  lemma {:induction false} AskStep(q: nat, beam: nat, discovered: seq<nat>, asked: set<nat>, waiting: seq<nat>,
                                   nearest: seq<nat>)
    requires Searching(q, beam, discovered, asked, waiting, nearest) && waiting != []
    ensures Searching(q, beam, discovered, asked + {waiting[0]}, waiting[1..], nearest)
  {
    assert waiting == [waiting[0]] + waiting[1..];
    forall n | n in discovered ensures Handled(q, beam, n, asked + {waiting[0]}, waiting[1..], nearest) {
      assert Handled(q, beam, n, asked, waiting, nearest);
    }
  }

  /** When nothing within the beam waits any more, every node of the beam was asked. */
  lemma {:induction false} BeamExhausted(q: nat, beam: nat, discovered: seq<nat>, asked: set<nat>, waiting: seq<nat>,
                                         nearest: seq<nat>)
    requires Searching(q, beam, discovered, asked, waiting, nearest) && nearest != []
    requires waiting == [] || Xor(q, waiting[0]) > Xor(q, nearest[|nearest| - 1])
    ensures forall n :: n in nearest ==> n in asked
  {
    NearestBasics(q, beam, discovered);
    LastIsFarthest(q, nearest);
    forall n | n in nearest ensures n in asked {
      assert Handled(q, beam, n, asked, waiting, nearest);
      if n in waiting { FirstIsNearest(q, waiting, n); }
    }
  }
}
