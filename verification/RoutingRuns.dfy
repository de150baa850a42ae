/** Consequences for whole runs: which runs are safe, and what a split at a stored midpoint does. */
module RoutingRuns {
  import opened Basics
  import opened XorMetric
  import opened Counting
  import opened Buckets
  import opened RoutingSpec

  // ---------------------------------------------------------------- a condition callers can check

  ghost predicate Unaligned(t: Table, h: nat) {
    forall n :: t.Stores(n) ==> !Aligned(n.id, h)
  }

  lemma {:induction false} CountIds(s: seq<Node>)
    requires DistinctIds(s)
    ensures |Ids(s)| == |s|
  {
    if s != [] {
      var n := |s| - 1;
      CountIds(s[..n]);
      assert s == s[..n] + [s[n]];
      AppendIds(s[..n], s[n]);
      assert s[n].id !in Ids(s[..n]);
    }
  }

  /** A placed bucket with a spare node covers more ids than it has places. */
  lemma {:induction false} OverfullSpan(b: Bucket)
    requires b.Ok() && b.Placed() && b.spare != [] && b.lower <= b.upper
    ensures b.upper - b.lower > b.size
  {
    var items := b.active + b.spare;
    ConcatDistinct(b.active, b.spare);
    CountIds(items);
    forall id | id in Ids(items) ensures id in Interval(b.lower, b.upper) {
      var n :| n in items && n.id == id;
      assert n in b.Nodes();
    }
    SubsetSize(Ids(items), Interval(b.lower, b.upper));
  }

  lemma {:induction false} AlignedLess(x: nat, g: nat, h: nat)
    requires h <= g && Aligned(x, g)
    ensures Aligned(x, h)
    decreases h
  {
    if h > 0 { AlignedLess(x / 2, g - 1, h - 1); }
  }

  /** A split never meets a stored midpoint when stored ids end in a one among their `h` low digits. */
  lemma {:induction false} TargetClean(t: Table, id: nat, peer: PeerId, h: nat)
    requires t.Structured() && t.Placed() && id < Pow2(t.width) && Round(t, id, peer).1.None?
    requires Pow2(h) <= t.bucketSize && Unaligned(t, h) && !Aligned(id, h)
    ensures Clean([Target(t, id, peer)])
  {
    var b, i := Target(t, id, peer), IndexOf(t.buckets, id);
    PlaceStructured(t, id, peer);
    PlacePlaced(t, id, peer);
    AddKeeps(t.buckets[i], id, peer);
    assert Place(t, id, peer).0.buckets[i].Placed();
    WideMid(b, t.width, h);
    PlacedIds(t, id, peer, h);
  }

  /** The midpoint of a placed bucket that overflows at least `Pow2(h)` places ends in `h` zeros. */
  lemma {:induction false} WideMid(b: Bucket, width: nat, h: nat)
    requires b.Ok() && b.Placed() && b.spare != [] && Dyadic(b, width) && Pow2(h) <= b.size
    requires b.depth < width
    ensures Aligned(b.Mid(), h)
  {
    OverfullSpan(b);
    DyadicHalves(b, width);
    if width - b.depth <= h { Pow2Grows(width - b.depth, h); }
    AlignedLess(b.Mid(), width - b.depth - 1, h);
  }

  lemma {:induction false} RoundClean(t: Table, id: nat, peer: PeerId, h: nat)
    requires t.Structured() && t.Placed() && t.Exact() && id < Pow2(t.width) && Round(t, id, peer).1.None?
    requires Pow2(h) <= t.bucketSize && Unaligned(t, h) && !Aligned(id, h)
    ensures Clean([Target(t, id, peer)])
    ensures Round(t, id, peer).0.Placed() && Round(t, id, peer).0.Exact() && Unaligned(Round(t, id, peer).0, h)
  {
    TargetClean(t, id, peer, h);
    RetryPlaced(t, id, peer);
    RetryExact(t, id, peer);
    RoundUnaligned(t, id, peer, h);
  }

  lemma {:induction false} PlacedIds(t: Table, id: nat, peer: PeerId, h: nat)
    requires t.Structured() && Unaligned(t, h) && !Aligned(id, h)
    ensures forall x :: Target(t, id, peer).Holds(x) ==> !Aligned(x, h)
  {
    var i := IndexOf(t.buckets, id);
    var b := Target(t, id, peer);
    AddKeeps(t.buckets[i], id, peer);
    forall x | b.Holds(x) ensures !Aligned(x, h) {
      var n :| n in b.active + b.spare && n.id == x;
      assert n in b.Nodes();
      if n != Node(id, peer) { assert n in t.buckets[i].Nodes() && t.Stores(n); }
    }
  }

  lemma {:induction false} RoundUnaligned(t: Table, id: nat, peer: PeerId, h: nat)
    requires t.Structured() && t.Placed() && t.Exact() && id < Pow2(t.width) && Round(t, id, peer).1.None?
    requires Unaligned(t, h) && !Aligned(id, h) && Round(t, id, peer).0.Exact()
    ensures Unaligned(Round(t, id, peer).0, h)
  {
    var t' := Round(t, id, peer).0;
    RetryExact(t, id, peer);
    ExactUnaligned(t, t', id, peer, h);
  }

  lemma {:induction false} ExactUnaligned(t: Table, t': Table, id: nat, peer: PeerId, h: nat)
    requires t.Exact() && t'.Exact() && Unaligned(t, h) && !Aligned(id, h)
    requires t'.uidToPeer.Keys <= t.uidToPeer.Keys + {id}
    ensures Unaligned(t', h)
  {
    forall n | t'.Stores(n) ensures !Aligned(n.id, h) {
      if n.id != id { assert t.Stores(Node(n.id, t.uidToPeer[n.id])); }
    }
  }

  lemma {:induction false} AddClean(t: Table, id: nat, peer: PeerId, h: nat)
    requires t.Structured() && t.Placed() && t.Exact() && id < Pow2(t.width)
    requires Pow2(h) <= t.bucketSize && Unaligned(t, h) && !Aligned(id, h)
    ensures Clean(Add(t, id, peer).splits)
    ensures Add(t, id, peer).table.bucketSize == t.bucketSize
    decreases Room(t, id)
  {
    if Round(t, id, peer).1.None? {
      RetryStructured(t, id, peer);
      RoundClean(t, id, peer, h);
      var t2 := Round(t, id, peer).0;
      AddClean(t2, id, peer, h);
      CleanConcat([Target(t, id, peer)], Add(t2, id, peer).splits);
    }
  }

  lemma {:induction false} StepClean(t: Table, op: Op, h: nat)
    requires t.Structured() && t.Placed() && t.Exact() && op.id < Pow2(t.width)
    requires Pow2(h) <= t.bucketSize && Unaligned(t, h) && !Aligned(op.id, h)
    ensures Clean(StepSplits(t, op)) && Unaligned(Step(t, op), h) && Step(t, op).Exact()
    ensures Step(t, op).bucketSize == t.bucketSize
  {
    var t' := Step(t, op);
    match op {
      case Update(id, peer) =>
        AddClean(t, id, peer, h);
        AddExact(t, id, peer);
        ExactUnaligned(t, t', id, peer, h);
      case Forget(id) =>
        RemoveKeepsTable(t, id);
        ExactUnaligned(t, t', id, 0, h);
    }
  }

  /**
   * A condition on the ids alone: if buckets have at least `Pow2(h)` places and no id of the run is
   * a multiple of `Pow2(h)`, then no split of the run meets a stored midpoint.
   */
  lemma {:induction false} UnalignedRunIsClean(t: Table, ops: seq<Op>, h: nat)
    requires t.Structured() && t.Placed() && t.Exact() && InRange(ops, t.width)
    requires Pow2(h) <= t.bucketSize && Unaligned(t, h)
    requires forall op :: op in ops ==> !Aligned(op.id, h)
    ensures Clean(Run(t, ops).1)
    decreases |ops|
  {
    if ops != [] {
      var t1 := Step(t, ops[0]);
      StepStructured(t, ops[0]);
      StepClean(t, ops[0], h);
      UnalignedRunIsClean(t1, ops[1..], h);
      CleanConcat(StepSplits(t, ops[0]), Run(t1, ops[1..]).1);
    }
  }

  // ---------------------------------------------------------------- the inverse dictionary

  /** Each id of the run always comes with the same peer and each peer with the same id. */
  ghost predicate OneToOne(ops: seq<Op>) {
    forall a, b :: a in ops && b in ops && a.Update? && b.Update? ==> (a.id == b.id <==> a.peer == b.peer)
  }

  ghost predicate Inverse(t: Table) {
    && (forall id :: id in t.uidToPeer ==> t.uidToPeer[id] in t.peerToUid && t.peerToUid[t.uidToPeer[id]] == id)
    && (forall p :: p in t.peerToUid ==> t.peerToUid[p] in t.uidToPeer && t.uidToPeer[t.peerToUid[p]] == p)
  }

  lemma {:induction false} AddDictionaries(t: Table, id: nat, peer: PeerId)
    requires t.Structured() && id < Pow2(t.width)
    ensures var t' := Add(t, id, peer).table;
            t'.uidToPeer == t.uidToPeer[id := peer] && t'.peerToUid == t.peerToUid[peer := id]
    decreases Room(t, id)
  {
    RoundDictionaries(t, id, peer);
    if Round(t, id, peer).1.None? {
      RetryStructured(t, id, peer);
      var t2 := Round(t, id, peer).0;
      AddDictionaries(t2, id, peer);
      assert t2.uidToPeer[id := peer] == t2.uidToPeer && t2.peerToUid[peer := id] == t2.peerToUid;
    }
  }

  lemma {:induction false} RoundDictionaries(t: Table, id: nat, peer: PeerId)
    requires |t.buckets| > 0
    ensures var t' := Round(t, id, peer).0;
            t'.uidToPeer == t.uidToPeer[id := peer] && t'.peerToUid == t.peerToUid[peer := id]
  {
  }

  /** The pairs of the table agree with the pairs that the rest of the run will use. */
  ghost predicate Compatible(t: Table, ops: seq<Op>) {
    forall id, op :: id in t.uidToPeer && op in ops && op.Update? ==> (id == op.id <==> t.uidToPeer[id] == op.peer)
  }

  lemma {:induction false} StepInverse(t: Table, ops: seq<Op>)
    requires t.Structured() && InRange(ops, t.width) && ops != []
    requires OneToOne(ops) && Compatible(t, ops) && Inverse(t)
    ensures Inverse(Step(t, ops[0])) && Compatible(Step(t, ops[0]), ops[1..]) && OneToOne(ops[1..])
  {
    assert ops[0] in ops;
    assert forall op :: op in ops[1..] ==> op in ops;
    match ops[0]
    case Update(id, peer) => AddDictionaries(t, id, peer);
    case Forget(_) =>
  }

  /** In a one-to-one run the two lookup dictionaries stay exact inverses, clean splits or not. */
  lemma {:induction false} RunInverse(t: Table, ops: seq<Op>)
    requires t.Structured() && InRange(ops, t.width)
    requires OneToOne(ops) && Compatible(t, ops) && Inverse(t)
    ensures Inverse(Run(t, ops).0)
    decreases |ops|
  {
    if ops != [] {
      StepStructured(t, ops[0]);
      StepInverse(t, ops);
      RunInverse(Step(t, ops[0]), ops[1..]);
    }
  }

  // ---------------------------------------------------------------- a stored midpoint

  lemma {:induction false} FirstUpdate(width: nat, nodeId: nat, modulo: nat, mid: nat)
    requires mid < Pow2(width)
    ensures var t0 := EmptyTable(width, nodeId, 1, modulo);
            && t0.Structured()
            && Add(t0, mid, 0).table == Table(width, nodeId, 1, modulo,
                 [Bucket(0, Pow2(width), 1, 0, [Node(mid, 0)], [], {})], map[mid := 0], map[0 := mid])
  {
    EmptyIsSound(width, nodeId, 1, modulo);
    FirstNode(EmptyTable(width, nodeId, 1, modulo).buckets[0], mid, 0);
  }

  /** The only bucket of the table holds nothing but its midpoint. */
  ghost predicate OnlyMidpoint(t: Table) {
    && t.width > 1 && t.nodeId < Pow2(t.width)
    && t.buckets == [Bucket(0, Pow2(t.width), 1, 0, [Node(Pow2(t.width - 1), 0)], [], {})]
  }

  function Halves(width: nat, x: nat): (r: seq<Bucket>)
    requires width > 0
  {
    var mid := Pow2(width - 1);
    [Bucket(0, mid, 1, 1, [Node(mid, 0)], [], {}), Bucket(mid, Pow2(width), 1, 1, [Node(x, 1)], [], {})]
  }

  /** A larger id fills the bucket beyond its size, which splits it at the stored midpoint. */
  lemma {:induction false} SplitAtMidpoint(t: Table, x: nat)
    requires OnlyMidpoint(t) && Pow2(t.width - 1) < x < Pow2(t.width)
    ensures Round(t, x, 1).1.None?
    ensures Round(t, x, 1).0.buckets == Halves(t.width, x)
    ensures Round(t, x, 1).0.uidToPeer == t.uidToPeer[x := 1]
  {
    var b := Overfull(t.width, x);
    AddSecond(t.width, x);
    assert Target(t, x, 1) == b && Place(t, x, 1).0.buckets == [b];
    SplitPair(b, Pow2(t.width - 1), x);
    assert Spliced([b], 0, b.Split().0, b.Split().1) == Halves(t.width, x);
  }

  /** The whole id space in one bucket with one place: the midpoint is active, the other id spare. */
  function Overfull(width: nat, x: nat): (b: Bucket)
    requires width > 0
  {
    Bucket(0, Pow2(width), 1, 0, [Node(Pow2(width - 1), 0)], [Node(x, 1)], {})
  }

  lemma {:induction false} AddSecond(width: nat, x: nat)
    requires width > 0 && x != Pow2(width - 1)
    ensures Bucket(0, Pow2(width), 1, 0, [Node(Pow2(width - 1), 0)], [], {}).Add(x, 1) == (Overfull(width, x), false)
  {
    assert {} - {x} == {};
    assert [] + [Node(x, 1)] == [Node(x, 1)];
  }

  lemma {:induction false} SecondUpdate(t: Table, x: nat)
    requires t.Structured() && OnlyMidpoint(t) && Pow2(t.width - 1) < x < Pow2(t.width)
    ensures Add(t, x, 1).table.buckets == Halves(t.width, x)
    ensures Add(t, x, 1).table.uidToPeer == t.uidToPeer[x := 1]
  {
    var t2 := Round(t, x, 1).0;
    SplitAtMidpoint(t, x);
    assert t2.Structured() && t2.width == t.width by { RetryStructured(t, x, 1); }
    assert Add(t, x, 1).table == t2.(uidToPeer := t2.uidToPeer[x := 1], peerToUid := t2.peerToUid[1 := x]) by {
      SecondRound(t, x, t2);
    }
    assert t2.uidToPeer[x := 1] == t2.uidToPeer;
  }

  lemma {:induction false} SecondRound(t: Table, x: nat, t2: Table)
    requires t.Structured() && x < Pow2(t.width) && t2.Structured() && t2.width == t.width > 0
    requires Round(t, x, 1) == (t2, None) && t2.buckets == Halves(t.width, x) && Pow2(t.width - 1) < x
    ensures Add(t, x, 1).table == t2.(uidToPeer := t2.uidToPeer[x := 1], peerToUid := t2.peerToUid[1 := x])
  {
    RenewOnly(t2, x);
    TwoRounds(t, x, 1, t2, t2.(uidToPeer := t2.uidToPeer[x := 1], peerToUid := t2.peerToUid[1 := x]), Added(None));
  }

  lemma {:induction false} TwoRounds(t: Table, id: nat, peer: PeerId, t2: Table, t3: Table, outcome: AddOutcome)
    requires t.Structured() && id < Pow2(t.width) && t2.Structured() && t2.width == t.width
    requires Round(t, id, peer) == (t2, None) && Round(t2, id, peer) == (t3, Some(outcome))
    ensures Add(t, id, peer).table == t3
  {
  }

  lemma {:induction false} RenewOnly(t: Table, x: nat)
    requires t.width > 0 && t.buckets == Halves(t.width, x) && Pow2(t.width - 1) < x
    ensures Round(t, x, 1)
         == (t.(uidToPeer := t.uidToPeer[x := 1], peerToUid := t.peerToUid[1 := x]), Some(Added(None)))
  {
    var b := t.buckets[1];
    assert {} - {x} == {};
    assert Without(b.active, x) == [];
    assert [] + [Node(x, 1)] == [Node(x, 1)];
    assert b.active[0].id in Ids(b.active);
    assert t.buckets[1 := b] == t.buckets;
  }

  lemma {:induction false} SplitPair(b: Bucket, mid: nat, x: nat)
    requires b.active == [Node(mid, 0)] && b.spare == [Node(x, 1)] && b.size == 1 && b.lower < b.upper
    requires b.Mid() == mid < x
    ensures b.Split() == (Bucket(b.lower, mid, 1, b.depth + 1, [Node(mid, 0)], [], {}),
                          Bucket(mid, b.upper, 1, b.depth + 1, [Node(x, 1)], [], {}))
  {
    var one, two := [Node(mid, 0)], [Node(mid, 0), Node(x, 1)];
    assert b.active + b.spare == two;
    assert one[..0] == [] && two[..1] == one;
    FirstNode(b.Half(true), mid, 0);
    FirstNode(b.Half(false), x, 1);
    assert Distribute(b.Half(true), b.Half(false), mid, []) == (b.Half(true), b.Half(false));
    assert Distribute(b.Half(true), b.Half(false), mid, one) == (b.Half(true).Add(mid, 0).0, b.Half(false));
  }

  lemma {:induction false} FirstNode(b: Bucket, id: nat, peer: PeerId)
    requires b.active == [] && b.spare == [] && b.pinged == {} && b.size > 0
    ensures b.Add(id, peer) == (b.(active := [Node(id, peer)]), true)
  {
    assert b.pinged - {id} == {};
    assert b.active + [Node(id, peer)] == [Node(id, peer)];
  }

  /**
   * A table of one-place buckets that first meets the middle id and then a larger one: the middle id
   * ends up outside its bucket. It stays in the lookup dictionary, yet removing it reports a missing
   * key and changes nothing.
   */
  lemma {:induction false} MidpointCannotBeRemoved(width: nat, nodeId: nat, modulo: nat, x: nat)
    requires width > 1 && nodeId < Pow2(width) && Pow2(width - 1) < x < Pow2(width)
    ensures var mid := Pow2(width - 1);
            var t0 := EmptyTable(width, nodeId, 1, modulo);
            && t0.Structured() && Add(t0, mid, 0).table.Structured()
            && var t := Add(Add(t0, mid, 0).table, x, 1).table;
            && !t.Placed() && |t.buckets| > 0 && mid in t.uidToPeer
            && Remove(t, mid) == (t, MissingKey)
  {
    var mid, t0 := Pow2(width - 1), EmptyTable(width, nodeId, 1, modulo);
    FirstUpdate(width, nodeId, modulo, mid);
    AddKeepsTable(t0, mid, 0);
    SecondUpdate(Add(t0, mid, 0).table, x);
    LostMidpoint(Add(Add(t0, mid, 0).table, x, 1).table, width, x);
  }

  lemma {:induction false} LostMidpoint(t: Table, width: nat, x: nat)
    requires width > 0 && t.buckets == Halves(width, x) && Pow2(width - 1) != x
    ensures !t.Placed() && Remove(t, Pow2(width - 1)) == (t, MissingKey)
  {
    var mid := Pow2(width - 1);
    assert Node(mid, 0) in t.buckets[0].Nodes();
    assert !t.buckets[0].Placed();
    assert IndexOf(t.buckets, mid) == 1;
  }

  // ---------------------------------------------------------------- misplaced for ever

  /** The bucket holds an id outside its range. */
  ghost predicate Strays(b: Bucket, id: nat) {
    !b.HasInRange(id) && exists n :: n in b.Nodes() && n.id == id
  }

  ghost predicate Misplaced(t: Table, id: nat) {
    exists i :: 0 <= i < |t.buckets| && Strays(t.buckets[i], id)
  }

  /** A table is well placed exactly if no id is misplaced. */
  lemma {:induction false} PlacedIffNoneStrays(t: Table)
    ensures t.Placed() <==> forall id :: !Misplaced(t, id)
  {
    if forall id :: !Misplaced(t, id) {
      forall i, n | 0 <= i < |t.buckets| && n in t.buckets[i].Nodes() ensures t.buckets[i].HasInRange(n.id) {
        assert !Misplaced(t, n.id);
        assert !Strays(t.buckets[i], n.id);
      }
    }
  }

  /** A bucket that keeps its range and all nodes of other ids keeps what strays in it. */
  lemma {:induction false} StrayStays(b: Bucket, b': Bucket, id: nat, other: nat)
    requires Strays(b, id) && b'.lower == b.lower && b'.upper == b.upper && other != id
    requires forall n :: n in b.Nodes() && n.id != other ==> n in b'.Nodes()
    ensures Strays(b', id)
  {
    var n :| n in b.Nodes() && n.id == id;
    assert n in b'.Nodes();
  }

  lemma {:induction false} UpdateMisplaced(t: Table, i: nat, b: Bucket, id: nat)
    requires i < |t.buckets| && Misplaced(t, id) && (Strays(t.buckets[i], id) ==> Strays(b, id))
    ensures Misplaced(t.(buckets := t.buckets[i := b]), id)
  {
    var j :| 0 <= j < |t.buckets| && Strays(t.buckets[j], id);
    assert Strays(t.buckets[i := b][j], id);
  }

  lemma {:induction false} PlaceMisplaced(t: Table, at: nat, peer: PeerId, id: nat)
    requires t.Structured() && at < Pow2(t.width) && Misplaced(t, id)
    ensures Misplaced(Place(t, at, peer).0, id)
  {
    var i := IndexOf(t.buckets, at);
    var b := t.buckets[i].Add(at, peer).0;
    TiledIndex(t, at);
    AddKeeps(t.buckets[i], at, peer);
    if Strays(t.buckets[i], id) { StrayStays(t.buckets[i], b, id, at); }
    UpdateMisplaced(t, i, b, id);
  }

  /** Whatever side of the bucket the id lies on, it goes to the half next to it and lies beyond that as well. */
  lemma {:induction false} SplitStrays(b: Bucket, id: nat)
    requires b.Ok() && b.lower < b.Mid() < b.upper && Strays(b, id)
    ensures Strays(b.Split().0, id) || Strays(b.Split().1, id)
  {
    SplitKeeps(b);
    var n :| n in b.Nodes() && n.id == id;
    assert n in b.Split().0.Nodes() || n in b.Split().1.Nodes();
  }

  lemma {:induction false} SplitMisplaced(t: Table, i: nat, id: nat)
    requires i < |t.buckets| && t.buckets[i].Ok() && t.buckets[i].lower < t.buckets[i].Mid() < t.buckets[i].upper
    requires Misplaced(t, id)
    ensures Misplaced(t.(buckets := SplitBuckets(t.buckets, i)), id)
  {
    var bs, cs := t.buckets, SplitBuckets(t.buckets, i);
    var j :| 0 <= j < |bs| && Strays(bs[j], id);
    if j == i { SplitStrays(bs[i], id); }
    assert Strays(cs[j], id) || Strays(cs[j + 1], id);
  }

  lemma {:induction false} RoundMisplaced(t: Table, at: nat, peer: PeerId, id: nat)
    requires t.Structured() && at < Pow2(t.width) && Misplaced(t, id)
    ensures Misplaced(Round(t, at, peer).0, id)
  {
    var i := IndexOf(t.buckets, at);
    var (t1, ok) := Place(t, at, peer);
    PlaceStructured(t, at, peer);
    PlaceMisplaced(t, at, peer, id);
    var b := t1.buckets[i];
    if !ok && MaySplit(t1, b) && b.lower < b.Mid() < b.upper { SplitMisplaced(t1, i, id); }
    if !ok && !MaySplit(t1, b) {
      if Strays(b, id) { StrayStays(b, b.RequestPing().0, id, id + 1); }
      UpdateMisplaced(t1, i, b.RequestPing().0, id);
    }
  }

  lemma {:induction false} AddMisplaced(t: Table, at: nat, peer: PeerId, id: nat)
    requires t.Structured() && at < Pow2(t.width) && Misplaced(t, id)
    ensures Misplaced(Add(t, at, peer).table, id)
    decreases Room(t, at)
  {
    RoundMisplaced(t, at, peer, id);
    if Round(t, at, peer).1.None? {
      RetryStructured(t, at, peer);
      AddMisplaced(Round(t, at, peer).0, at, peer, id);
    }
  }

  lemma {:induction false} RemoveMisplaced(t: Table, at: nat, id: nat)
    requires t.Structured() && at < Pow2(t.width) && Misplaced(t, id)
    ensures Misplaced(Remove(t, at).0, id)
  {
    var i := IndexOf(t.buckets, at);
    var b := t.buckets[i];
    if b.Holds(at) {
      TiledIndex(t, at);
      DeleteKeeps(b, at);
      if Strays(b, id) { StrayStays(b, b.Delete(at), id, at); }
      UpdateMisplaced(t, i, b.Delete(at), id);
    }
  }

  /** An id that some bucket holds outside its range stays so through every run, its own removal included. */
  lemma {:induction false} MisplacedForEver(t: Table, ops: seq<Op>, id: nat)
    requires t.Structured() && InRange(ops, t.width) && Misplaced(t, id)
    ensures Misplaced(Run(t, ops).0, id)
    decreases |ops|
  {
    if ops != [] {
      StepStructured(t, ops[0]);
      match ops[0] {
        case Update(at, peer) => AddMisplaced(t, at, peer, id);
        case Forget(at) => RemoveMisplaced(t, at, id);
      }
      MisplacedForEver(Step(t, ops[0]), ops[1..], id);
    }
  }

  /**
   * Removing a misplaced id: it fails exactly if the id's own bucket does not hold it too, or the lookup
   * dictionary has lost it, and in either case the id is still stored afterwards.
   */
  lemma {:induction false} MisplacedRemoval(t: Table, id: nat)
    requires t.Structured() && id < Pow2(t.width) && Misplaced(t, id)
    ensures var (t', outcome) := Remove(t, id);
            && (outcome == MissingKey
                <==> !t.buckets[IndexOf(t.buckets, id)].Holds(id) || id !in t.uidToPeer)
            && exists n :: t'.Stores(n) && n.id == id
  {
    RemoveMisplaced(t, id, id);
    var t' := Remove(t, id).0;
    var i :| 0 <= i < |t'.buckets| && Strays(t'.buckets[i], id);
    var n :| n in t'.buckets[i].Nodes() && n.id == id;
    assert t'.Stores(n);
  }
}
