/** The routing table as a value, and what every run of additions and removals keeps. */
module RoutingSpec {
  import opened Basics
  import opened XorMetric
  import opened Buckets

  datatype Table = Table(width: nat, nodeId: nat, bucketSize: nat, depthModulo: nat,
                         buckets: seq<Bucket>, uidToPeer: map<nat, PeerId>, peerToUid: map<PeerId, nat>)
  {
    /** Every bucket is Ok, the ranges are aligned dyadic blocks and tile the id space in order. */
    ghost predicate Structured() {
      && Tiled(buckets, width)
      && AllOk(buckets, bucketSize)
    }

    /** Every node sits in the bucket that `IndexOf` finds for its id. */
    ghost predicate Placed() {
      AllPlaced(buckets)
    }

    ghost predicate Stores(n: Node) {
      exists i :: 0 <= i < |buckets| && n in buckets[i].Nodes()
    }

    /** The lookup dictionary holds exactly the pairs stored in the buckets. */
    ghost predicate Exact() {
      forall n: Node :: Stores(n) <==> n.id in uidToPeer && uidToPeer[n.id] == n.peer
    }
  }

  function EmptyTable(width: nat, nodeId: nat, bucketSize: nat, depthModulo: nat): (t: Table) {
    Table(width, nodeId, bucketSize, depthModulo,
          [Bucket(0, Pow2(width), bucketSize, 0, [], [], {})], map[], map[])
  }

  ghost predicate Dyadic(b: Bucket, width: nat) {
    && b.depth <= width
    && b.upper == b.lower + Pow2(width - b.depth)
    && Aligned(b.lower, width - b.depth)
  }

  ghost predicate Contiguous(bs: seq<Bucket>) {
    && (forall i :: 0 <= i < |bs| ==> bs[i].lower < bs[i].upper)
    && forall i, j :: 0 <= i && j == i + 1 && j < |bs| ==> bs[i].upper == bs[j].lower
  }

  ghost predicate Tiled(bs: seq<Bucket>, width: nat) {
    && |bs| > 0 && bs[0].lower == 0 && bs[|bs| - 1].upper == Pow2(width)
    && Contiguous(bs)
    && forall i :: 0 <= i < |bs| ==> Dyadic(bs[i], width)
  }

  ghost predicate AllOk(bs: seq<Bucket>, size: nat) {
    forall i :: 0 <= i < |bs| ==> bs[i].Ok() && bs[i].size == size
  }

  ghost predicate AllPlaced(bs: seq<Bucket>) {
    forall i :: 0 <= i < |bs| ==> bs[i].Placed()
  }

  lemma {:induction false} RangesAscend(bs: seq<Bucket>, i: nat, j: nat)
    requires Contiguous(bs) && i < j < |bs|
    ensures bs[i].upper <= bs[j].lower
    decreases j
  {
    if i < j - 1 {
      RangesAscend(bs, i, j - 1);
      assert bs[j - 1].upper == bs[j].lower;
    }
  }

  /** The last bucket that starts at or below the id. */
  function IndexOf(bs: seq<Bucket>, id: nat): (i: nat)
    requires |bs| > 0
    ensures i < |bs|
  {
    if |bs| == 1 || bs[|bs| - 1].lower <= id then |bs| - 1 else IndexOf(bs[..|bs| - 1], id)
  }

  /** In a tiled table that bucket holds the id in its range, and no other bucket does. */
  lemma {:induction false} IndexOfUnique(bs: seq<Bucket>, id: nat, i: nat)
    requires |bs| > 0 && Contiguous(bs) && bs[0].lower <= id < bs[|bs| - 1].upper
    requires i < |bs|
    ensures bs[i].HasInRange(id) <==> i == IndexOf(bs, id)
  {
    var last := |bs| - 1;
    if |bs| == 1 {
    } else if bs[last].lower <= id {
      if i < last { RangesAscend(bs, i, last); }
    } else if i == last {
    } else {
      var init := bs[..last];
      assert init[|init| - 1].upper == bs[last].lower;
      IndexOfUnique(init, id, i);
    }
  }

  lemma {:induction false} TiledIndex(t: Table, id: nat)
    requires t.Structured() && id < Pow2(t.width)
    ensures var i := IndexOf(t.buckets, id);
            && t.buckets[i].HasInRange(id)
            && forall j :: 0 <= j < |t.buckets| && t.buckets[j].HasInRange(id) ==> j == i
  {
    forall j | 0 <= j < |t.buckets|
      ensures t.buckets[j].HasInRange(id) <==> j == IndexOf(t.buckets, id)
    {
      IndexOfUnique(t.buckets, id, j);
    }
  }

  function SplitBuckets(bs: seq<Bucket>, i: nat): (r: seq<Bucket>)
    requires i < |bs| && bs[i].lower <= bs[i].upper
    ensures |r| == |bs| + 1
  {
    var (first, second) := bs[i].Split();
    Spliced(bs, i, first, second)
  }

  /** The halves of a dyadic block longer than one id are dyadic; a block of one id cannot be split. */
  lemma {:induction false} DyadicHalves(b: Bucket, width: nat)
    requires Dyadic(b, width)
    ensures b.lower < b.Mid() < b.upper <==> b.depth < width
    ensures b.depth < width ==> b.Mid() == b.lower + Pow2(width - b.depth - 1)
    ensures b.depth < width ==> Aligned(b.lower, width - b.depth - 1) && Aligned(b.Mid(), width - b.depth - 1)
  {
    if b.depth < width {
      AlignedHalves(b.lower, width - b.depth);
    } else {
      assert Pow2(0) == 1;
    }
  }

  function Spliced(bs: seq<Bucket>, i: nat, l: Bucket, r: Bucket): (cs: seq<Bucket>)
    requires i < |bs|
    ensures |cs| == |bs| + 1
    ensures forall j :: 0 <= j < |cs| ==>
              cs[j] == if j < i then bs[j] else if j == i then l else if j == i + 1 then r else bs[j - 1]
  {
    bs[..i] + [l, r] + bs[i + 1..]
  }

  /** Replacing one bucket by two that share its range keeps the tiling. */
  lemma {:induction false} SplicedTiled(bs: seq<Bucket>, i: nat, l: Bucket, r: Bucket, width: nat)
    requires Tiled(bs, width) && i < |bs|
    requires Dyadic(l, width) && Dyadic(r, width)
    requires bs[i].lower == l.lower < l.upper == r.lower < r.upper == bs[i].upper
    ensures Tiled(Spliced(bs, i, l, r), width)
  {
    var cs := Spliced(bs, i, l, r);
    forall j, k | 0 <= j && k == j + 1 && k < |cs| ensures cs[j].upper == cs[k].lower {
      if j < i { assert bs[j].upper == bs[k].lower; }
      if j > i { assert bs[j - 1].upper == bs[j].lower; }
    }
  }

  lemma {:induction false} SplitTiled(bs: seq<Bucket>, i: nat, width: nat)
    requires Tiled(bs, width) && i < |bs| && bs[i].Ok() && bs[i].depth < width
    ensures Tiled(SplitBuckets(bs, i), width)
  {
    var b := bs[i];
    DyadicHalves(b, width);
    SplitKeeps(b);
    var (l, r) := b.Split();
    SplicedTiled(bs, i, l, r, width);
  }

  /** Splitting moves nodes between buckets but stores the same ones. */
  lemma {:induction false} SplitStores(t: Table, i: nat)
    requires i < |t.buckets| && t.buckets[i].Ok() && t.buckets[i].lower <= t.buckets[i].upper
    ensures forall n :: t.(buckets := SplitBuckets(t.buckets, i)).Stores(n) <==> t.Stores(n)
  {
    var bs := t.buckets;
    SplitKeeps(bs[i]);
    var (l, r) := bs[i].Split();
    forall n ensures t.(buckets := SplitBuckets(bs, i)).Stores(n) <==> t.Stores(n) { SpliceStores(t, i, l, r, n); }
  }

  lemma {:induction false} SpliceStores(t: Table, i: nat, l: Bucket, r: Bucket, n: Node)
    requires i < |t.buckets| && (n in t.buckets[i].Nodes() <==> n in l.Nodes() || n in r.Nodes())
    ensures t.(buckets := Spliced(t.buckets, i, l, r)).Stores(n) <==> t.Stores(n)
  {
    var bs, cs := t.buckets, Spliced(t.buckets, i, l, r);
    if t.Stores(n) {
      var j :| 0 <= j < |bs| && n in bs[j].Nodes();
      if j < i { assert n in cs[j].Nodes(); } else { assert n in cs[j + 1].Nodes() || n in cs[j].Nodes(); }
    }
    if t.(buckets := cs).Stores(n) {
      var j :| 0 <= j < |cs| && n in cs[j].Nodes();
      if j <= i { assert n in bs[j].Nodes(); } else { assert n in bs[j - 1].Nodes(); }
    }
  }

  // ---------------------------------------------------------------- operations

  /** The last two stand for exceptions: a bucket of one id cannot be split, and nothing divides by a modulo of zero. */
  datatype AddOutcome = Added(ping: Option<Node>) | BucketTooSmall | ZeroModulo

  /** The table after the call, its outcome, and the buckets that were split on the way. */
  datatype AddResult = AddResult(table: Table, outcome: AddOutcome, splits: seq<Bucket>)

  /** Stores the node in its bucket and in both lookup dictionaries. */
  function Place(t: Table, id: nat, peer: PeerId): (r: (Table, bool))
    requires |t.buckets| > 0
  {
    var i := IndexOf(t.buckets, id);
    var (b, ok) := t.buckets[i].Add(id, peer);
    (t.(buckets := t.buckets[i := b], uidToPeer := t.uidToPeer[id := peer], peerToUid := t.peerToUid[peer := id]), ok)
  }

  predicate MaySplit(t: Table, b: Bucket) {
    b.HasInRange(t.nodeId) || (t.depthModulo > 0 && b.depth % t.depthModulo != 0)
  }

  /** Room left for deeper splits around an id. */
  function Room(t: Table, id: nat): (r: int)
    requires |t.buckets| > 0
  {
    t.width - t.buckets[IndexOf(t.buckets, id)].depth
  }

  lemma {:induction false} PlaceStructured(t: Table, id: nat, peer: PeerId)
    requires t.Structured()
    ensures Place(t, id, peer).0.Structured()
    ensures IndexOf(Place(t, id, peer).0.buckets, id) == IndexOf(t.buckets, id)
  {
    var i := IndexOf(t.buckets, id);
    var b := t.buckets[i];
    var t' := Place(t, id, peer).0;
    AddKeeps(b, id, peer);
    UpdateTiled(t.buckets, i, t'.buckets[i], t.width);
    SameLowers(t.buckets, t'.buckets, id);
  }

  lemma {:induction false} UpdateTiled(bs: seq<Bucket>, i: nat, b: Bucket, width: nat)
    requires Tiled(bs, width) && i < |bs|
    requires b.lower == bs[i].lower && b.upper == bs[i].upper && b.depth == bs[i].depth
    ensures Tiled(bs[i := b], width)
  {
    var cs := bs[i := b];
    forall j, k | 0 <= j && k == j + 1 && k < |cs| ensures cs[j].upper == cs[k].lower {
      assert bs[j].upper == bs[k].lower;
    }
  }

  lemma {:induction false} SameLowers(bs: seq<Bucket>, cs: seq<Bucket>, id: nat)
    requires |bs| == |cs| > 0 && forall i :: 0 <= i < |bs| ==> bs[i].lower == cs[i].lower
    ensures IndexOf(bs, id) == IndexOf(cs, id)
  {
    if |bs| > 1 && bs[|bs| - 1].lower > id { SameLowers(bs[..|bs| - 1], cs[..|cs| - 1], id); }
  }

  /** After a split the id falls into one of the two halves, one level deeper. */
  lemma {:induction false} SplitDeeper(t: Table, id: nat)
    requires t.Structured() && id < Pow2(t.width) && Room(t, id) > 0
    ensures var t' := t.(buckets := SplitBuckets(t.buckets, IndexOf(t.buckets, id)));
            t'.Structured() && Room(t', id) == Room(t, id) - 1
  {
    var i := IndexOf(t.buckets, id);
    var b := t.buckets[i];
    TiledIndex(t, id);
    DyadicHalves(b, t.width);
    SplitKeeps(b);
    SplitTiled(t.buckets, i, t.width);
    var cs := SplitBuckets(t.buckets, i);
    var t' := t.(buckets := cs);
    TiledIndex(t', id);
    assert cs[i].HasInRange(id) || cs[i + 1].HasInRange(id);
  }

  /**
   * One attempt at an update: the node is placed, and then either the call ends with an outcome or
   * the full bucket is split and the attempt has to be repeated.
   */
  function Round(t: Table, id: nat, peer: PeerId): (r: (Table, Option<AddOutcome>))
    requires |t.buckets| > 0
  {
    var i := IndexOf(t.buckets, id);
    var (t1, ok) := Place(t, id, peer);
    var b := t1.buckets[i];
    if ok then (t1, Some(Added(None)))
    else if MaySplit(t1, b) then
      if b.lower < b.Mid() < b.upper then (t1.(buckets := SplitBuckets(t1.buckets, i)), None)
      else (t1, Some(BucketTooSmall))
    else if t.depthModulo == 0 then (t1, Some(ZeroModulo))
    else
      var (b', ping) := b.RequestPing();
      (t1.(buckets := t1.buckets[i := b']), Some(Added(ping)))
  }

  /** The bucket a round works on, after the node was placed in it. */
  function Target(t: Table, id: nat, peer: PeerId): (b: Bucket)
    requires |t.buckets| > 0
  {
    Place(t, id, peer).0.buckets[IndexOf(t.buckets, id)]
  }

  lemma {:induction false} RetryStructured(t: Table, id: nat, peer: PeerId)
    requires t.Structured() && id < Pow2(t.width) && Round(t, id, peer).1.None?
    ensures var t2 := Round(t, id, peer).0;
            && t2.Structured() && t2.width == t.width
            && t2.bucketSize == t.bucketSize && t2.depthModulo == t.depthModulo
            && 0 <= Room(t2, id) < Room(t, id)
  {
    PlaceStructured(t, id, peer);
    DyadicHalves(Target(t, id, peer), t.width);
    SplitDeeper(Place(t, id, peer).0, id);
  }

  /** Update after a message from a node; rounds are repeated until one ends with an outcome. */
  function Add(t: Table, id: nat, peer: PeerId): (r: AddResult)
    requires t.Structured() && id < Pow2(t.width)
    decreases Room(t, id)
  {
    match Round(t, id, peer)
    case (t', Some(outcome)) => AddResult(t', outcome, [])
    case (t', None) =>
      RetryStructured(t, id, peer);
      var r := Add(t', id, peer);
      r.(splits := [Target(t, id, peer)] + r.splits)
  }

  datatype RemoveOutcome = Removed | MissingKey

  function Remove(t: Table, id: nat): (r: (Table, RemoveOutcome))
    requires |t.buckets| > 0
  {
    var i := IndexOf(t.buckets, id);
    var b := t.buckets[i];
    if id !in Ids(b.active) && id !in Ids(b.spare) then (t, MissingKey)
    else
      var t1 := t.(buckets := t.buckets[i := b.Delete(id)]);
      if id !in t.uidToPeer then (t1, MissingKey)
      else
        var peer := t.uidToPeer[id];
        (t1.(uidToPeer := t.uidToPeer - {id},
             peerToUid := if peer in t.peerToUid && t.peerToUid[peer] == id then t.peerToUid - {peer} else t.peerToUid),
         Removed)
  }

  // ---------------------------------------------------------------- one operation

  ghost predicate Clean(splits: seq<Bucket>) {
    forall b :: b in splits ==> !b.Holds(b.Mid())
  }

  /** Bucket-wise description of replacing bucket `i` by a better or worse placed one. */
  lemma {:induction false} UpdatePlaced(t: Table, i: nat, b: Bucket)
    requires i < |t.buckets|
    requires b.Placed() <==> t.buckets[i].Placed()
    ensures t.(buckets := t.buckets[i := b]).Placed() <==> t.Placed()
  {
    var bs, cs := t.buckets, t.buckets[i := b];
    if AllPlaced(cs) {
      forall j | 0 <= j < |bs| ensures bs[j].Placed() { assert cs[j].Placed(); }
    }
  }

  lemma {:induction false} PlacePlaced(t: Table, id: nat, peer: PeerId)
    requires t.Structured() && id < Pow2(t.width)
    ensures Place(t, id, peer).0.Placed() <==> t.Placed()
  {
    var i := IndexOf(t.buckets, id);
    var b, b' := t.buckets[i], t.buckets[i].Add(id, peer).0;
    TiledIndex(t, id);
    AddKeeps(b, id, peer);
    if b'.Placed() {
      forall n | n in b.Nodes() ensures b.HasInRange(n.id) {
        if n.id != id { assert n in b'.Nodes(); }
      }
    }
    UpdatePlaced(t, i, b');
  }

  lemma {:induction false} SplitPlaced(t: Table, i: nat)
    requires t.Structured() && i < |t.buckets| && t.buckets[i].depth < t.width
    ensures t.(buckets := SplitBuckets(t.buckets, i)).Placed()
       <==> t.Placed() && !t.buckets[i].Holds(t.buckets[i].Mid())
  {
    var b := t.buckets[i];
    DyadicHalves(b, t.width);
    SplitPlacedIff(b);
    var bs, cs := t.buckets, SplitBuckets(t.buckets, i);
    if AllPlaced(cs) {
      assert cs[i].Placed() && cs[i + 1].Placed();
      forall j | 0 <= j < |bs| ensures bs[j].Placed() { assert j != i ==> cs[if j < i then j else j + 1].Placed(); }
    }
  }

  lemma {:induction false} RetryPlaced(t: Table, id: nat, peer: PeerId)
    requires t.Structured() && id < Pow2(t.width) && Round(t, id, peer).1.None?
    ensures Round(t, id, peer).0.Placed() <==> t.Placed() && Clean([Target(t, id, peer)])
  {
    PlaceStructured(t, id, peer);
    PlacePlaced(t, id, peer);
    DyadicHalves(Target(t, id, peer), t.width);
    SplitPlaced(Place(t, id, peer).0, IndexOf(t.buckets, id));
  }

  /** The round that ends an addition. */
  lemma {:induction false} LastRound(t: Table, id: nat, peer: PeerId)
    requires t.Structured() && id < Pow2(t.width) && Round(t, id, peer).1.Some?
    ensures var t' := Round(t, id, peer).0;
            && t'.uidToPeer == t.uidToPeer[id := peer]
            && t'.Structured() && t'.width == t.width
            && (t'.Placed() <==> t.Placed())
            && (t'.Exact() <==> Place(t, id, peer).0.Exact())
  {
    var t1 := Place(t, id, peer).0;
    PlaceStructured(t, id, peer);
    PlacePlaced(t, id, peer);
    LastIsPlaced(t, id, peer);
    if Round(t, id, peer).0 != t1 { PingKeeps(t1, IndexOf(t.buckets, id)); }
  }

  /** It places the node and does no more than ask for a ping. */
  lemma {:induction false} LastIsPlaced(t: Table, id: nat, peer: PeerId)
    requires t.Structured() && Round(t, id, peer).1.Some?
    ensures var t1, i := Place(t, id, peer).0, IndexOf(t.buckets, id);
            || Round(t, id, peer).0 == t1
            || Round(t, id, peer).0 == t1.(buckets := t1.buckets[i := t1.buckets[i].RequestPing().0])
  {
  }

  /** Asking for a ping changes neither the structure nor what is stored where. */
  lemma {:induction false} PingKeeps(t: Table, i: nat)
    requires t.Structured() && i < |t.buckets|
    ensures var t' := t.(buckets := t.buckets[i := t.buckets[i].RequestPing().0]);
            && t'.Structured() && (t'.Placed() <==> t.Placed()) && (t'.Exact() <==> t.Exact())
  {
    var b := t.buckets[i].RequestPing().0;
    UpdateTiled(t.buckets, i, b, t.width);
    UpdatePlaced(t, i, b);
    UpdateStores(t, i, b);
  }

  /** A full, placed bucket of one id already holds that id, so an update of it cannot fail. */
  lemma {:induction false} FullSingleton(b: Bucket, id: nat, width: nat)
    requires b.Ok() && b.Placed() && Dyadic(b, width) && b.depth == width
    requires b.size > 0 && |b.active| == b.size && b.HasInRange(id)
    ensures id in Ids(b.active)
  {
    assert Pow2(0) == 1;
    assert b.active[0] in b.Nodes();
  }

  /** In a placed table with room in every bucket the assertion against splitting a bucket of one id holds. */
  lemma {:induction false} LastRoundAdded(t: Table, id: nat, peer: PeerId)
    requires t.Structured() && id < Pow2(t.width) && Round(t, id, peer).1.Some?
    requires t.Placed() && t.bucketSize > 0
    ensures Round(t, id, peer).1 != Some(BucketTooSmall)
  {
    var b := t.buckets[IndexOf(t.buckets, id)];
    DyadicHalves(b, t.width);
    TiledIndex(t, id);
    if b.depth == t.width && |b.active| == b.size { FullSingleton(b, id, t.width); }
  }

  /**
   * Adding a node keeps the structure, and it keeps the placement exactly when no bucket it splits
   * holds its own midpoint. With at least one place per bucket a placed outcome never trips the
   * assertion against splitting a bucket of one id.
   */
  lemma {:induction false} AddKeepsTable(t: Table, id: nat, peer: PeerId)
    requires t.Structured() && id < Pow2(t.width)
    ensures var r := Add(t, id, peer);
            && r.table.Structured() && r.table.width == t.width
            && (r.table.Placed() <==> t.Placed() && Clean(r.splits))
            && (r.table.Placed() && t.bucketSize > 0 ==> r.outcome != BucketTooSmall)
            && (t.depthModulo > 0 ==> r.outcome != ZeroModulo)
    decreases Room(t, id)
  {
    if Round(t, id, peer).1.None? {
      RetryStructured(t, id, peer);
      RetryPlaced(t, id, peer);
      var t2 := Round(t, id, peer).0;
      AddKeepsTable(t2, id, peer);
      CleanConcat([Target(t, id, peer)], Add(t2, id, peer).splits);
    } else {
      LastRound(t, id, peer);
      if t.Placed() && t.bucketSize > 0 { LastRoundAdded(t, id, peer); }
    }
  }

  lemma {:induction false} CleanConcat(here: seq<Bucket>, later: seq<Bucket>)
    ensures Clean(here + later) <==> Clean(here) && Clean(later)
  {
    assert forall b :: b in here || b in later <==> b in here + later;
  }

  lemma {:induction false} PlaceExact(t: Table, id: nat, peer: PeerId)
    requires t.Structured() && t.Placed() && t.Exact() && id < Pow2(t.width)
    ensures Place(t, id, peer).0.Exact()
  {
    var i := IndexOf(t.buckets, id);
    OnlyHere(t, id);
    AddKeeps(t.buckets[i], id, peer);
    ReplaceId(t, i, t.buckets[i].Add(id, peer).0, id, {Node(id, peer)});
  }

  /** A placed table holds an id only in the bucket that `IndexOf` finds. */
  lemma {:induction false} OnlyHere(t: Table, id: nat)
    requires t.Structured() && t.Placed() && id < Pow2(t.width)
    ensures forall j, n :: 0 <= j < |t.buckets| && n in t.buckets[j].Nodes() && n.id == id ==>
              j == IndexOf(t.buckets, id)
  {
    TiledIndex(t, id);
    forall j, n | 0 <= j < |t.buckets| && n in t.buckets[j].Nodes() && n.id == id
      ensures j == IndexOf(t.buckets, id)
    {
      assert t.buckets[j].HasInRange(n.id);
    }
  }

  /** Changing what one bucket stores under an id that no other bucket holds. */
  lemma {:induction false} ReplaceId(t: Table, i: nat, b: Bucket, id: nat, extra: set<Node>)
    requires i < |t.buckets|
    requires forall j, n :: 0 <= j < |t.buckets| && n in t.buckets[j].Nodes() && n.id == id ==> j == i
    requires forall n :: n in b.Nodes() <==> (n in t.buckets[i].Nodes() && n.id != id) || n in extra
    ensures forall n :: t.(buckets := t.buckets[i := b]).Stores(n) <==> (t.Stores(n) && n.id != id) || n in extra
  {
    var bs, cs := t.buckets, t.buckets[i := b];
    forall n: Node ensures t.(buckets := cs).Stores(n) <==> (t.Stores(n) && n.id != id) || n in extra {
      if t.(buckets := cs).Stores(n) && n !in extra {
        var j :| 0 <= j < |cs| && n in cs[j].Nodes();
        assert n in bs[j].Nodes();
      }
      if t.Stores(n) && n.id != id {
        var j :| 0 <= j < |bs| && n in bs[j].Nodes();
        assert n in cs[j].Nodes();
      }
      if n in extra { assert n in cs[i].Nodes(); }
    }
  }

  lemma {:induction false} RetryExact(t: Table, id: nat, peer: PeerId)
    requires t.Structured() && t.Placed() && t.Exact() && id < Pow2(t.width) && Round(t, id, peer).1.None?
    ensures Round(t, id, peer).0.Exact()
    ensures Round(t, id, peer).0.uidToPeer == t.uidToPeer[id := peer]
  {
    PlaceExact(t, id, peer);
    PlaceStructured(t, id, peer);
    SplitStores(Place(t, id, peer).0, IndexOf(t.buckets, id));
  }

  lemma {:induction false} CleanRetry(t: Table, id: nat, peer: PeerId)
    requires t.Structured() && id < Pow2(t.width) && Round(t, id, peer).1.None?
    requires t.Placed() && Clean(Add(t, id, peer).splits)
    ensures Round(t, id, peer).0.Structured() && Round(t, id, peer).0.Placed() && Round(t, id, peer).0.width == t.width
    ensures Clean(Add(Round(t, id, peer).0, id, peer).splits)
    ensures 0 <= Room(Round(t, id, peer).0, id) < Room(t, id)
    ensures Add(t, id, peer).table == Add(Round(t, id, peer).0, id, peer).table
  {
    RetryStructured(t, id, peer);
    RetryPlaced(t, id, peer);
    CleanConcat([Target(t, id, peer)], Add(Round(t, id, peer).0, id, peer).splits);
  }

  /** A clean addition to an exact, placed table leaves it exact, with the new pair in it. */
  lemma {:induction false} AddExact(t: Table, id: nat, peer: PeerId)
    requires t.Structured() && t.Placed() && t.Exact() && id < Pow2(t.width)
    requires Clean(Add(t, id, peer).splits)
    ensures Add(t, id, peer).table.Exact()
    ensures Add(t, id, peer).table.uidToPeer == t.uidToPeer[id := peer]
    decreases Room(t, id)
  {
    if Round(t, id, peer).1.None? {
      CleanRetry(t, id, peer);
      RetryExact(t, id, peer);
      AddExact(Round(t, id, peer).0, id, peer);
    } else {
      LastRoundExact(t, id, peer);
    }
  }

  lemma {:induction false} LastRoundExact(t: Table, id: nat, peer: PeerId)
    requires t.Structured() && t.Placed() && t.Exact() && id < Pow2(t.width) && Round(t, id, peer).1.Some?
    ensures Round(t, id, peer).0.Exact()
    ensures Round(t, id, peer).0.uidToPeer == t.uidToPeer[id := peer]
  {
    PlaceExact(t, id, peer);
    LastRound(t, id, peer);
  }

  lemma {:induction false} UpdateStores(t: Table, i: nat, b: Bucket)
    requires i < |t.buckets| && b.Nodes() == t.buckets[i].Nodes()
    ensures forall n :: t.(buckets := t.buckets[i := b]).Stores(n) <==> t.Stores(n)
  {
    var bs, cs := t.buckets, t.buckets[i := b];
    forall n ensures t.(buckets := cs).Stores(n) <==> t.Stores(n) {
      if t.Stores(n) {
        var j :| 0 <= j < |bs| && n in bs[j].Nodes();
        assert n in cs[j].Nodes();
      }
      if t.(buckets := cs).Stores(n) {
        var j :| 0 <= j < |cs| && n in cs[j].Nodes();
        assert n in bs[j].Nodes();
      }
    }
  }

  /**
   * Removing a node keeps the structure and the placement. In an exact, placed table it removes
   * exactly the pair of that id, and reports a missing key exactly when the id is not stored.
   */
  lemma {:induction false} RemoveKeepsTable(t: Table, id: nat)
    requires t.Structured() && id < Pow2(t.width)
    ensures var (t', outcome) := Remove(t, id);
            && t'.Structured() && t'.width == t.width
            && (t'.Placed() <==> t.Placed())
            && (t.Placed() && t.Exact() ==>
                  && t'.Exact()
                  && (outcome.Removed? <==> id in t.uidToPeer)
                  && t'.uidToPeer == t.uidToPeer - {id})
  {
    var i := IndexOf(t.buckets, id);
    var b := t.buckets[i];
    TiledIndex(t, id);
    if b.Holds(id) { DeletePlaced(t, i, id); }
    if t.Placed() && t.Exact() { RemoveExact(t, id); }
  }

  /** Deleting an id from the bucket it belongs to keeps structure and placement. */
  lemma {:induction false} DeletePlaced(t: Table, i: nat, id: nat)
    requires t.Structured() && i < |t.buckets| && t.buckets[i].Holds(id) && t.buckets[i].HasInRange(id)
    ensures var t' := t.(buckets := t.buckets[i := t.buckets[i].Delete(id)]);
            t'.Structured() && (t'.Placed() <==> t.Placed())
  {
    var b, b' := t.buckets[i], t.buckets[i].Delete(id);
    DeleteKeeps(b, id);
    UpdateTiled(t.buckets, i, b', t.width);
    assert b'.Placed() <==> b.Placed() by {
      if b'.Placed() {
        forall n | n in b.Nodes() ensures b.HasInRange(n.id) {
          if n.id != id { assert n in b'.Nodes(); }
        }
      }
    }
    UpdatePlaced(t, i, b');
  }

  lemma {:induction false} RemoveExact(t: Table, id: nat)
    requires t.Structured() && t.Placed() && t.Exact() && id < Pow2(t.width)
    ensures var (t', outcome) := Remove(t, id);
            && t'.Exact()
            && (outcome.Removed? <==> id in t.uidToPeer)
            && t'.uidToPeer == t.uidToPeer - {id}
  {
    var i := IndexOf(t.buckets, id);
    KnownIffHeld(t, id);
    if t.buckets[i].Holds(id) {
      var t1 := t.(buckets := t.buckets[i := t.buckets[i].Delete(id)]);
      assert forall n :: t1.Stores(n) <==> t.Stores(n) && n.id != id by {
        OnlyHere(t, id);
        DeleteKeeps(t.buckets[i], id);
        ReplaceId(t, i, t.buckets[i].Delete(id), id, {});
      }
      forall n: Node ensures Remove(t, id).0.Stores(n) <==> t1.Stores(n) {}
    }
  }

  /** In an exact, placed table the dictionary knows an id exactly if its own bucket holds it. */
  lemma {:induction false} KnownIffHeld(t: Table, id: nat)
    requires t.Structured() && t.Placed() && t.Exact() && id < Pow2(t.width)
    ensures t.buckets[IndexOf(t.buckets, id)].Holds(id) <==> id in t.uidToPeer
  {
    var b := t.buckets[IndexOf(t.buckets, id)];
    if b.Holds(id) {
      var m :| m in b.active + b.spare && m.id == id;
      assert m in b.Nodes() && t.Stores(m);
    } else if id in t.uidToPeer {
      assert t.Stores(Node(id, t.uidToPeer[id]));
      OnlyHere(t, id);
      assert false;
    }
  }

  // ---------------------------------------------------------------- whole runs

  datatype Op = Update(id: nat, peer: PeerId) | Forget(id: nat)

  function Step(t: Table, op: Op): (r: Table)
    requires t.Structured() && op.id < Pow2(t.width)
  {
    match op
    case Update(id, peer) => Add(t, id, peer).table
    case Forget(id) => Remove(t, id).0
  }

  function StepSplits(t: Table, op: Op): (r: seq<Bucket>)
    requires t.Structured() && op.id < Pow2(t.width)
  {
    match op
    case Update(id, peer) => Add(t, id, peer).splits
    case Forget(_) => []
  }

  ghost predicate InRange(ops: seq<Op>, width: nat) {
    forall op :: op in ops ==> op.id < Pow2(width)
  }

  lemma {:induction false} StepStructured(t: Table, op: Op)
    requires t.Structured() && op.id < Pow2(t.width)
    ensures Step(t, op).Structured() && Step(t, op).width == t.width
    ensures Step(t, op).Placed() <==> t.Placed() && Clean(StepSplits(t, op))
  {
    match op
    case Update(id, peer) => AddKeepsTable(t, id, peer);
    case Forget(id) => RemoveKeepsTable(t, id);
  }

  /** The table after a sequence of operations, with every bucket split on the way. */
  function Run(t: Table, ops: seq<Op>): (r: (Table, seq<Bucket>))
    requires t.Structured() && InRange(ops, t.width)
    decreases |ops|
  {
    if ops == [] then (t, [])
    else
      StepStructured(t, ops[0]);
      var (t', splits) := Run(Step(t, ops[0]), ops[1..]);
      (t', StepSplits(t, ops[0]) + splits)
  }

  /**
   * Every run keeps the buckets Ok, aligned, contiguous and covering the id space. The run ends
   * with every node inside its own bucket exactly when no split found the midpoint in the bucket.
   */
  lemma {:induction false} RunPlacedIff(t: Table, ops: seq<Op>)
    requires t.Structured() && InRange(ops, t.width)
    ensures Run(t, ops).0.Structured()
    ensures Run(t, ops).0.Placed() <==> t.Placed() && Clean(Run(t, ops).1)
    decreases |ops|
  {
    if ops != [] {
      StepStructured(t, ops[0]);
      var t1 := Step(t, ops[0]);
      RunPlacedIff(t1, ops[1..]);
      CleanConcat(StepSplits(t, ops[0]), Run(t1, ops[1..]).1);
    }
  }

  /** The pairs that plain dictionary updates would leave behind. */
  function Replay(m: map<nat, PeerId>, ops: seq<Op>): (r: map<nat, PeerId>)
    decreases |ops|
  {
    if ops == [] then m
    else match ops[0]
      case Update(id, peer) => Replay(m[id := peer], ops[1..])
      case Forget(id) => Replay(m - {id}, ops[1..])
  }

  /**
   * Along a clean run the buckets together hold exactly the pairs that plain dictionary updates
   * would leave, and so does the lookup dictionary: no node is ever lost, duplicated or invented.
   */
  lemma {:induction false} RunExact(t: Table, ops: seq<Op>)
    requires t.Structured() && t.Placed() && t.Exact() && InRange(ops, t.width)
    requires Clean(Run(t, ops).1)
    ensures Run(t, ops).0.Exact()
    ensures Run(t, ops).0.uidToPeer == Replay(t.uidToPeer, ops)
    decreases |ops|
  {
    if ops != [] {
      StepStructured(t, ops[0]);
      var t1 := Step(t, ops[0]);
      CleanConcat(StepSplits(t, ops[0]), Run(t1, ops[1..]).1);
      match ops[0] {
        case Update(id, peer) => AddExact(t, id, peer);
        case Forget(id) => RemoveKeepsTable(t, id);
      }
      RunExact(t1, ops[1..]);
    }
  }

  lemma {:induction false} EmptyIsSound(width: nat, nodeId: nat, bucketSize: nat, depthModulo: nat)
    ensures var t := EmptyTable(width, nodeId, bucketSize, depthModulo);
            t.Structured() && t.Placed() && t.Exact()
  {
    ZeroAligned(width);
  }
}
