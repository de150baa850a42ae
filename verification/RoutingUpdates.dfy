/** What one addition to the routing table does: when buckets split, and whom it asks to ping. */
module RoutingUpdates {
  import opened Basics
  import opened XorMetric
  import opened Buckets
  import opened RoutingSpec

  /** The own id lies in the bucket, or its depth is off the modulo. */
  ghost predicate SplitDue(t: Table, b: Bucket) {
    b.lower <= t.nodeId < b.upper || (t.depthModulo != 0 && b.depth % t.depthModulo != 0)
  }

  /** Every active place is taken by another node, and the node is the most recent spare. */
  ghost predicate Waiting(b: Bucket, id: nat, peer: PeerId) {
    && |b.active| == b.size && id !in Ids(b.active)
    && b.spare != [] && b.spare[|b.spare| - 1] == Node(id, peer)
  }

  /** The first active node without an outstanding ping is asked for one; `before` are the outstanding ones. */
  ghost predicate PingAsked(b: Bucket, before: set<nat>, ping: Option<Node>) {
    match ping
    case None => b.pinged == before && forall i :: 0 <= i < |b.active| ==> b.active[i].id in before
    case Some(n) =>
      && b.pinged == before + {n.id} && n.id !in before
      && exists i :: 0 <= i < |b.active| && b.active[i] == n && forall j :: 0 <= j < i ==> b.active[j].id in before
  }

  /**
   * How an addition ends, told from the bucket the id is in afterwards: the node is the most recent active
   * one, or it waits in a full bucket that cannot or need not be split.
   */
  ghost predicate Ended(t: Table, b: Bucket, before: set<nat>, id: nat, peer: PeerId, outcome: AddOutcome) {
    if id in Ids(b.active) then
      outcome == Added(None) && b.active[|b.active| - 1] == Node(id, peer) && b.pinged == before
    else
      && Waiting(b, id, peer)
      && (if SplitDue(t, b) then outcome == BucketTooSmall && b.upper == b.lower + 1 && b.pinged == before
          else if t.depthModulo == 0 then outcome == ZeroModulo && b.pinged == before
          else outcome.Added? && PingAsked(b, before, outcome.ping))
  }

  /** The bucket that has the id in its range. */
  ghost function BucketOf(t: Table, id: nat): (b: Bucket)
    requires |t.buckets| > 0
  {
    t.buckets[IndexOf(t.buckets, id)]
  }

  /** Same settings, and all buckets without the id in their range are still there. */
  ghost predicate OthersStay(t: Table, t': Table, id: nat) {
    && t'.width == t.width && t'.nodeId == t.nodeId
    && t'.bucketSize == t.bucketSize && t'.depthModulo == t.depthModulo
    && forall i :: 0 <= i < |t.buckets| && !t.buckets[i].HasInRange(id) ==> t.buckets[i] in t'.buckets
  }

  /** Both dictionaries know the node. */
  ghost predicate Known(t: Table, t': Table, id: nat, peer: PeerId) {
    t'.uidToPeer == t.uidToPeer[id := peer] && t'.peerToUid == t.peerToUid[peer := id]
  }

  lemma {:induction false} PlacedBucket(b: Bucket, id: nat, peer: PeerId)
    requires b.Ok()
    ensures var (b', ok) := b.Add(id, peer);
            && b' == Bucket(b.lower, b.upper, b.size, b.depth, b'.active, b'.spare, b.pinged - {id})
            && (if ok then id in Ids(b'.active) && b'.active[|b'.active| - 1] == Node(id, peer)
                else Waiting(b', id, peer))
  {
    AddKeeps(b, id, peer);
  }

  lemma {:induction false} PingIsAsked(b: Bucket)
    ensures var (b', ping) := b.RequestPing();
            && b' == b.(pinged := b'.pinged) && PingAsked(b', b.pinged, ping)
  {
  }

  /** The outcome and the bucket of a round that ends the addition, told from the bucket before. */
  ghost predicate LastBucket(t: Table, b: Bucket, id: nat, peer: PeerId, b': Bucket, outcome: AddOutcome) {
    var (b1, ok) := b.Add(id, peer);
    if ok then b' == b1 && outcome == Added(None)
    else if SplitDue(t, b1) then b' == b1 && outcome == BucketTooSmall && !(b1.lower < b1.Mid() < b1.upper)
    else if t.depthModulo == 0 then b' == b1 && outcome == ZeroModulo
    else (b', outcome) == (b1.RequestPing().0, Added(b1.RequestPing().1))
  }

  lemma {:induction false} LastBucketEnds(t: Table, b: Bucket, id: nat, peer: PeerId, b': Bucket, outcome: AddOutcome)
    requires b.Ok() && Dyadic(b, t.width) && LastBucket(t, b, id, peer, b', outcome)
    ensures Ended(t, b', b.pinged - {id}, id, peer, outcome) && b'.lower == b.lower && b'.upper == b.upper
  {
    var (b1, ok) := b.Add(id, peer);
    PlacedBucket(b, id, peer);
    if !ok {
      if SplitDue(t, b1) {
        DyadicHalves(b1, t.width);
        assert Pow2(0) == 1;
      } else {
        PingIsAsked(b1);
      }
    }
  }

  /** A round that ends the addition replaces one bucket and updates both dictionaries. */
  lemma {:induction false} RoundReplaces(t: Table, id: nat, peer: PeerId) returns (b': Bucket)
    requires |t.buckets| > 0 && Round(t, id, peer).1.Some?
    ensures var (t', outcome) := Round(t, id, peer);
            && t' == t.(buckets := t.buckets[IndexOf(t.buckets, id) := b'],
                        uidToPeer := t.uidToPeer[id := peer], peerToUid := t.peerToUid[peer := id])
            && LastBucket(t, BucketOf(t, id), id, peer, b', outcome.value)
  {
    b' := Round(t, id, peer).0.buckets[IndexOf(t.buckets, id)];
  }

  /** The round that ends the addition. */
  lemma {:induction false} RoundEnds(t: Table, id: nat, peer: PeerId)
    requires t.Structured() && id < Pow2(t.width) && Round(t, id, peer).1.Some?
    ensures var (t', outcome) := Round(t, id, peer);
            && |t'.buckets| == |t.buckets| && OthersStay(t, t', id) && Known(t, t', id, peer)
            && Ended(t, BucketOf(t', id), BucketOf(t, id).pinged - {id}, id, peer, outcome.value)
  {
    var b' := RoundReplaces(t, id, peer);
    var t' := Round(t, id, peer).0;
    assert t.buckets[IndexOf(t.buckets, id)].Ok() && Dyadic(t.buckets[IndexOf(t.buckets, id)], t.width);
    LastBucketEnds(t, BucketOf(t, id), id, peer, b', Round(t, id, peer).1.value);
    OneReplaced(t, t', id);
    SameLowers(t.buckets, t'.buckets, id);
  }

  lemma {:induction false} OneReplaced(t: Table, t': Table, id: nat)
    requires t.Structured() && id < Pow2(t.width) && |t'.buckets| == |t.buckets|
    requires forall j :: 0 <= j < |t.buckets| && j != IndexOf(t.buckets, id) ==> t'.buckets[j] == t.buckets[j]
    ensures forall j :: 0 <= j < |t.buckets| && !t.buckets[j].HasInRange(id) ==> t.buckets[j] in t'.buckets
  {
    TiledIndex(t, id);
    forall j | 0 <= j < |t.buckets| && !t.buckets[j].HasInRange(id) ensures t.buckets[j] in t'.buckets {
      assert t'.buckets[j] == t.buckets[j];
    }
  }

  lemma {:induction false} DistributeNoPings(left: Bucket, right: Bucket, mid: nat, items: seq<Node>)
    requires left.pinged == right.pinged == {}
    ensures var (l, r) := Distribute(left, right, mid, items); l.pinged == r.pinged == {}
  {
    if items != [] { DistributeNoPings(left, right, mid, items[..|items| - 1]); }
  }

  /** A bucket that was split: the id waited in it, a split was due, and it had more than one id. */
  ghost predicate RightlySplit(t: Table, b: Bucket, id: nat, peer: PeerId) {
    SplitDue(t, b) && Waiting(b, id, peer) && b.HasInRange(id) && b.upper > b.lower + 1
  }

  /** Bucket `i` is replaced by two, neither of which has a ping outstanding. */
  ghost predicate SplitAt(bs: seq<Bucket>, i: nat, cs: seq<Bucket>) {
    && i < |bs| && |cs| == |bs| + 1 && cs[i].pinged == cs[i + 1].pinged == {}
    && (forall j :: 0 <= j < i ==> cs[j] == bs[j]) && (forall j :: i < j < |bs| ==> cs[j + 1] == bs[j])
  }

  lemma {:induction false} RoundSplits(t: Table, id: nat, peer: PeerId)
    requires t.Structured() && Round(t, id, peer).1.None?
    ensures var t', b := Round(t, id, peer).0, Target(t, id, peer);
            && SplitAt(t.buckets, IndexOf(t.buckets, id), t'.buckets)
            && t' == t.(buckets := t'.buckets, uidToPeer := t.uidToPeer[id := peer],
                        peerToUid := t.peerToUid[peer := id])
            && SplitDue(t, b) && Waiting(b, id, peer) && b.upper > b.lower + 1
            && b.lower == BucketOf(t, id).lower && b.upper == BucketOf(t, id).upper
  {
    var i, b := IndexOf(t.buckets, id), Target(t, id, peer);
    assert t.buckets[i].Ok();
    PlacedBucket(t.buckets[i], id, peer);
    assert Round(t, id, peer).0.buckets == SplitBuckets(t.buckets[i := b], i);
    SplitBucketsAt(t.buckets, i, b);
  }

  lemma {:induction false} SplitBucketsAt(bs: seq<Bucket>, i: nat, b: Bucket)
    requires i < |bs| && b.lower <= b.upper
    ensures SplitAt(bs, i, SplitBuckets(bs[i := b], i))
  {
    DistributeNoPings(b.Half(true), b.Half(false), b.Mid(), b.active + b.spare);
  }

  /** After a split the id is in one of the new buckets, and the other buckets are still there. */
  lemma {:induction false} SplitLeaves(t: Table, t': Table, id: nat)
    requires t.Structured() && t'.Structured() && t'.width == t.width && id < Pow2(t.width)
    requires SplitAt(t.buckets, IndexOf(t.buckets, id), t'.buckets)
    ensures BucketOf(t', id).pinged == {}
    ensures forall j :: 0 <= j < |t.buckets| && !t.buckets[j].HasInRange(id) ==> t.buckets[j] in t'.buckets
  {
    TiledIndex(t, id);
    TiledIndex(t', id);
    SplitSeparates(t.buckets, IndexOf(t.buckets, id), t'.buckets, id);
  }

  lemma {:induction false} SplitSeparates(bs: seq<Bucket>, i: nat, cs: seq<Bucket>, id: nat)
    requires SplitAt(bs, i, cs) && forall j :: 0 <= j < |bs| && bs[j].HasInRange(id) ==> j == i
    ensures forall j :: 0 <= j < |bs| && j != i ==> bs[j] in cs
    ensures forall k :: 0 <= k < |cs| && cs[k].HasInRange(id) ==> cs[k].pinged == {}
  {
    forall j | 0 <= j < |bs| && j != i ensures bs[j] in cs {
      assert j < i ==> cs[j] == bs[j];
      assert j > i ==> cs[j + 1] == bs[j];
    }
    forall k | 0 <= k < |cs| ensures cs[k].HasInRange(id) ==> cs[k].pinged == {} {
      if k > i + 1 { assert cs[k - 1 + 1] == bs[k - 1]; }
    }
  }

  lemma {:induction false} StayOn(t: Table, t1: Table, t2: Table, id: nat)
    requires OthersStay(t, t1, id) && OthersStay(t1, t2, id)
    ensures OthersStay(t, t2, id)
  {
    forall i | 0 <= i < |t.buckets| && !t.buckets[i].HasInRange(id) ensures t.buckets[i] in t2.buckets {
      var j :| 0 <= j < |t1.buckets| && t1.buckets[j] == t.buckets[i];
    }
  }

  /**
   * What an addition does. Each bucket it splits was full with the id waiting in it, and had the own id in
   * its range or a depth off the modulo; one split adds one bucket, and buckets of other ids stay as they
   * are. The call ends with the node as the most recent active one, or waiting in a full bucket whose split
   * is not due; then the first active node without an outstanding ping is asked for one. Only a bucket of
   * one id and a modulo of zero end it with an exception.
   */
  ghost predicate AddedAs(t: Table, r: AddResult, id: nat, peer: PeerId) {
    && 0 < |t.buckets| && |r.table.buckets| == |t.buckets| + |r.splits|
    && OthersStay(t, r.table, id) && Known(t, r.table, id, peer)
    && (forall i :: 0 <= i < |r.splits| ==> RightlySplit(t, r.splits[i], id, peer))
    && var before := if r.splits == [] then BucketOf(t, id).pinged - {id} else {};
    Ended(t, BucketOf(r.table, id), before, id, peer, r.outcome)
  }

  lemma {:induction false} SplitThenAdded(t: Table, t': Table, b: Bucket, r: AddResult, id: nat, peer: PeerId)
    requires RightlySplit(t, b, id, peer) && 0 < |t.buckets| && |t'.buckets| == |t.buckets| + 1
    requires OthersStay(t, t', id) && Known(t, t', id, peer) && BucketOf(t', id).pinged == {}
    requires AddedAs(t', r, id, peer)
    ensures AddedAs(t, r.(splits := [b] + r.splits), id, peer)
  {
    StayOn(t, t', r.table, id);
    forall i | 0 <= i < |[b] + r.splits| ensures RightlySplit(t, ([b] + r.splits)[i], id, peer) {
      if i > 0 { assert RightlySplit(t', r.splits[i - 1], id, peer); }
    }
    assert {} - {id} == {};
  }

  lemma {:induction false} AddSplits(t: Table, id: nat, peer: PeerId)
    requires t.Structured() && id < Pow2(t.width) && Round(t, id, peer).1.None?
    ensures var t', b := Round(t, id, peer).0, Target(t, id, peer);
            && t'.Structured() && t'.width == t.width && 0 <= Room(t', id) < Room(t, id)
            && RightlySplit(t, b, id, peer) && |t'.buckets| == |t.buckets| + 1
            && OthersStay(t, t', id) && Known(t, t', id, peer) && BucketOf(t', id).pinged == {}
  {
    RetryStructured(t, id, peer);
    RoundSplits(t, id, peer);
    TiledIndex(t, id);
    SplitLeaves(t, Round(t, id, peer).0, id);
  }

  /** Every addition to every table is like that. */
  lemma {:induction false} AddMeaning(t: Table, id: nat, peer: PeerId)
    requires t.Structured() && id < Pow2(t.width)
    ensures AddedAs(t, Add(t, id, peer), id, peer)
    decreases Room(t, id)
  {
    if Round(t, id, peer).1.Some? {
      RoundEnds(t, id, peer);
    } else {
      var t', b := Round(t, id, peer).0, Target(t, id, peer);
      AddSplits(t, id, peer);
      AddMeaning(t', id, peer);
      SplitThenAdded(t, t', b, Add(t', id, peer), id, peer);
    }
  }

  // ---------------------------------------------------------------- removals

  /**
   * What a removal does, for every table: it fails exactly if the id's own bucket does not hold it, which
   * changes nothing, or the dictionary does not know it. Otherwise only that bucket and the dictionaries
   * change, and the peer is forgotten only if it was last seen under this id.
   */
  lemma {:induction false} RemoveMeaning(t: Table, id: nat)
    requires t.Structured() && id < Pow2(t.width)
    ensures var (t', outcome) := Remove(t, id);
            var b, b' := BucketOf(t, id), BucketOf(t', id);
            && (outcome.Removed? <==> b.Holds(id) && id in t.uidToPeer)
            && (!b.Holds(id) ==> t' == t)
            && |t'.buckets| == |t.buckets| && OthersStay(t, t', id)
            && (b.Holds(id) ==> !b'.Holds(id) && forall n :: n in b'.Nodes() <==> n in b.Nodes() && n.id != id)
            && t'.uidToPeer == (if outcome.Removed? then t.uidToPeer - {id} else t.uidToPeer)
            && (forall p :: p in t'.peerToUid <==>
                  p in t.peerToUid && !(outcome.Removed? && p == t.uidToPeer[id] && t.peerToUid[p] == id))
            && (forall p :: p in t'.peerToUid ==> t'.peerToUid[p] == t.peerToUid[p])
  {
    var i := IndexOf(t.buckets, id);
    var t' := Remove(t, id).0;
    assert t.buckets[i].Ok();
    if t.buckets[i].Holds(id) {
      DeleteKeeps(t.buckets[i], id);
      DeletedGone(t.buckets[i], id);
    }
    OneReplaced(t, t', id);
    SameLowers(t.buckets, t'.buckets, id);
  }

  lemma {:induction false} DeletedGone(b: Bucket, id: nat)
    requires b.Ok() && b.Holds(id)
    ensures !b.Delete(id).Holds(id)
  {
    DeleteKeeps(b, id);
    var b' := b.Delete(id);
    assert forall n :: n in b'.active || n in b'.spare ==> n in b'.Nodes();
  }
}
