/** The mutable k-bucket and routing table, each method proved against the value-level operations. */
module RoutingTables {
  import opened Basics
  import opened XorMetric
  import opened Buckets
  import opened RoutingSpec
  import opened NearestSpec
  import NearestSearch

  class KBucket {
    const lower: nat
    const upper: nat
    const size: nat
    const depth: nat
    var nodesToPeerId: seq<Node>
    var replacementNodes: seq<Node>
    var nodesRequestedForPing: set<nat>

    function View(): Bucket
      reads this
    {
      Bucket(lower, upper, size, depth, nodesToPeerId, replacementNodes, nodesRequestedForPing)
    }

    constructor (lower: nat, upper: nat, size: nat, depth: nat)
      ensures View() == Bucket(lower, upper, size, depth, [], [], {})
    {
      this.lower, this.upper, this.size, this.depth := lower, upper, size, depth;
      nodesToPeerId, replacementNodes, nodesRequestedForPing := [], [], {};
    }

    predicate HasInRange(id: nat) {
      lower <= id < upper
    }

    method AddOrUpdateNode(id: nat, peer: PeerId) returns (stored: bool)
      modifies this
      ensures (View(), stored) == old(View()).Add(id, peer)
    {
      assert id !in nodesRequestedForPing ==> nodesRequestedForPing - {id} == nodesRequestedForPing;
      if id !in Ids(replacementNodes) { WithoutSame(replacementNodes, id); }
      if id in nodesRequestedForPing {
        nodesRequestedForPing := nodesRequestedForPing - {id};
      }
      if id in Ids(nodesToPeerId) {
        nodesToPeerId := Without(nodesToPeerId, id);
        nodesToPeerId := nodesToPeerId + [Node(id, peer)];
      } else if |nodesToPeerId| < size {
        nodesToPeerId := nodesToPeerId + [Node(id, peer)];
      } else {
        if id in Ids(replacementNodes) {
          replacementNodes := Without(replacementNodes, id);
        }
        replacementNodes := replacementNodes + [Node(id, peer)];
        return false;
      }
      return true;
    }

    method RequestPingNode() returns (ping: Option<Node>)
      modifies this
      ensures (View(), ping) == old(View()).RequestPing()
    {
      for i := 0 to |nodesToPeerId|
        invariant View() == old(View())
        invariant FirstNotIn(nodesToPeerId, nodesRequestedForPing)
               == FirstNotIn(nodesToPeerId[i..], nodesRequestedForPing)
      {
        var node := nodesToPeerId[i];
        if node.id !in nodesRequestedForPing {
          nodesRequestedForPing := nodesRequestedForPing + {node.id};
          return Some(node);
        }
      }
      return None;
    }

    /** Deletes a node, or reports that the bucket does not hold it. */
    method Delete(id: nat) returns (found: bool)
      modifies this
      ensures found == old(View()).Holds(id)
      ensures View() == if found then old(View()).Delete(id) else old(View())
    {
      if !(id in Ids(nodesToPeerId) || id in Ids(replacementNodes)) {
        return false;
      }
      if id !in Ids(replacementNodes) { WithoutSame(replacementNodes, id); }
      if id in Ids(replacementNodes) {
        replacementNodes := Without(replacementNodes, id);
      }
      if id in Ids(nodesToPeerId) {
        nodesToPeerId := Without(nodesToPeerId, id);
        if replacementNodes != [] {
          var last := |replacementNodes| - 1;
          nodesToPeerId := nodesToPeerId + [replacementNodes[last]];
          replacementNodes := replacementNodes[..last];
        }
      }
      return true;
    }

    /** Splits the range over its midpoint. */
    method Split() returns (left: KBucket, right: KBucket)
      requires lower <= upper
      ensures fresh(left) && fresh(right) && left != right
      ensures (left.View(), right.View()) == View().Split()
    {
      var midpoint := (lower + upper) / 2;
      left := new KBucket(lower, midpoint, size, depth + 1);
      right := new KBucket(midpoint, upper, size, depth + 1);
      ghost var l0, r0 := left.View(), right.View();
      var items := nodesToPeerId + replacementNodes;
      for i := 0 to |items|
        invariant left != right && fresh(left) && fresh(right)
        invariant (left.View(), right.View()) == Distribute(l0, r0, midpoint, items[..i])
      {
        var node := items[i];
        DistributePush(l0, r0, midpoint, items, i);
        if node.id <= midpoint {
          var _ := left.AddOrUpdateNode(node.id, node.peer);
        } else {
          var _ := right.AddOrUpdateNode(node.id, node.peer);
        }
      }
      assert items[..|items|] == items;
    }
  }

  function Views(bs: seq<KBucket>): (r: seq<Bucket>)
    reads bs
    ensures |r| == |bs|
    ensures forall i :: 0 <= i < |bs| ==> r[i] == bs[i].View()
  {
    seq(|bs|, i requires 0 <= i < |bs| reads bs => bs[i].View())
  }

  class RoutingTable {
    const width: nat
    const nodeId: nat
    const bucketSize: nat
    const depthModulo: nat
    var buckets: seq<KBucket>
    var uidToPeerId: map<nat, PeerId>
    var peerIdToUid: map<PeerId, nat>

    function View(): Table
      reads this, buckets
    {
      Table(width, nodeId, bucketSize, depthModulo, Views(buckets), uidToPeerId, peerIdToUid)
    }

    /** The buckets are separate objects. */
    ghost predicate Separate()
      reads this
    {
      forall i, j :: 0 <= i < j < |buckets| ==> buckets[i] != buckets[j]
    }

    ghost function Owned(): set<KBucket>
      reads this
    {
      set b | b in buckets
    }

    ghost predicate Valid()
      reads this, buckets
    {
      Separate() && View().Structured()
    }

    constructor (width: nat, nodeId: nat, bucketSize: nat, depthModulo: nat)
      ensures Valid() && fresh(buckets)
      ensures View() == EmptyTable(width, nodeId, bucketSize, depthModulo)
    {
      this.width, this.nodeId, this.bucketSize, this.depthModulo := width, nodeId, bucketSize, depthModulo;
      uidToPeerId, peerIdToUid := map[], map[];
      var bucket := new KBucket(0, Pow2(width), bucketSize, 0);
      buckets := [bucket];
      new;
      EmptyIsSound(width, nodeId, bucketSize, depthModulo);
      assert Views(buckets) == [bucket.View()];
    }

    /** The one bucket whose range holds the id. */
    method GetBucketIndex(id: nat) returns (index: nat)
      requires Valid() && id < Pow2(width)
      ensures index == IndexOf(Views(buckets), id)
      ensures index < |buckets| && buckets[index].HasInRange(id)
    {
      index := NearestSearch.GetBucketIndex(Views(buckets), width, id);
    }

    method SplitBucket(index: nat)
      requires Separate() && index < |buckets| && buckets[index].lower <= buckets[index].upper
      modifies this`buckets
      ensures Separate() && Views(buckets) == SplitBuckets(old(Views(buckets)), index)
      ensures fresh(Owned() - old(Owned()))
    {
      ghost var before, owned := Views(buckets), Owned();
      var first, second := buckets[index].Split();
      assert first !in owned && second !in owned;
      InsertPair(buckets, index, first, second);
      buckets := buckets[..index] + [first, second] + buckets[index + 1..];
      assert Views(buckets) == Spliced(before, index, first.View(), second.View());
    }

    /** Puts the node into the bucket at `index` and into both lookup dictionaries. */
    method PlaceNode(index: nat, id: nat, peer: PeerId) returns (stored: bool)
      requires Separate() && index < |buckets|
      modifies this`uidToPeerId, this`peerIdToUid, buckets[index]
      ensures Views(buckets) == old(Views(buckets))[index := old(buckets[index].View()).Add(id, peer).0]
      ensures stored == old(buckets[index].View()).Add(id, peer).1
      ensures uidToPeerId == old(uidToPeerId)[id := peer] && peerIdToUid == old(peerIdToUid)[peer := id]
    {
      var bucket := buckets[index];
      ghost var before := bucket.View();
      stored := bucket.AddOrUpdateNode(id, peer);
      AddHolds(before, id, peer);
      if id in Ids(bucket.nodesToPeerId) || id in Ids(bucket.replacementNodes) {
        uidToPeerId := uidToPeerId[id := peer];
        peerIdToUid := peerIdToUid[peer := id];
      }
    }

    method PingOldest(index: nat) returns (ping: Option<Node>)
      requires Separate() && index < |buckets|
      modifies buckets[index]
      ensures Views(buckets) == old(Views(buckets))[index := old(buckets[index].View()).RequestPing().0]
      ensures ping == old(buckets[index].View()).RequestPing().1
    {
      ping := buckets[index].RequestPingNode();
    }

    /** One attempt at an update: an outcome, or a split bucket and no outcome yet. */
    method AttemptUpdate(index: nat, id: nat, peer: PeerId) returns (outcome: Option<AddOutcome>)
      requires Separate() && index < |buckets| && index == IndexOf(Views(buckets), id)
      modifies this, Owned()
      ensures Separate() && View() == Round(old(View()), id, peer).0 && outcome == Round(old(View()), id, peer).1
      ensures fresh(Owned() - old(Owned()))
    {
      ghost var t1, ok := Place(View(), id, peer).0, Place(View(), id, peer).1;
      var stored := PlaceNode(index, id, peer);
      assert View() == t1 && stored == ok;
      if stored { return Some(Added(None)); }
      var bucket := buckets[index];
      if !bucket.HasInRange(nodeId) && depthModulo == 0 { return Some(ZeroModulo); }
      if bucket.HasInRange(nodeId) || bucket.depth % depthModulo != 0 {
        var midpoint := (bucket.lower + bucket.upper) / 2;
        if !(bucket.lower < midpoint < bucket.upper) { return Some(BucketTooSmall); }
        SplitBucket(index);
        return None;
      }
      var ping := PingOldest(index);
      return Some(Added(ping));
    }

    /** Updates the table after a message; full buckets that may split are split until one attempt has an outcome. */
    method AddOrUpdateNode(id: nat, peer: PeerId) returns (outcome: AddOutcome)
      requires Valid() && id < Pow2(width)
      modifies this, Owned()
      ensures Valid() && fresh(Owned() - old(Owned()))
      ensures View() == Add(old(View()), id, peer).table
      ensures outcome == Add(old(View()), id, peer).outcome
    {
      ghost var t := View();
      outcome := AttemptUntilDone(id, peer, t);
      assert Add(t, id, peer).table.Structured() by { AddKeepsTable(t, id, peer); }
    }

    /** Finds the bucket of the id and makes one attempt at an update. */
    method Attempt(id: nat, peer: PeerId, ghost t: Table) returns (outcome: Option<AddOutcome>)
      requires Valid() && id < Pow2(width) && View() == t
      modifies this, Owned()
      ensures Separate() && View() == Round(t, id, peer).0 && outcome == Round(t, id, peer).1
      ensures fresh(Owned() - old(Owned()))
    {
      var index := GetBucketIndex(id);
      outcome := AttemptUpdate(index, id, peer);
    }

    /** Attempts again after every split; `t` is the table as it is at the start. */
    method AttemptUntilDone(id: nat, peer: PeerId, ghost t: Table) returns (outcome: AddOutcome)
      requires Separate() && View() == t && t.Structured() && id < Pow2(t.width)
      modifies this, Owned()
      ensures Separate() && View() == Add(t, id, peer).table && outcome == Add(t, id, peer).outcome
      ensures fresh(Owned() - old(Owned()))
      decreases Room(t, id)
    {
      var attempt := Attempt(id, peer, t);
      if attempt.Some? { return attempt.value; }
      ghost var t' := Round(t, id, peer).0;
      AddRetry(t, t', id, peer);
      outcome := AttemptUntilDone(id, peer, t');
    }

    /** Drops an id from the lookup dictionaries. */
    method ForgetPeer(id: nat)
      requires id in uidToPeerId
      modifies this`uidToPeerId, this`peerIdToUid
      ensures uidToPeerId == old(uidToPeerId) - {id}
      ensures var peer := old(uidToPeerId)[id];
              var known := old(peerIdToUid);
              peerIdToUid == if peer in known && known[peer] == id then known - {peer} else known
    {
      var peer := uidToPeerId[id];
      uidToPeerId := uidToPeerId - {id};
      if peer in peerIdToUid && peerIdToUid[peer] == id {
        peerIdToUid := peerIdToUid - {peer};
      }
    }

    /** Deletes from the bucket at `index`, then from the lookup dictionaries. */
    method DeleteAt(index: nat, id: nat) returns (outcome: RemoveOutcome)
      requires Separate() && index < |buckets| && index == IndexOf(Views(buckets), id)
      modifies this`uidToPeerId, this`peerIdToUid, buckets
      ensures Separate() && View() == Remove(old(View()), id).0 && outcome == Remove(old(View()), id).1
    {
      ghost var bs, b := Views(buckets), buckets[index].View();
      var found := buckets[index].Delete(id);
      assert Views(buckets) == if found then bs[index := b.Delete(id)] else bs;
      if !found || id !in uidToPeerId { return MissingKey; }
      ForgetPeer(id);
      return Removed;
    }

    method DelItem(id: nat) returns (outcome: RemoveOutcome)
      requires Valid() && id < Pow2(width)
      modifies this, Owned()
      ensures Valid() && buckets == old(buckets)
      ensures View() == Remove(old(View()), id).0 && outcome == Remove(old(View()), id).1
    {
      ghost var t := View();
      outcome := FindAndDelete(id);
      assert Remove(t, id).0.Structured() by { RemoveKeepsTable(t, id); }
    }

    method FindAndDelete(id: nat) returns (outcome: RemoveOutcome)
      requires Valid() && id < Pow2(width)
      modifies this`uidToPeerId, this`peerIdToUid, Owned()
      ensures Separate() && View() == Remove(old(View()), id).0 && outcome == Remove(old(View()), id).1
    {
      var index := GetBucketIndex(id);
      outcome := DeleteAt(index, id);
    }

    /** The `k` active nodes nearest to the query, leaving out `exclude`: of the whole table if it is well placed. */
    method GetNearestNeighbors(q: nat, k: nat, exclude: Option<nat>) returns (nearest: seq<Node>)
      requires Valid() && q < Pow2(width)
      ensures View().Placed() ==> nearest == BruteForce(View().buckets, q, k, exclude)
      ensures NearestAround(View().buckets, q, k, exclude, nearest)
    {
      nearest := NearestSearch.GetNearestNeighbors(Views(buckets), width, q, k, exclude);
    }
  }

  lemma {:induction false} InsertPair(bs: seq<KBucket>, i: nat, x: KBucket, y: KBucket)
    requires i < |bs| && x != y && x !in bs && y !in bs
    requires forall j, k :: 0 <= j < k < |bs| ==> bs[j] != bs[k]
    ensures var cs := bs[..i] + [x, y] + bs[i + 1..];
            && (forall j, k :: 0 <= j < k < |cs| ==> cs[j] != cs[k])
            && (forall b :: b in cs ==> b in bs || b == x || b == y)
  {
  }

  /** An addition that needs another round is the addition to the table after this one. */
  lemma {:induction false} AddRetry(t: Table, t': Table, id: nat, peer: PeerId)
    requires t.Structured() && id < Pow2(t.width) && Round(t, id, peer) == (t', None)
    ensures t'.Structured() && t'.width == t.width && 0 <= Room(t', id) < Room(t, id)
    ensures Add(t, id, peer).table == Add(t', id, peer).table && Add(t, id, peer).outcome == Add(t', id, peer).outcome
  {
    RetryStructured(t, id, peer);
  }
}
