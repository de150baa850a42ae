/** What the nearest-node search misses once a split at a stored midpoint has misplaced an id. */
module MisplacedSearch {
  import opened Basics
  import opened XorMetric
  import opened Ranked
  import opened Prefixes
  import opened Buckets
  import opened RoutingSpec
  import opened RoutingRuns
  import opened NearestSpec

  /** In that table the block searched for the midpoint is the right half, whose only node is another one. */
  lemma {:induction false} RightHalfSearched(width: nat, x: nat, l: nat, r: nat, h: nat)
    requires width > 0 && SearchedBlock(Halves(width, x), Pow2(width - 1), 1, l, r, h)
    ensures l == 1 && r == 2 && ActiveOf(Halves(width, x), 1, 2) == [Node(x, 1)]
  {
    var bs, mid := Halves(width, x), Pow2(width - 1);
    assert ActiveOf(bs, 1, 1) == [];
    assert Block(bs, 1, 2, BlockStart(mid, width - 1), width - 1) by {
      ZeroAligned(width - 1);
      UpperAligned(0, width - 1);
      AlignedStart(mid, width - 1, mid);
    }
    BlockCovers(bs, mid, 1, l, r, h);
    if l == 0 { Pow2Grows(h, width - 1); }
  }

  /** The search for the midpoint finds the other node, although the midpoint itself is active. */
  lemma {:induction false} MissedMidpoint(width: nat, x: nat, nearest: seq<Node>)
    requires width > 0 && x != Pow2(width - 1)
    requires NearestAround(Halves(width, x), Pow2(width - 1), 1, None, nearest)
    ensures nearest == [Node(x, 1)]
  {
    var bs, mid := Halves(width, x), Pow2(width - 1);
    var l: nat, r: nat, h: nat, heap: seq<Node> :| SelectedFrom(bs, mid, 1, None, nearest, l, r, h, heap);
    RightHalfSearched(width, x, l, r, h);
    OnlyOne(heap, Node(x, 1));
  }

  lemma {:induction false} OnlyOne(heap: seq<Node>, n: Node)
    requires multiset(heap) == multiset([n])
    ensures heap == [n] && Select(1, None, heap) == [n]
  {
    SameLength(heap, [n]);
    assert heap[0] in multiset(heap);
  }

  lemma {:induction false} SortedHalves(width: nat, x: nat)
    requires width > 0 && x != Pow2(width - 1)
    ensures BruteForce(Halves(width, x), Pow2(width - 1), 1, None) == [Node(Pow2(width - 1), 0)]
  {
    var bs, mid := Halves(width, x), Pow2(width - 1);
    var all, key := [Node(mid, 0), Node(x, 1)], NodeDist(mid);
    assert ActiveOf(bs, 0, 0) == [] && ActiveOf(bs, 0, 1) == [Node(mid, 0)] && ActiveOf(bs, 0, 2) == all;
    XorPositive(mid, mid);
    XorInjective(mid, mid, x);
    assert SortFirst(key, all, 0) == [] && SortFirst(key, all, 1) == [Node(mid, 0)];
    assert SortBy(key, all) == Insert(key, [Node(mid, 0)], Node(x, 1)) == all;
  }

  /**
   * The table of `MidpointCannotBeRemoved` once more: whatever the search for the one node nearest to
   * the middle id returns, it is the larger id, not the middle id at distance zero.
   */
  lemma {:induction false} MidpointCannotBeFound(width: nat, nodeId: nat, modulo: nat, x: nat)
    requires width > 1 && nodeId < Pow2(width) && Pow2(width - 1) < x < Pow2(width)
    ensures var mid := Pow2(width - 1);
            var t0 := EmptyTable(width, nodeId, 1, modulo);
            && t0.Structured() && Add(t0, mid, 0).table.Structured()
            && var bs := Add(Add(t0, mid, 0).table, x, 1).table.buckets;
            && BruteForce(bs, mid, 1, None) == [Node(mid, 0)]
            && forall nearest :: NearestAround(bs, mid, 1, None, nearest) ==> nearest == [Node(x, 1)]
  {
    var mid, t0 := Pow2(width - 1), EmptyTable(width, nodeId, 1, modulo);
    FirstUpdate(width, nodeId, modulo, mid);
    AddKeepsTable(t0, mid, 0);
    SecondUpdate(Add(t0, mid, 0).table, x);
    SortedHalves(width, x);
    forall nearest | NearestAround(Halves(width, x), mid, 1, None, nearest) ensures nearest == [Node(x, 1)] {
      MissedMidpoint(width, x, nearest);
    }
  }

  // ---------------------------------------------------------------- when the search is exact all the same

  /** Sorted nodes with distinct ids rise, with or without the excluded one. */
  lemma {:induction false} ExcludingRises(q: nat, s: seq<Node>, exclude: Option<nat>)
    requires Ascending(NodeDist(q), s) && DistinctIds(s)
    ensures Rising(NodeDist(q), Excluding(s, exclude)) && |Excluding(s, exclude)| >= |s| - Slack(exclude)
    ensures forall n :: n in Excluding(s, exclude) <==> n in s && exclude != Some(n.id)
  {
    var t := Excluding(s, exclude);
    if exclude.Some? {
      WithoutAscending(NodeDist(q), s, exclude.value);
      WithoutDistinct(s, exclude.value);
      WithoutMembers(s, exclude.value);
      WithoutLength(s, exclude.value);
    }
    forall i, j | 0 <= i < j < |t| ensures NodeDist(q)(t[i]) < NodeDist(q)(t[j]) {
      XorInjective(q, t[i].id, t[j].id);
    }
  }

  /** The nodes of the searched block that are nearer than a given one, the excluded one left out. */
  ghost function NearerInBlock(bs: seq<Bucket>, l: nat, r: nat, q: nat, exclude: Option<nat>, y: Node): (s: set<Node>)
    requires l <= r <= |bs|
  {
    set x | x in ActiveOf(bs, l, r) && exclude != Some(x.id) && Xor(q, x.id) < Xor(q, y.id)
  }

  /** Every node outside the searched block, the excluded one left out, has `k` nodes of the block before it. */
  ghost predicate OutsideIsFar(bs: seq<Bucket>, l: nat, r: nat, q: nat, k: nat, exclude: Option<nat>)
    requires l <= r <= |bs|
  {
    forall y :: y in Others(bs, l, r) && exclude != Some(y.id) ==> |NearerInBlock(bs, l, r, q, exclude, y)| >= k
  }

  lemma {:induction false} DistinctParts(bs: seq<Bucket>, l: nat, r: nat)
    requires l <= r <= |bs| && DistinctIds(ActiveOf(bs, 0, |bs|))
    ensures DistinctIds(ActiveOf(bs, l, r) + Others(bs, l, r)) && DistinctIds(ActiveOf(bs, l, r))
  {
    Rearrange(bs, l, r);
    DistinctPermutation(ActiveOf(bs, 0, |bs|), ActiveOf(bs, l, r) + Others(bs, l, r));
    DistinctFront(ActiveOf(bs, l, r), Others(bs, l, r));
  }

  lemma {:induction false} DistinctFront(s: seq<Node>, t: seq<Node>)
    requires DistinctIds(s + t)
    ensures DistinctIds(s) && forall x, y :: x in s && y in t ==> x.id != y.id
  {
    var u := s + t;
    assert forall i :: 0 <= i < |s| ==> u[i] == s[i];
    forall x, y | x in s && y in t ensures x.id != y.id {
      var i :| 0 <= i < |s| && s[i] == x;
      var j :| 0 <= j < |t| && t[j] == y;
      assert u[i] == x && u[|s| + j] == y;
    }
  }

  /** A node of the table is outside the block exactly if it is not in it. */
  lemma {:induction false} OutsideMembers(bs: seq<Bucket>, l: nat, r: nat, y: Node)
    requires l <= r <= |bs| && DistinctIds(ActiveOf(bs, 0, |bs|))
    ensures y in Others(bs, l, r) <==> y in ActiveOf(bs, 0, |bs|) && y !in ActiveOf(bs, l, r)
  {
    DistinctParts(bs, l, r);
    DistinctFront(ActiveOf(bs, l, r), Others(bs, l, r));
    Rearrange(bs, l, r);
    SameMembers(ActiveOf(bs, 0, |bs|), ActiveOf(bs, l, r) + Others(bs, l, r));
  }

  /** All nodes and those of the block, nearest first and without the excluded one. */
  ghost predicate Lined(bs: seq<Bucket>, l: nat, r: nat, q: nat, exclude: Option<nat>, part: seq<Node>, all: seq<Node>)
    requires l <= r <= |bs|
  {
    && Rising(NodeDist(q), part) && Rising(NodeDist(q), all)
    && (forall n :: n in part <==> n in ActiveOf(bs, l, r) && exclude != Some(n.id))
    && (forall n :: n in all <==> n in ActiveOf(bs, 0, |bs|) && exclude != Some(n.id))
  }

  lemma {:induction false} LateIsFar(bs: seq<Bucket>, l: nat, r: nat, q: nat, k: nat, exclude: Option<nat>,
                                     part: seq<Node>, all: seq<Node>)
    requires l <= r <= |bs| && DistinctIds(ActiveOf(bs, 0, |bs|)) && Lined(bs, l, r, q, exclude, part, all)
    ensures PartOf(part, all)
    ensures OutsidersLate(NodeDist(q), part, all, k) <==> OutsideIsFar(bs, l, r, q, k, exclude)
  {
    forall y ensures y in Others(bs, l, r) <==> y in ActiveOf(bs, 0, |bs|) && y !in ActiveOf(bs, l, r) {
      OutsideMembers(bs, l, r, y);
    }
    Rearrange(bs, l, r);
    SameMembers(ActiveOf(bs, 0, |bs|), ActiveOf(bs, l, r) + Others(bs, l, r));
    forall y ensures NearerIn(NodeDist(q), part, y) == NearerInBlock(bs, l, r, q, exclude, y) {}
  }

  lemma {:induction false} LinedUp(bs: seq<Bucket>, l: nat, r: nat, q: nat, exclude: Option<nat>, heap: seq<Node>)
    requires l <= r <= |bs| && DistinctIds(ActiveOf(bs, 0, |bs|)) && Collected(q, heap, bs, l, r)
    ensures DistinctIds(heap) && |heap| == |ActiveOf(bs, l, r)|
    ensures |Excluding(heap, exclude)| >= |heap| - Slack(exclude)
    ensures Lined(bs, l, r, q, exclude, Excluding(heap, exclude),
                  Excluding(SortBy(NodeDist(q), ActiveOf(bs, 0, |bs|)), exclude))
  {
    var all := ActiveOf(bs, 0, |bs|);
    var t := SortBy(NodeDist(q), all);
    DistinctParts(bs, l, r);
    SortAscending(NodeDist(q), all);
    SortContents(NodeDist(q), all);
    DistinctPermutation(all, t);
    SameMembers(t, all);
    DistinctPermutation(ActiveOf(bs, l, r), heap);
    SameMembers(heap, ActiveOf(bs, l, r));
    SameLength(heap, ActiveOf(bs, l, r));
    ExcludingRises(q, t, exclude);
    ExcludingRises(q, heap, exclude);
  }

  lemma {:induction false} FirstLinedIff(bs: seq<Bucket>, l: nat, r: nat, q: nat, k: nat, exclude: Option<nat>,
                                         part: seq<Node>, all: seq<Node>)
    requires l <= r <= |bs| && DistinctIds(ActiveOf(bs, 0, |bs|)) && Lined(bs, l, r, q, exclude, part, all)
    requires |part| >= k || (l == 0 && r == |bs|)
    ensures First(k, part) == First(k, all) <==> OutsideIsFar(bs, l, r, q, k, exclude)
  {
    if l == 0 && r == |bs| {
      assert Others(bs, l, r) == [];
      SameLined(NodeDist(q), part, all);
    } else {
      LateIsFar(bs, l, r, q, k, exclude, part, all);
      PartFirstIff(NodeDist(q), part, all, k);
    }
  }

  /**
   * A table that holds no id twice, misplaced or not: the search returns the `k` nearest nodes of the whole
   * table exactly if every node outside the block it searches has `k` nodes of the block before it.
   */
  lemma {:induction false} SearchExactIff(bs: seq<Bucket>, q: nat, k: nat, exclude: Option<nat>, nearest: seq<Node>,
                                          l: nat, r: nat, h: nat, heap: seq<Node>)
    requires SelectedFrom(bs, q, k, exclude, nearest, l, r, h, heap) && DistinctIds(ActiveOf(bs, 0, |bs|))
    ensures nearest == BruteForce(bs, q, k, exclude) <==> OutsideIsFar(bs, l, r, q, k, exclude)
  {
    var part := Excluding(heap, exclude);
    var all := Excluding(SortBy(NodeDist(q), ActiveOf(bs, 0, |bs|)), exclude);
    LinedUp(bs, l, r, q, exclude, heap);
    SelectAll(heap, k, exclude);
    FirstLinedIff(bs, l, r, q, k, exclude, part, all);
  }
}
