/** Searching the routing table: the bucket of an id, and the nearest active nodes to a query. */
module NearestSearch {
  import opened Basics
  import opened XorMetric
  import opened Ranked
  import opened Buckets
  import opened RoutingSpec
  import opened NearestSpec

  /** Binary search for the one bucket whose range holds the id. */
  method GetBucketIndex(bs: seq<Bucket>, ghost width: nat, id: nat) returns (index: nat)
    requires Tiled(bs, width) && id < Pow2(width)
    ensures index == IndexOf(bs, id)
    ensures index < |bs| && bs[index].HasInRange(id)
  {
    var lowerIndex, upperIndex := 0, |bs|;
    while upperIndex - lowerIndex > 1
      invariant 0 <= lowerIndex < upperIndex <= |bs|
      invariant bs[lowerIndex].lower <= id
      invariant upperIndex < |bs| ==> id < bs[upperIndex].lower
    {
      var pivotIndex := (lowerIndex + upperIndex + 1) / 2;
      if id >= bs[pivotIndex].lower {
        lowerIndex := pivotIndex;
      } else {
        upperIndex := pivotIndex;
      }
    }
    index := lowerIndex;
    IndexOfUnique(bs, id, index);
  }

  ghost predicate Pushed(q: nat, heap: seq<Node>, nodes: seq<Node>, heap': seq<Node>) {
    Ascending(NodeDist(q), heap') && multiset(heap') == multiset(heap) + multiset(nodes)
  }

  /** Pushes the nodes of one bucket onto the candidate heap. */
  method PushAll(q: nat, heap: seq<Node>, nodes: seq<Node>) returns (heap': seq<Node>)
    requires Ascending(NodeDist(q), heap)
    ensures Pushed(q, heap, nodes, heap')
  {
    heap' := heap;
    for i := 0 to |nodes|
      invariant Pushed(q, heap, nodes[..i], heap')
    {
      PushOne(q, heap, nodes, i, heap');
      heap' := Insert(NodeDist(q), heap', nodes[i]);
    }
    assert nodes[..|nodes|] == nodes;
  }

  lemma {:induction false} PushOne(q: nat, heap: seq<Node>, nodes: seq<Node>, i: nat, heap': seq<Node>)
    requires i < |nodes| && Pushed(q, heap, nodes[..i], heap')
    ensures Pushed(q, heap, nodes[..i + 1], Insert(NodeDist(q), heap', nodes[i]))
  {
    InsertContents(NodeDist(q), heap', nodes[i]);
    InsertAscending(NodeDist(q), heap', nodes[i]);
    assert nodes[..i + 1] == nodes[..i] + [nodes[i]];
  }

  lemma {:induction false} CollectRight(q: nat, heap: seq<Node>, bs: seq<Bucket>, l: nat, r: nat, heap': seq<Node>)
    requires l <= r < |bs| && Collected(q, heap, bs, l, r) && Pushed(q, heap, bs[r].active, heap')
    ensures Collected(q, heap', bs, l, r + 1)
  {
    ConcatContents(ActiveOf(bs, l, r), bs[r].active);
  }

  lemma {:induction false} CollectLeft(q: nat, heap: seq<Node>, bs: seq<Bucket>, l: nat, r: nat, heap': seq<Node>)
    requires l < r <= |bs| && Collected(q, heap, bs, l + 1, r) && Pushed(q, heap, bs[l].active, heap')
    ensures Collected(q, heap', bs, l, r)
  {
    ActiveFirst(bs, l, r);
    ConcatContents(bs[l].active, ActiveOf(bs, l + 1, r));
  }

  lemma {:induction false} ActiveFirst(bs: seq<Bucket>, l: nat, r: nat)
    requires l < r <= |bs|
    ensures ActiveOf(bs, l, r) == bs[l].active + ActiveOf(bs, l + 1, r)
  {
    assert ActiveOf(bs, l, l + 1) == bs[l].active by { assert ActiveOf(bs, l, l) == []; }
    ActiveSplit(bs, l, l + 1, r);
  }

  lemma {:induction false} ConcatContents(s: seq<Node>, t: seq<Node>)
    ensures multiset(s + t) == multiset(s) + multiset(t)
  {
  }

  /** What buckets `l..r` hold, for every `r`. */
  ghost function Running(bs: seq<Bucket>, l: nat): (bags: seq<multiset<Node>>) {
    seq(|bs| + 1, r requires 0 <= r <= |bs| => multiset(ActiveOf(bs, l, r)))
  }

  ghost predicate Accumulates(bs: seq<Bucket>, from: nat, bags: seq<multiset<Node>>) {
    |bags| == |bs| + 1 && forall i :: from <= i < |bs| ==> bags[i + 1] == bags[i] + multiset(bs[i].active)
  }

  lemma {:induction false} RunningAccumulates(bs: seq<Bucket>, l: nat)
    requires l <= |bs|
    ensures Accumulates(bs, l, Running(bs, l))
  {
    forall i | l <= i < |bs| ensures Running(bs, l)[i + 1] == Running(bs, l)[i] + multiset(bs[i].active) {
      ConcatContents(ActiveOf(bs, l, i), bs[i].active);
    }
  }

  /** Adds the buckets of the right sibling block; the last one added ends exactly at `upper`. */
  method MergeRight(bs: seq<Bucket>, ghost width: nat, q: nat, left: nat, right: nat, upper: nat,
                    ghost low: nat, ghost h: nat, heap: seq<Node>)
    returns (right': nat, heap': seq<Node>)
    requires Tiled(bs, width) && left < right <= |bs| && Collected(q, heap, bs, left, right)
    requires OddBlock(low, h) && bs[right - 1].upper == low
    requires upper == low + Pow2(h) <= Pow2(width)
    ensures right <= right' <= |bs| && bs[right' - 1].upper == upper
    ensures Collected(q, heap', bs, left, right')
  {
    RunningAccumulates(bs, left);
    right', heap' := CollectUpTo(bs, q, right, upper, heap, Running(bs, left));
    if right < right' { RangesAscend(bs, right - 1, right' - 1); }
    RightEnds(bs, width, right', low, h);
  }

  /** Collects buckets to the right as long as they end at or before `upper`. */
  method CollectUpTo(bs: seq<Bucket>, q: nat, right: nat, upper: nat, heap: seq<Node>, ghost bags: seq<multiset<Node>>)
    returns (right': nat, heap': seq<Node>)
    requires 0 < right <= |bs| && Accumulates(bs, right, bags) && Holds(q, heap, bags[right])
    requires bs[right - 1].upper <= upper
    ensures right <= right' <= |bs| && Holds(q, heap', bags[right']) && bs[right' - 1].upper <= upper
    ensures right' < |bs| ==> bs[right'].upper > upper
  {
    right', heap' := right, heap;
    while right' < |bs| && bs[right'].upper <= upper
      invariant right <= right' <= |bs| && Holds(q, heap', bags[right']) && bs[right' - 1].upper <= upper
    {
      heap' := PushAll(q, heap', bs[right'].active);
      right' := right' + 1;
    }
  }

  /** The buckets collected from a right sibling stop exactly at its end. */
  lemma {:induction false} RightEnds(bs: seq<Bucket>, width: nat, i: nat, low: nat, h: nat)
    requires Tiled(bs, width) && 0 < i <= |bs| && OddBlock(low, h) && low + Pow2(h) <= Pow2(width)
    requires low <= bs[i - 1].upper <= low + Pow2(h)
    requires i < |bs| ==> bs[i].upper > low + Pow2(h)
    ensures bs[i - 1].upper == low + Pow2(h)
  {
    if i < |bs| && bs[i - 1].upper < low + Pow2(h) {
      NextRange(bs, i);
      RightNested(bs[i], width, low, h);
    }
  }

  lemma {:induction false} NextRange(bs: seq<Bucket>, i: nat)
    requires Contiguous(bs) && 0 < i < |bs|
    ensures bs[i - 1].upper == bs[i].lower < bs[i].upper && bs[i - 1].lower < bs[i - 1].upper
  {
    assert bs[i - 1].upper == bs[i - 1 + 1].lower;
  }

  /** Adds the buckets of the left sibling block; the last one added starts exactly at `lower`. */
  method MergeLeft(bs: seq<Bucket>, ghost width: nat, q: nat, left: nat, right: nat, lower: nat,
                   ghost h: nat, heap: seq<Node>)
    returns (left': nat, heap': seq<Node>)
    requires Tiled(bs, width) && left < right <= |bs| && Collected(q, heap, bs, left, right)
    requires EvenBlock(lower, h) && bs[left].lower == lower + Pow2(h)
    ensures left' <= left && bs[left'].lower == lower
    ensures Collected(q, heap', bs, left', right)
  {
    left', heap' := left, heap;
    while left' > 0 && bs[left' - 1].lower >= lower
      invariant left' <= left && Collected(q, heap', bs, left', right)
      invariant lower <= bs[left'].lower <= lower + Pow2(h)
    {
      NextRange(bs, left');
      left' := left' - 1;
      var pushed := PushAll(q, heap', bs[left'].active);
      CollectLeft(q, heap', bs, left', right, pushed);
      heap' := pushed;
    }
    LeftEnds(bs, width, left', lower, h);
  }

  /** The buckets collected from a left sibling stop exactly at its start. */
  lemma {:induction false} LeftEnds(bs: seq<Bucket>, width: nat, i: nat, low: nat, h: nat)
    requires Tiled(bs, width) && i < |bs| && EvenBlock(low, h)
    requires low <= bs[i].lower <= low + Pow2(h)
    requires i > 0 ==> bs[i - 1].lower < low
    ensures bs[i].lower == low
  {
    if i > 0 && bs[i].lower > low {
      NextRange(bs, i);
      LeftNested(bs[i - 1], width, low, h);
    }
  }

  /** The block of `Pow2(h)` ids around the query is collected, and no smaller one is enough. */
  ghost predicate Climbed(bs: seq<Bucket>, q: nat, wanted: nat, left: nat, right: nat, lower: nat, upper: nat, h: nat,
                          heap: seq<Node>)
  {
    && lower == BlockStart(q, h) && upper == lower + Pow2(h) && Block(bs, left, right, lower, h)
    && Collected(q, heap, bs, left, right) && Scarce(bs, q, wanted, h)
  }

  /**
   * Collects candidates from the query's bucket and then from ever larger blocks around it, one
   * level of the trie at a time, until `wanted` are found or the whole table is covered.
   */
  method Climb(bs: seq<Bucket>, width: nat, q: nat, wanted: nat)
    returns (left: nat, right: nat, heap: seq<Node>, ghost h: nat)
    requires Tiled(bs, width) && q < Pow2(width)
    ensures SearchedBlock(bs, q, wanted, left, right, h) && Collected(q, heap, bs, left, right)
  {
    var lower, upper, depth;
    left, right, lower, upper, depth, heap := StartClimb(bs, width, q, wanted);
    while depth > 0 && |heap| < wanted
      invariant 0 <= depth <= width && Climbed(bs, q, wanted, left, right, lower, upper, width - depth, heap)
    {
      left, right, lower, upper, heap := ClimbOne(bs, width, q, wanted, left, right, lower, upper, width - depth, heap);
      depth := depth - 1;
    }
    h := width - depth;
    EndClimb(bs, width, q, wanted, left, right, lower, upper, h, heap);
  }

  /** The query's own bucket. */
  method StartClimb(bs: seq<Bucket>, width: nat, q: nat, ghost wanted: nat)
    returns (left: nat, right: nat, lower: nat, upper: nat, depth: nat, heap: seq<Node>)
    requires Tiled(bs, width) && q < Pow2(width)
    ensures depth <= width && Climbed(bs, q, wanted, left, right, lower, upper, width - depth, heap)
  {
    var index := GetBucketIndex(bs, width, q);
    var bucket := bs[index];
    heap := PushAll(q, [], bucket.active);
    CollectRight(q, [], bs, index, index, heap);
    left, right := index, index + 1;
    lower, upper, depth := bucket.lower, bucket.upper, bucket.depth;
    StartBlock(bs, width, index, q);
    NothingBelow(bs, width, index, q, wanted);
  }

  lemma {:induction false} EndClimb(bs: seq<Bucket>, width: nat, q: nat, wanted: nat, left: nat, right: nat,
                                    lower: nat, upper: nat, h: nat, heap: seq<Node>)
    requires Tiled(bs, width) && q < Pow2(width) && Climbed(bs, q, wanted, left, right, lower, upper, h, heap)
    requires h == width || |heap| >= wanted
    ensures SearchedBlock(bs, q, wanted, left, right, h)
  {
    SameLength(heap, ActiveOf(bs, left, right));
    if h == width { WholeBlock(bs, left, right, width, q); }
  }

  /** One level up: the sibling of the current block is merged into it. */
  method ClimbOne(bs: seq<Bucket>, ghost width: nat, q: nat, ghost wanted: nat, left: nat, right: nat, lower: nat,
                  upper: nat, h: nat, heap: seq<Node>)
    returns (left': nat, right': nat, lower': nat, upper': nat, heap': seq<Node>)
    requires Tiled(bs, width) && q < Pow2(width) && h < width && |heap| < wanted
    requires Climbed(bs, q, wanted, left, right, lower, upper, h, heap)
    ensures Climbed(bs, q, wanted, left', right', lower', upper', h + 1, heap')
  {
    SameLength(heap, ActiveOf(bs, left, right));
    ScarceNext(bs, q, wanted, left, right, h);
    left', right', lower', upper', heap' := MergeSibling(bs, width, q, left, right, lower, upper, h, heap);
  }

  method MergeSibling(bs: seq<Bucket>, ghost width: nat, q: nat, left: nat, right: nat, lower: nat, upper: nat, h: nat,
                      heap: seq<Node>)
    returns (left': nat, right': nat, lower': nat, upper': nat, heap': seq<Node>)
    requires Tiled(bs, width) && q < Pow2(width) && h < width
    requires lower == BlockStart(q, h) && upper == lower + Pow2(h)
    requires Block(bs, left, right, lower, h) && Collected(q, heap, bs, left, right)
    ensures lower' == BlockStart(q, h + 1) && upper' == lower' + Pow2(h + 1)
    ensures Block(bs, left', right', lower', h + 1) && Collected(q, heap', bs, left', right')
  {
    ParentBlock(q, h, width);
    left', right', lower', upper' := left, right, lower, upper;
    var splitDirection := SplitDirection(lower, h, q);
    if splitDirection == 0 {
      upper' := upper + (upper - lower);
      right', heap' := MergeRight(bs, width, q, left, right, upper', lower + Pow2(h), h, heap);
    } else {
      lower' := lower - (upper - lower);
      left', heap' := MergeLeft(bs, width, q, left, right, lower', h, heap);
    }
  }

  /**
   * The `k` active nodes of the whole table nearest to the query, leaving out `exclude`. If ids are
   * misplaced they are the nearest of the block searched.
   */
  method GetNearestNeighbors(bs: seq<Bucket>, width: nat, q: nat, k: nat, exclude: Option<nat>)
    returns (nearest: seq<Node>)
    requires Tiled(bs, width) && q < Pow2(width)
    ensures Sound(bs) ==> nearest == BruteForce(bs, q, k, exclude)
    ensures NearestAround(bs, q, k, exclude, nearest)
  {
    var left, right, heap, h := Climb(bs, width, q, k + Slack(exclude));
    nearest := Select(k, exclude, heap);
    assert SelectedFrom(bs, q, k, exclude, nearest, left, right, h, heap);
    if Sound(bs) {
      SelectCollected(bs, left, right, h, q, k, exclude, heap);
    }
  }

  lemma {:induction false} StartBlock(bs: seq<Bucket>, width: nat, index: nat, q: nat)
    requires Tiled(bs, width) && index < |bs| && bs[index].HasInRange(q)
    ensures var h := width - bs[index].depth;
            h >= 0 && bs[index].lower == BlockStart(q, h) && bs[index].upper == BlockStart(q, h) + Pow2(h)
  {
    var b := bs[index];
    assert Dyadic(b, width);
    AlignedStart(b.lower, width - b.depth, q);
  }

  lemma {:induction false} SelectCollected(bs: seq<Bucket>, l: nat, r: nat, h: nat, q: nat, k: nat,
                                           exclude: Option<nat>, heap: seq<Node>)
    requires Sound(bs)
    requires SearchedBlock(bs, q, k + Slack(exclude), l, r, h) && Collected(q, heap, bs, l, r)
    ensures Select(k, exclude, heap) == BruteForce(bs, q, k, exclude)
  {
    HeapIsSorted(bs, l, r, q, heap);
    SelectionExact(bs, l, r, h, q, k, exclude);
  }

  lemma {:induction false} HeapIsSorted(bs: seq<Bucket>, l: nat, r: nat, q: nat, heap: seq<Node>)
    requires Sound(bs) && l <= r <= |bs| && Collected(q, heap, bs, l, r)
    ensures heap == SortBy(NodeDist(q), ActiveOf(bs, l, r))
  {
    var key, nodes := NodeDist(q), ActiveOf(bs, l, r);
    NoTiesAnywhere(bs, l, r, q);
    SameMembers(heap, nodes);
    SortContents(key, nodes);
    SortAscending(key, nodes);
    AscendingUnique(key, heap, SortBy(key, nodes));
  }

  /** The block at the top of the trie is the whole table. */
  lemma {:induction false} WholeBlock(bs: seq<Bucket>, l: nat, r: nat, width: nat, q: nat)
    requires Tiled(bs, width) && Block(bs, l, r, BlockStart(q, width), width) && q < Pow2(width)
    ensures l == 0 && r == |bs|
  {
    TopStart(q, width);
    if l > 0 { RangesAscend(bs, 0, l); }
    if r < |bs| { RangesAscend(bs, r - 1, |bs| - 1); }
  }

  lemma {:induction false} TopStart(q: nat, width: nat)
    requires q < Pow2(width)
    ensures BlockStart(q, width) == 0
    decreases width
  {
    if width > 0 { TopStart(q / 2, width - 1); }
  }
}
