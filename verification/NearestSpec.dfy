/** Why climbing the implicit binary trie finds the nearest nodes of the whole table. */
module NearestSpec {
  import opened Basics
  import opened XorMetric
  import opened Ranked
  import opened Counting
  import opened Buckets
  import opened RoutingSpec

  function NodeDist(q: nat): Node -> int {
    (n: Node) => Xor(q, n.id)
  }

  /** All active nodes of buckets `l..r`. */
  function ActiveOf(bs: seq<Bucket>, l: nat, r: nat): (nodes: seq<Node>)
    requires r <= |bs|
    decreases r
  {
    if r <= l then [] else ActiveOf(bs, l, r - 1) + bs[r - 1].active
  }

  function Excluding(s: seq<Node>, exclude: Option<nat>): (r: seq<Node>) {
    match exclude
    case None => s
    case Some(id) => Without(s, id)
  }

  /** The reference: sort every active node of the table by distance, drop the excluded id, keep `k`. */
  function BruteForce(bs: seq<Bucket>, q: nat, k: nat, exclude: Option<nat>): (r: seq<Node>) {
    First(k, Excluding(SortBy(NodeDist(q), ActiveOf(bs, 0, |bs|)), exclude))
  }

  /** Contiguous buckets that are Ok and hold only ids of their own ranges. */
  ghost predicate Sound(bs: seq<Bucket>) {
    Contiguous(bs) && AllPlaced(bs) && forall i :: 0 <= i < |bs| ==> bs[i].Ok()
  }

  function Slack(exclude: Option<nat>): (n: nat) {
    if exclude.Some? then 1 else 0
  }

  // ---------------------------------------------------------------- aligned blocks

  /** First id of block number `m` among the aligned blocks of `Pow2(h)` ids. */
  function At(m: nat, h: nat): (r: nat) {
    Pow2(h) * m
  }

  /** First id of the aligned block of `Pow2(h)` ids around `q`: the id with its low digits cleared. */
  function BlockStart(q: nat, h: nat): (r: nat)
    decreases h
  {
    if h == 0 then q else 2 * BlockStart(q / 2, h - 1)
  }

  lemma {:induction false} BlockStartAt(q: nat, h: nat)
    ensures BlockStart(q, h) == At(Shift(q, h), h)
    decreases h
  {
    if h > 0 { BlockStartAt(q / 2, h - 1); }
  }

  ghost predicate EvenBlock(low: nat, h: nat) {
    exists m: nat :: m % 2 == 0 && low == At(m, h)
  }

  ghost predicate OddBlock(low: nat, h: nat) {
    exists m: nat :: m % 2 == 1 && low == At(m, h)
  }

  /** Buckets `l..r` are exactly the buckets of the ids from `low` up to `low + Pow2(h)`. */
  ghost predicate Block(bs: seq<Bucket>, l: nat, r: nat, low: nat, h: nat) {
    && l < r <= |bs|
    && bs[l].lower == low && bs[r - 1].upper == low + Pow2(h)
  }

  lemma {:induction false} Pow2Factor(g: nat, h: nat)
    requires g <= h
    ensures Pow2(h) == Pow2(g) * Pow2(h - g)
    decreases h
  {
    if g < h {
      Pow2Factor(g, h - 1);
      assert Pow2(h) == 2 * Pow2(h - 1) == 2 * (Pow2(g) * Pow2(h - 1 - g)) == Pow2(g) * (2 * Pow2(h - 1 - g));
    }
  }

  lemma {:induction false} Reassociate(p: nat, e: nat, c: nat)
    ensures p * e * c == p * (e * c)
  {
  }

  lemma {:induction false} MulOrder(p: nat, a: nat, b: nat)
    requires p > 0
    ensures p * a < p * b <==> a < b
    ensures a < b ==> p * a + p <= p * b
  {
    MultipleGap(p, a, b);
  }

  /** An aligned id is a multiple of every smaller power of two. */
  lemma {:induction false} Finer(x: nat, g: nat, h: nat) returns (y: nat)
    requires g <= h && Aligned(x, h)
    ensures x == Pow2(g) * y
  {
    Pow2Factor(g, h);
    AlignedMultiple(x, h);
    var c := Shift(x, h);
    y := Pow2(h - g) * c;
    Reassociate(Pow2(g), Pow2(h - g), c);
  }

  /** Halfway points of an aligned pair of blocks are odd multiples of the block length. */
  lemma {:induction false} NoEvenBetween(p: nat, m: nat, y: nat)
    requires p > 0
    requires p * m <= 2 * p * y < p * m + p
    ensures m % 2 == 0
  {
    assert 2 * p * y == p * (2 * y);
    assert p * m + p == p * (m + 1);
    MulOrder(p, 2 * y, m);
    MulOrder(p, 2 * y, m + 1);
  }

  /** A dyadic bucket that starts in the right half of a parent block ends there as well. */
  lemma {:induction false} RightNested(b: Bucket, width: nat, low: nat, h: nat)
    requires Dyadic(b, width) && OddBlock(low, h)
    requires low <= b.lower < low + Pow2(h)
    ensures b.upper <= low + Pow2(h)
  {
    var p, g := Pow2(h), width - b.depth;
    var m: nat :| m % 2 == 1 && low == At(m, h);
    if g > h {
      var y := Finer(b.lower, h + 1, g);
      NoEvenBetween(p, m, y);
    } else {
      var c := Finer(b.lower, g, g);
      Pow2Factor(g, h);
      Reassociate(Pow2(g), Pow2(h - g), m + 1);
      assert p * (m + 1) == p * m + p;
      MulOrder(Pow2(g), c, Pow2(h - g) * (m + 1));
    }
  }

  lemma {:induction false} NoEvenUpTo(p: nat, m: nat, y: nat)
    requires p > 0
    requires p * m < 2 * p * y <= p * m + p
    ensures m % 2 == 1
  {
    assert 2 * p * y == p * (2 * y);
    assert p * m + p == p * (m + 1);
    MulOrder(p, m, 2 * y);
    MulOrder(p, m + 1, 2 * y);
  }

  /** A dyadic bucket that ends in the left half of a parent block starts there as well. */
  lemma {:induction false} LeftNested(b: Bucket, width: nat, low: nat, h: nat)
    requires Dyadic(b, width) && EvenBlock(low, h)
    requires low < b.upper <= low + Pow2(h)
    ensures low <= b.lower
  {
    var p, g := Pow2(h), width - b.depth;
    var m: nat :| m % 2 == 0 && low == At(m, h);
    UpperAligned(b.lower, g);
    if g > h {
      var y := Finer(b.upper, h + 1, g);
      NoEvenUpTo(p, m, y);
    } else {
      var c := Finer(b.upper, g, g);
      Pow2Factor(g, h);
      Reassociate(Pow2(g), Pow2(h - g), m);
      GapBelow(Pow2(g), Pow2(h - g) * m, c, b.lower);
    }
  }

  lemma {:induction false} GapBelow(p: nat, a: nat, c: nat, low: nat)
    requires p > 0 && p * a < p * c == low + p
    ensures p * a <= low
  {
    MulOrder(p, a, c);
  }

  lemma {:induction false} UpperAligned(x: nat, h: nat)
    requires Aligned(x, h)
    ensures Aligned(x + Pow2(h), h)
    decreases h
  {
    if h > 0 {
      UpperAligned(x / 2, h - 1);
      assert (x + Pow2(h)) / 2 == x / 2 + Pow2(h - 1);
    }
  }

  /** The direction of the query's block below its parent: 0 for the left half, 1 for the right. */
  method SplitDirection(lower: nat, h: nat, ghost q: nat) returns (direction: nat)
    requires lower == BlockStart(q, h)
    ensures direction == Shift(q, h) % 2
  {
    BlockStartAt(q, h);
    Neighbours(Shift(q, h), h);
    direction := lower / Pow2(h) % 2;
  }

  /** One step up the trie: the start of the parent block and the sibling's place. */
  lemma {:induction false} ParentBlock(q: nat, h: nat, width: nat)
    requires h < width && q < Pow2(width)
    ensures var low := BlockStart(q, h);
            && (Shift(q, h) % 2 == 0 ==>
                  && BlockStart(q, h + 1) == low && OddBlock(low + Pow2(h), h)
                  && low + Pow2(h) + Pow2(h) <= Pow2(width))
            && (Shift(q, h) % 2 != 0 ==>
                  low >= Pow2(h) && BlockStart(q, h + 1) == low - Pow2(h) && EvenBlock(low - Pow2(h), h))
  {
    BlockStartAt(q, h);
    ParentStart(q, h);
    ParentFits(q, h, width);
    Neighbours(Shift(q, h), h);
  }

  lemma {:induction false} Neighbours(m: nat, h: nat)
    ensures At(m, h) / Pow2(h) == m
    ensures m % 2 == 0 ==> OddBlock(At(m, h) + Pow2(h), h)
    ensures m % 2 == 1 ==> At(m, h) >= Pow2(h) && EvenBlock(At(m, h) - Pow2(h), h)
  {
    var p := Pow2(h);
    QuotientUnique(p * m, p, m, 0);
    if m % 2 == 0 {
      assert At(m + 1, h) == At(m, h) + p;
    } else {
      assert At(m - 1, h) == At(m, h) - p;
    }
  }

  lemma {:induction false} ParentStart(q: nat, h: nat)
    ensures BlockStart(q, h + 1) == BlockStart(q, h) - (if Shift(q, h) % 2 == 0 then 0 else Pow2(h))
    decreases h
  {
    if h > 0 { ParentStart(q / 2, h - 1); }
  }

  lemma {:induction false} ParentFits(q: nat, h: nat, width: nat)
    requires h < width && q < Pow2(width)
    ensures BlockStart(q, h + 1) + Pow2(h + 1) <= Pow2(width)
    decreases h
  {
    assert q / 2 < Pow2(width - 1);
    if h > 0 {
      ParentFits(q / 2, h - 1, width - 1);
      assert BlockStart(q, h + 1) == 2 * BlockStart(q / 2, h);
    } else {
      assert BlockStart(q, 1) == 2 * BlockStart(q / 2, 0);
    }
  }

  // ---------------------------------------------------------------- separation

  lemma {:induction false} ActiveSplit(bs: seq<Bucket>, l: nat, m: nat, r: nat)
    requires l <= m <= r <= |bs|
    ensures ActiveOf(bs, l, r) == ActiveOf(bs, l, m) + ActiveOf(bs, m, r)
    decreases r
  {
    if m < r { ActiveSplit(bs, l, m, r - 1); }
  }

  lemma {:induction false} ActiveMember(bs: seq<Bucket>, l: nat, r: nat, n: Node) returns (i: nat)
    requires r <= |bs| && n in ActiveOf(bs, l, r)
    ensures l <= i < r && n in bs[i].active
    decreases r
  {
    if n in bs[r - 1].active { i := r - 1; } else { i := ActiveMember(bs, l, r - 1, n); }
  }

  /** Active nodes of a well-placed table have distinct ids. */
  lemma {:induction false} ActiveDistinct(bs: seq<Bucket>, l: nat, r: nat)
    requires Sound(bs) && r <= |bs|
    ensures DistinctIds(ActiveOf(bs, l, r))
    decreases r
  {
    if l < r {
      var last := r - 1;
      ActiveDistinct(bs, l, last);
      forall n, m | n in ActiveOf(bs, l, last) && m in bs[last].active ensures n.id != m.id {
        var i := ActiveMember(bs, l, last, n);
        RangesAscend(bs, i, last);
        assert n in bs[i].Nodes() && m in bs[last].Nodes();
        assert bs[i].HasInRange(n.id) && bs[last].HasInRange(m.id);
      }
      assert bs[last].Ok();
      ConcatDistinct(ActiveOf(bs, l, last), bs[last].active);
    }
  }

  lemma {:induction false} DistinctNoTies(s: seq<Node>, q: nat)
    requires DistinctIds(s)
    ensures NoTies(NodeDist(q), s)
  {
    forall x, y | x in s && y in s && NodeDist(q)(x) == NodeDist(q)(y) ensures x == y {
      XorInjective(q, x.id, y.id);
    }
  }

  lemma {:induction false} BlockInside(bs: seq<Bucket>, l: nat, r: nat, q: nat, h: nat, x: Node)
    requires Contiguous(bs) && AllPlaced(bs)
    requires Block(bs, l, r, BlockStart(q, h), h) && x in ActiveOf(bs, l, r)
    ensures Xor(q, x.id) < Pow2(h)
  {
    var i := ActiveMember(bs, l, r, x);
    assert bs[i].HasInRange(x.id) by { assert x in bs[i].Nodes(); }
    if l < i { RangesAscend(bs, l, i); }
    if i < r - 1 { RangesAscend(bs, i, r - 1); }
    NearBlock(q, h, x.id);
  }

  /** The active nodes of all buckets but `l..r`. */
  function Others(bs: seq<Bucket>, l: nat, r: nat): (nodes: seq<Node>)
    requires l <= r <= |bs|
  {
    ActiveOf(bs, 0, l) + ActiveOf(bs, r, |bs|)
  }

  lemma {:induction false} BlockOutside(bs: seq<Bucket>, l: nat, r: nat, q: nat, h: nat, y: Node)
    requires Contiguous(bs) && AllPlaced(bs)
    requires Block(bs, l, r, BlockStart(q, h), h) && y in Others(bs, l, r)
    ensures Xor(q, y.id) >= Pow2(h)
  {
    var j: nat;
    if y in ActiveOf(bs, 0, l) { j := ActiveMember(bs, 0, l, y); } else { j := ActiveMember(bs, r, |bs|, y); }
    assert bs[j].HasInRange(y.id) by { assert y in bs[j].Nodes(); }
    if j < l { RangesAscend(bs, j, l); } else { RangesAscend(bs, r - 1, j); }
    NearBlock(q, h, y.id);
  }

  /** The aligned block around the query holds exactly the ids less than `Pow2(h)` away from it. */
  lemma {:induction false} NearBlock(q: nat, h: nat, x: nat)
    ensures Xor(q, x) < Pow2(h) <==> BlockStart(q, h) <= x < BlockStart(q, h) + Pow2(h)
  {
    XorBlock(q, x, h);
    BlockStartAt(q, h);
    ShiftDivides(q, h);
    InBlock(Shift(q, h), h, x);
  }

  lemma {:induction false} InBlock(m: nat, h: nat, x: nat)
    ensures x / Pow2(h) == m <==> At(m, h) <= x < At(m, h) + Pow2(h)
  {
    if Pow2(h) * m <= x < Pow2(h) * m + Pow2(h) { QuotientUnique(x, Pow2(h), m, x - Pow2(h) * m); }
    assert x == Pow2(h) * (x / Pow2(h)) + x % Pow2(h);
  }

  /** Every node of the query's block is nearer than every node outside it. */
  lemma {:induction false} BlockSeparates(bs: seq<Bucket>, l: nat, r: nat, h: nat, q: nat, x: Node, y: Node)
    requires Contiguous(bs) && AllPlaced(bs)
    requires Block(bs, l, r, BlockStart(q, h), h)
    requires x in ActiveOf(bs, l, r) && y in Others(bs, l, r)
    ensures Xor(q, x.id) < Xor(q, y.id)
  {
    BlockInside(bs, l, r, q, h, x);
    BlockOutside(bs, l, r, q, h, y);
  }

  // ---------------------------------------------------------------- selection

  /** One spare candidate is enough to survive the exclusion of one id. */
  lemma {:induction false} FirstWithout(s: seq<Node>, k: nat, id: nat)
    requires DistinctIds(s)
    ensures First(k, Without(First(k + 1, s), id)) == First(k, Without(s, id))
  {
    if |s| > k + 1 {
      var n := |s| - 1;
      FirstWithout(s[..n], k, id);
      FirstSame(s, k + 1);
      LastNotNeeded(s, k, id);
    }
  }

  lemma {:induction false} LastNotNeeded(s: seq<Node>, k: nat, id: nat)
    requires DistinctIds(s) && |s| > k + 1
    ensures First(k, Without(s, id)) == First(k, Without(s[..|s| - 1], id))
  {
    var n := |s| - 1;
    WithoutLength(s[..n], id);
    if s[n].id != id { FirstOfMore(k, Without(s[..n], id), [s[n]]); }
  }

  lemma {:induction false} FirstSame<T>(s: seq<T>, k: nat)
    requires |s| > k
    ensures First(k, s) == First(k, s[..|s| - 1])
  {
  }

  /** The `k` first candidates once the excluded one is dropped. */
  function Select(k: nat, exclude: Option<nat>, heap: seq<Node>): (r: seq<Node>) {
    var top := First(k + Slack(exclude), heap);
    First(k, Excluding(top, exclude))
  }

  lemma {:induction false} SelectAll(s: seq<Node>, k: nat, exclude: Option<nat>)
    requires DistinctIds(s)
    ensures Select(k, exclude, s) == First(k, Excluding(s, exclude))
  {
    if exclude.Some? { FirstWithout(s, k, exclude.value); }
  }

  /** Selecting looks only at the first candidates. */
  lemma {:induction false} SelectAgrees(a: seq<Node>, b: seq<Node>, k: nat, exclude: Option<nat>)
    requires DistinctIds(b) && First(k + Slack(exclude), a) == First(k + Slack(exclude), b)
    ensures Select(k, exclude, a) == First(k, Excluding(b, exclude))
  {
    SelectAll(b, k, exclude);
  }

  lemma {:induction false} FirstOfMore<T>(n: nat, s: seq<T>, t: seq<T>)
    requires |s| >= n || t == []
    ensures First(n, s + t) == First(n, s)
  {
    assert t == [] ==> s + t == s;
  }

  lemma {:induction false} Rearrange(bs: seq<Bucket>, l: nat, r: nat)
    requires l <= r <= |bs|
    ensures multiset(ActiveOf(bs, 0, |bs|)) == multiset(ActiveOf(bs, l, r) + Others(bs, l, r))
  {
    ActiveSplit(bs, 0, l, |bs|);
    ActiveSplit(bs, l, r, |bs|);
  }

  /** Different ids of the whole table never tie, and neither do those of a part of it. */
  lemma {:induction false} NoTiesAnywhere(bs: seq<Bucket>, l: nat, r: nat, q: nat)
    requires Sound(bs) && l <= r <= |bs|
    ensures NoTies(NodeDist(q), ActiveOf(bs, 0, |bs|))
    ensures NoTies(NodeDist(q), ActiveOf(bs, l, r) + Others(bs, l, r))
    ensures NoTies(NodeDist(q), ActiveOf(bs, l, r))
  {
    ActiveDistinct(bs, 0, |bs|);
    DistinctNoTies(ActiveOf(bs, 0, |bs|), q);
    Rearrange(bs, l, r);
    SameMembers(ActiveOf(bs, 0, |bs|), ActiveOf(bs, l, r) + Others(bs, l, r));
  }

  /** The candidates of the query's block sort to the front of the whole table. */
  lemma {:induction false} BlockSortsFirst(bs: seq<Bucket>, l: nat, r: nat, h: nat, q: nat)
    requires Sound(bs) && Block(bs, l, r, BlockStart(q, h), h)
    ensures SortBy(NodeDist(q), ActiveOf(bs, 0, |bs|))
         == SortBy(NodeDist(q), ActiveOf(bs, l, r)) + SortBy(NodeDist(q), Others(bs, l, r))
  {
    var key, near, far := NodeDist(q), ActiveOf(bs, l, r), Others(bs, l, r);
    NoTiesAnywhere(bs, l, r, q);
    Rearrange(bs, l, r);
    SortPermutation(key, ActiveOf(bs, 0, |bs|), near + far);
    forall x, y | x in near && y in far ensures key(x) <= key(y) { BlockSeparates(bs, l, r, h, q, x, y); }
    SortNearFar(key, near, far);
  }

  lemma {:induction false} BlockSuffices(bs: seq<Bucket>, l: nat, r: nat, h: nat, q: nat, n: nat)
    requires Sound(bs) && Block(bs, l, r, BlockStart(q, h), h)
    requires |ActiveOf(bs, l, r)| >= n || (l == 0 && r == |bs|)
    ensures First(n, SortBy(NodeDist(q), ActiveOf(bs, l, r))) == First(n, SortBy(NodeDist(q), ActiveOf(bs, 0, |bs|)))
  {
    if l > 0 || r < |bs| {
      BlockSortsFirst(bs, l, r, h, q);
      FirstOfMore(n, SortBy(NodeDist(q), ActiveOf(bs, l, r)), SortBy(NodeDist(q), Others(bs, l, r)));
    }
  }

  lemma {:induction false} SortedDistinct(bs: seq<Bucket>, q: nat)
    requires Sound(bs)
    ensures DistinctIds(SortBy(NodeDist(q), ActiveOf(bs, 0, |bs|)))
  {
    ActiveDistinct(bs, 0, |bs|);
    SortContents(NodeDist(q), ActiveOf(bs, 0, |bs|));
    DistinctPermutation(ActiveOf(bs, 0, |bs|), SortBy(NodeDist(q), ActiveOf(bs, 0, |bs|)));
  }

  /**
   * Once the candidates come from the whole block around the query and are enough, or the block is
   * the whole table, selecting among them equals selecting among all active nodes.
   */
  lemma {:induction false} SelectionExact(bs: seq<Bucket>, l: nat, r: nat, h: nat, q: nat, k: nat, exclude: Option<nat>)
    requires Sound(bs) && Block(bs, l, r, BlockStart(q, h), h)
    requires |ActiveOf(bs, l, r)| >= k + Slack(exclude) || (l == 0 && r == |bs|)
    ensures Select(k, exclude, SortBy(NodeDist(q), ActiveOf(bs, l, r))) == BruteForce(bs, q, k, exclude)
  {
    var near, all := SortBy(NodeDist(q), ActiveOf(bs, l, r)), SortBy(NodeDist(q), ActiveOf(bs, 0, |bs|));
    assert First(k + Slack(exclude), near) == First(k + Slack(exclude), all) by {
      BlockSuffices(bs, l, r, h, q, k + Slack(exclude));
    }
    assert DistinctIds(all) by { SortedDistinct(bs, q); }
    SelectAgrees(near, all, k, exclude);
  }

  // ---------------------------------------------------------------- which block is searched

  /** The heap holds exactly the active nodes of buckets `l..r`. */
  ghost predicate Collected(q: nat, heap: seq<Node>, bs: seq<Bucket>, l: nat, r: nat)
    requires l <= r <= |bs|
  {
    Holds(q, heap, multiset(ActiveOf(bs, l, r)))
  }

  /** The heap is in order and holds exactly these nodes. */
  ghost predicate Holds(q: nat, heap: seq<Node>, nodes: multiset<Node>) {
    Ascending(NodeDist(q), heap) && multiset(heap) == nodes
  }

  /** Every block around the query of less than `Pow2(h)` ids has fewer active nodes than wanted. */
  ghost predicate Scarce(bs: seq<Bucket>, q: nat, wanted: nat, h: nat) {
    forall l: nat, r: nat, g: nat :: g < h && Block(bs, l, r, BlockStart(q, g), g) ==> |ActiveOf(bs, l, r)| < wanted
  }

  /** The smallest block around the query with enough active nodes, or the whole table. */
  ghost predicate SearchedBlock(bs: seq<Bucket>, q: nat, wanted: nat, l: nat, r: nat, h: nat) {
    && Block(bs, l, r, BlockStart(q, h), h) && Scarce(bs, q, wanted, h)
    && (|ActiveOf(bs, l, r)| >= wanted || (l == 0 && r == |bs|))
  }

  /** The nodes are the nearest ones of the smallest block with enough of them. */
  ghost predicate NearestAround(bs: seq<Bucket>, q: nat, k: nat, exclude: Option<nat>, nearest: seq<Node>) {
    exists l: nat, r: nat, h: nat, heap: seq<Node> :: SelectedFrom(bs, q, k, exclude, nearest, l, r, h, heap)
  }

  /** The nodes are selected from a heap of the active nodes of the block searched. */
  ghost predicate SelectedFrom(bs: seq<Bucket>, q: nat, k: nat, exclude: Option<nat>, nearest: seq<Node>, l: nat,
                               r: nat, h: nat, heap: seq<Node>)
  {
    && SearchedBlock(bs, q, k + Slack(exclude), l, r, h) && Collected(q, heap, bs, l, r)
    && nearest == Select(k, exclude, heap)
  }

  lemma {:induction false} AlignedStart(low: nat, h: nat, q: nat)
    requires Aligned(low, h) && low <= q < low + Pow2(h)
    ensures low == BlockStart(q, h)
    decreases h
  {
    if h > 0 { AlignedStart(low / 2, h - 1, q / 2); }
  }

  /** The block around a query covers the bucket of the query. */
  lemma {:induction false} BlockCovers(bs: seq<Bucket>, q: nat, i: nat, l: nat, r: nat, h: nat)
    requires Contiguous(bs) && i < |bs| && bs[i].HasInRange(q) && Block(bs, l, r, BlockStart(q, h), h)
    ensures l <= i < r && BlockStart(q, h) <= bs[i].lower && bs[i].upper <= BlockStart(q, h) + Pow2(h)
  {
    assert BlockStart(q, h) <= q < BlockStart(q, h) + Pow2(h) by {
      XorPositive(q, q);
      NearBlock(q, h, q);
    }
    if i < l { RangesAscend(bs, i, l); }
    if l < i { RangesAscend(bs, l, i); }
    if r - 1 < i { RangesAscend(bs, r - 1, i); }
    if i < r - 1 { RangesAscend(bs, i, r - 1); }
  }

  lemma {:induction false} NothingBelow(bs: seq<Bucket>, width: nat, i: nat, q: nat, wanted: nat)
    requires Tiled(bs, width) && i < |bs| && bs[i].HasInRange(q)
    ensures Scarce(bs, q, wanted, width - bs[i].depth)
  {
    var h := width - bs[i].depth;
    forall l: nat, r: nat, g: nat | Block(bs, l, r, BlockStart(q, g), g) ensures g >= h {
      assert Dyadic(bs[i], width);
      BlockCovers(bs, q, i, l, r, g);
      if g < h { Pow2Grows(g + 1, h); }
    }
  }

  lemma {:induction false} BlockUnique(bs: seq<Bucket>, l: nat, r: nat, l': nat, r': nat, low: nat, h: nat)
    requires Contiguous(bs) && Block(bs, l, r, low, h) && Block(bs, l', r', low, h)
    ensures l == l' && r == r'
  {
    if l < l' { RangesAscend(bs, l, l'); }
    if l' < l { RangesAscend(bs, l', l); }
    if r < r' { RangesAscend(bs, r - 1, r' - 1); }
    if r' < r { RangesAscend(bs, r' - 1, r - 1); }
  }

  lemma {:induction false} ScarceNext(bs: seq<Bucket>, q: nat, wanted: nat, l: nat, r: nat, h: nat)
    requires Contiguous(bs) && Scarce(bs, q, wanted, h)
    requires Block(bs, l, r, BlockStart(q, h), h) && |ActiveOf(bs, l, r)| < wanted
    ensures Scarce(bs, q, wanted, h + 1)
  {
    forall l': nat, r': nat, g: nat | g < h + 1 && Block(bs, l', r', BlockStart(q, g), g)
      ensures |ActiveOf(bs, l', r')| < wanted
    {
      if g == h { BlockUnique(bs, l, r, l', r', BlockStart(q, h), h); }
    }
  }

  /** Whatever the table, a node that is asked for by its own id is found exactly if the searched block has it. */
  lemma {:induction false} FoundIff(bs: seq<Bucket>, q: nat, k: nat, l: nat, r: nat, heap: seq<Node>)
    requires k > 0 && l <= r <= |bs| && Collected(q, heap, bs, l, r)
    ensures (exists n :: n in Select(k, None, heap) && n.id == q)
       <==> exists i: nat, n: Node :: l <= i < r && n in bs[i].active && n.id == q
  {
    SameMembers(heap, ActiveOf(bs, l, r));
    if n :| n in Select(k, None, heap) && n.id == q {
      var i := ActiveMember(bs, l, r, n);
    }
    if i: nat, n: Node :| l <= i < r && n in bs[i].active && n.id == q {
      ActiveHas(bs, l, r, i, n);
      XorPositive(q, q);
      NearestFirst(q, heap, n);
      assert heap[0] in Select(k, None, heap);
    }
  }

  lemma {:induction false} ActiveHas(bs: seq<Bucket>, l: nat, r: nat, i: nat, n: Node)
    requires l <= i < r <= |bs| && n in bs[i].active
    ensures n in ActiveOf(bs, l, r)
    decreases r
  {
    if i < r - 1 { ActiveHas(bs, l, r - 1, i, n); }
  }

  lemma {:induction false} NearestFirst(q: nat, heap: seq<Node>, n: Node)
    requires Ascending(NodeDist(q), heap) && n in heap && n.id == q
    ensures heap[0].id == q
  {
    var j :| 0 <= j < |heap| && heap[j] == n;
    assert NodeDist(q)(heap[0]) <= NodeDist(q)(heap[j]);
    XorPositive(q, q);
    XorInjective(q, heap[0].id, q);
  }

  lemma {:induction false} WithoutAscending(key: Node -> int, s: seq<Node>, id: nat)
    requires Ascending(key, s)
    ensures Ascending(key, Without(s, id))
  {
    if s != [] {
      var n := |s| - 1;
      WithoutAscending(key, s[..n], id);
      WithoutMembers(s[..n], id);
      forall x | x in s[..n] ensures key(x) <= key(s[n]) {
        var i :| 0 <= i < n && s[..n][i] == x;
        assert s[i] == x;
      }
    }
  }

  /** The node is active somewhere and not the excluded one. */
  ghost predicate Eligible(bs: seq<Bucket>, exclude: Option<nat>, n: Node) {
    n in ActiveOf(bs, 0, |bs|) && exclude != Some(n.id)
  }

  lemma {:induction false} EligibleSorted(bs: seq<Bucket>, q: nat, exclude: Option<nat>)
    requires Sound(bs)
    ensures var w := Excluding(SortBy(NodeDist(q), ActiveOf(bs, 0, |bs|)), exclude);
            && Ascending(NodeDist(q), w) && DistinctIds(w)
            && forall n :: n in w <==> Eligible(bs, exclude, n)
  {
    var all := ActiveOf(bs, 0, |bs|);
    var t := SortBy(NodeDist(q), all);
    SortAscending(NodeDist(q), all);
    SortContents(NodeDist(q), all);
    SameMembers(t, all);
    SortedDistinct(bs, q);
    if exclude.Some? {
      WithoutAscending(NodeDist(q), t, exclude.value);
      WithoutDistinct(t, exclude.value);
      WithoutMembers(t, exclude.value);
    }
  }

  /**
   * What the reference answer means: eligible nodes only, in strictly increasing distance, and every
   * eligible node left out is farther than all of them, which happens only when there are `k` of them.
   */
  lemma {:induction false} BruteForceMeaning(bs: seq<Bucket>, q: nat, k: nat, exclude: Option<nat>)
    requires Sound(bs)
    ensures var r := BruteForce(bs, q, k, exclude);
            && |r| <= k
            && (forall n :: n in r ==> Eligible(bs, exclude, n))
            && (forall i, j :: 0 <= i < j < |r| ==> Xor(q, r[i].id) < Xor(q, r[j].id))
            && (forall n :: Eligible(bs, exclude, n) && n !in r ==>
                  |r| == k && forall x :: x in r ==> Xor(q, x.id) < Xor(q, n.id))
  {
    var w := Excluding(SortBy(NodeDist(q), ActiveOf(bs, 0, |bs|)), exclude);
    EligibleSorted(bs, q, exclude);
    StrictlyAscending(w, q);
    FirstOfStrict(w, q, k);
  }

  /**
   * The first `k` of a strictly ascending list are nearer than the rest, and the rest exists only behind
   * `k` of them.
   */
  lemma {:induction false} FirstOfStrict(w: seq<Node>, q: nat, k: nat)
    requires forall i, j :: 0 <= i < j < |w| ==> Xor(q, w[i].id) < Xor(q, w[j].id)
    ensures var r := First(k, w);
            && (forall n :: n in r ==> n in w)
            && (forall i, j :: 0 <= i < j < |r| ==> Xor(q, r[i].id) < Xor(q, r[j].id))
            && (forall n :: n in w && n !in r ==> |r| == k && forall x :: x in r ==> Xor(q, x.id) < Xor(q, n.id))
  {
    var r := First(k, w);
    assert forall i :: 0 <= i < |r| ==> r[i] == w[i] && r[i] in r;
    forall n | n in w && n !in r ensures |r| == k && forall x :: x in r ==> Xor(q, x.id) < Xor(q, n.id) {
      var j :| 0 <= j < |w| && w[j] == n;
      forall x | x in r ensures Xor(q, x.id) < Xor(q, n.id) {
        var i :| 0 <= i < |r| && r[i] == x;
        assert w[i] == x;
      }
    }
  }

  lemma {:induction false} StrictlyAscending(w: seq<Node>, q: nat)
    requires Ascending(NodeDist(q), w) && DistinctIds(w)
    ensures forall i, j :: 0 <= i < j < |w| ==> Xor(q, w[i].id) < Xor(q, w[j].id)
  {
    forall i, j | 0 <= i < j < |w| ensures Xor(q, w[i].id) < Xor(q, w[j].id) {
      assert NodeDist(q)(w[i]) <= NodeDist(q)(w[j]);
      XorInjective(q, w[i].id, w[j].id);
    }
  }

  /** Distinct ids survive a rearrangement. */
  lemma {:induction false} DistinctPermutation(s: seq<Node>, t: seq<Node>)
    requires DistinctIds(s) && multiset(s) == multiset(t)
    ensures DistinctIds(t)
  {
    DistinctOnce(s);
    DistinctOnce(t);
    SameMembers(s, t);
    forall i, j | 0 <= i < j < |t| ensures t[i].id != t[j].id {
      assert t[i] in s && t[j] in s;
      var k :| 0 <= k < |s| && s[k] == t[i];
      var l :| 0 <= l < |s| && s[l] == t[j];
      assert k != l;
    }
  }
}
