/** The k-bucket as a value: ordered dictionaries are lists of nodes with distinct ids. */
module Buckets {
  import opened Basics

  datatype Node = Node(id: nat, peer: PeerId)

  function Ids(s: seq<Node>): (r: set<nat>) {
    set n | n in s :: n.id
  }

  ghost predicate DistinctIds(s: seq<Node>) {
    forall i, j :: 0 <= i < j < |s| ==> s[i].id != s[j].id
  }

  /** Deletes a key from an ordered dictionary, keeping the order of the rest. */
  function Without(s: seq<Node>, id: nat): (r: seq<Node>) {
    if s == [] then []
    else
      var rest := Without(s[..|s| - 1], id);
      if s[|s| - 1].id == id then rest else rest + [s[|s| - 1]]
  }

  lemma {:induction false} WithoutMembers(s: seq<Node>, id: nat)
    ensures forall n :: n in Without(s, id) <==> n in s && n.id != id
  {
    if s != [] {
      WithoutMembers(s[..|s| - 1], id);
      assert s == s[..|s| - 1] + [s[|s| - 1]];
    }
  }

  lemma {:induction false} WithoutDistinct(s: seq<Node>, id: nat)
    requires DistinctIds(s)
    ensures DistinctIds(Without(s, id))
  {
    if s != [] {
      var n := |s| - 1;
      WithoutDistinct(s[..n], id);
      WithoutMembers(s[..n], id);
      DistinctPush(s, Without(s[..n], id));
    }
  }

  lemma {:induction false} WithoutSame(s: seq<Node>, id: nat)
    requires id !in Ids(s)
    ensures Without(s, id) == s
  {
    if s != [] {
      var n := |s| - 1;
      assert s == s[..n] + [s[n]];
      AppendIds(s[..n], s[n]);
      WithoutSame(s[..n], id);
    }
  }

  /** A key occurs once, so deleting it shortens the dictionary by one. */
  lemma {:induction false} WithoutLength(s: seq<Node>, id: nat)
    requires DistinctIds(s)
    ensures |Without(s, id)| == if id in Ids(s) then |s| - 1 else |s|
  {
    if s != [] {
      var n := |s| - 1;
      assert s == s[..n] + [s[n]];
      AppendIds(s[..n], s[n]);
      WithoutLength(s[..n], id);
    }
  }

  datatype Bucket = Bucket(lower: nat, upper: nat, size: nat, depth: nat,
                           active: seq<Node>, spare: seq<Node>, pinged: set<nat>)
  {
    ghost function Nodes(): set<Node> {
      set n | n in active + spare
    }

    ghost predicate Holds(id: nat) {
      id in Ids(active) || id in Ids(spare)
    }

    predicate HasInRange(id: nat) {
      lower <= id < upper
    }

    function Mid(): nat {
      (lower + upper) / 2
    }

    /** Active and spare nodes are disjoint, at most `size` are active, and spares wait only behind a full bucket. */
    ghost predicate Ok() {
      && DistinctIds(active) && DistinctIds(spare)
      && Ids(active) !! Ids(spare)
      && |active| <= size
      && (spare != [] ==> |active| == size)
    }

    /** Every node lies in the bucket's half-open range. */
    ghost predicate Placed() {
      forall n :: n in Nodes() ==> HasInRange(n.id)
    }

    function Add(id: nat, peer: PeerId): (r: (Bucket, bool)) {
      var b := this.(pinged := pinged - {id});
      if id in Ids(active) then (b.(active := Without(active, id) + [Node(id, peer)]), true)
      else if |active| < size then (b.(active := active + [Node(id, peer)]), true)
      else (b.(spare := Without(spare, id) + [Node(id, peer)]), false)
    }

    /** The least recently updated active node that has no ping outstanding. */
    function PingCandidate(): (r: Option<Node>)
      ensures r.None? ==> forall n :: n in active ==> n.id in pinged
      ensures r.Some? ==> exists i :: 0 <= i < |active| && active[i] == r.value && r.value.id !in pinged
                                      && forall j :: 0 <= j < i ==> active[j].id in pinged
    {
      FirstNotIn(active, pinged)
    }

    function RequestPing(): (r: (Bucket, Option<Node>)) {
      match PingCandidate()
      case None => (this, None)
      case Some(n) => (this.(pinged := pinged + {n.id}), Some(n))
    }

    /** Deletes a node; the most recently updated spare takes a freed active place. */
    function Delete(id: nat): (r: Bucket) {
      var spare' := Without(spare, id);
      if id !in Ids(active) then this.(spare := spare')
      else if spare' == [] then this.(active := Without(active, id), spare := [])
      else
        var last := |spare'| - 1;
        this.(active := Without(active, id) + [spare'[last]], spare := spare'[..last])
    }

    function Half(left: bool): (r: Bucket)
      requires lower <= upper
    {
      if left then Bucket(lower, Mid(), size, depth + 1, [], [], {})
      else Bucket(Mid(), upper, size, depth + 1, [], [], {})
    }

    /** Both halves of the range, refilled with the active nodes first and the spares after them. */
    function Split(): (r: (Bucket, Bucket))
      requires lower <= upper
    {
      Distribute(Half(true), Half(false), Mid(), active + spare)
    }
  }

  function FirstNotIn(s: seq<Node>, skip: set<nat>): (r: Option<Node>)
    ensures r.None? ==> forall n :: n in s ==> n.id in skip
    ensures r.Some? ==> exists i :: 0 <= i < |s| && s[i] == r.value && r.value.id !in skip
                                    && forall j :: 0 <= j < i ==> s[j].id in skip
  {
    if s == [] then None
    else if s[0].id !in skip then Some(s[0])
    else
      var r := FirstNotIn(s[1..], skip);
      assert r.Some? ==> exists i :: 0 <= i < |s| && s[i] == r.value && r.value.id !in skip
                                     && forall j :: 0 <= j < i ==> s[j].id in skip by {
        if r.Some? {
          var k :| 0 <= k < |s[1..]| && s[1..][k] == r.value && forall j :: 0 <= j < k ==> s[1..][j].id in skip;
          assert s[k + 1] == r.value;
          assert forall j :: 0 < j < k + 1 ==> s[j] == s[1..][j - 1];
        }
      }
      r
  }

  /** Sends every node to a half by its id; an id equal to `mid` goes left. */
  function Distribute(left: Bucket, right: Bucket, mid: nat, items: seq<Node>): (r: (Bucket, Bucket)) {
    if items == [] then (left, right)
    else
      var n := |items| - 1;
      var (l, r) := Distribute(left, right, mid, items[..n]);
      if items[n].id <= mid then (l.Add(items[n].id, items[n].peer).0, r)
      else (l, r.Add(items[n].id, items[n].peer).0)
  }

  lemma {:induction false} DistributePush(left: Bucket, right: Bucket, mid: nat, items: seq<Node>, i: nat)
    requires i < |items|
    ensures var (l, r) := Distribute(left, right, mid, items[..i]);
            Distribute(left, right, mid, items[..i + 1])
            == if items[i].id <= mid then (l.Add(items[i].id, items[i].peer).0, r)
               else (l, r.Add(items[i].id, items[i].peer).0)
  {
    assert items[..i + 1][..i] == items[..i];
  }

  /** One update of an Ok bucket: the node is stored, everyone else stays, and nobody is demoted. */
  lemma {:induction false} AddKeeps(b: Bucket, id: nat, peer: PeerId)
    requires b.Ok()
    ensures var (b', ok) := b.Add(id, peer);
            && b'.Ok()
            && (forall n :: n in b'.Nodes() <==> (n in b.Nodes() && n.id != id) || n == Node(id, peer))
            && (forall n :: n in b.active && n.id != id ==> n in b'.active)
            && (ok <==> id in Ids(b'.active))
            && (ok ==> b'.active != [] && b'.active[|b'.active| - 1] == Node(id, peer))
            && (!ok ==> b'.active == b.active && |b.active| == b.size && b'.spare != [])
  {
    var x := Node(id, peer);
    var (b', ok) := b.Add(id, peer);
    if id in Ids(b.active) {
      Renew(b.active, x);
      assert b'.spare == b.spare;
      assert forall n :: n in b.spare ==> n.id in Ids(b.spare);
    } else if |b.active| < b.size {
      Renew(b.active, x);
    } else {
      Renew(b.spare, x);
      assert forall n :: n in b.active ==> n.id in Ids(b.active);
    }
  }

  lemma {:induction false} WithoutAt(s: seq<Node>, i: nat)
    requires DistinctIds(s) && i < |s|
    ensures Without(s, s[i].id) == s[..i] + s[i + 1..]
  {
    var n := |s| - 1;
    if i < n {
      WithoutAt(s[..n], i);
      assert s[..n][i + 1..] + [s[n]] == s[i + 1..];
    } else {
      forall m | m in s[..n] ensures m.id != s[n].id {
        var j :| 0 <= j < n && s[..n][j] == m;
        assert s[j] == m;
      }
      WithoutSame(s[..n], s[n].id);
      assert s[..n] + [] == s[..n];
    }
  }

  /** The list without the id, the rest in the same order. */
  ghost predicate DroppedFrom(s: seq<Node>, id: nat, r: seq<Node>) {
    (id !in Ids(s) ==> r == s) && forall i :: 0 <= i < |s| && s[i].id == id ==> r == s[..i] + s[i + 1..]
  }

  lemma {:induction false} WithoutDrops(s: seq<Node>, id: nat)
    requires DistinctIds(s)
    ensures DroppedFrom(s, id, Without(s, id))
  {
    if id !in Ids(s) { WithoutSame(s, id); }
    forall i | 0 <= i < |s| && s[i].id == id ensures Without(s, id) == s[..i] + s[i + 1..] { WithoutAt(s, i); }
  }

  /**
   * The order of last updates: an updated node moves to the end of the active nodes, or of the spares if
   * all active places are taken by others, and nobody else moves. Its own ping is no longer outstanding.
   */
  lemma {:induction false} AddOrder(b: Bucket, id: nat, peer: PeerId)
    requires b.Ok()
    ensures var (b', ok) := b.Add(id, peer);
            && (ok <==> id in Ids(b.active) || |b.active| < b.size)
            && (ok ==> b'.spare == b.spare && b'.active != []
                       && b'.active[|b'.active| - 1] == Node(id, peer)
                       && DroppedFrom(b.active, id, b'.active[..|b'.active| - 1]))
            && (!ok ==> b'.active == b.active && b'.spare != []
                        && b'.spare[|b'.spare| - 1] == Node(id, peer)
                        && DroppedFrom(b.spare, id, b'.spare[..|b'.spare| - 1]))
            && b'.pinged == b.pinged - {id}
  {
    WithoutDrops(b.active, id);
    WithoutDrops(b.spare, id);
    var x := Node(id, peer);
    assert (Without(b.active, id) + [x])[..|Without(b.active, id)|] == Without(b.active, id);
    assert (Without(b.spare, id) + [x])[..|Without(b.spare, id)|] == Without(b.spare, id);
    assert (b.active + [x])[..|b.active|] == b.active;
  }

  /** Deleting keeps the order of all others; a freed active place goes to the most recent spare, at the end. */
  lemma {:induction false} DeleteOrder(b: Bucket, id: nat)
    requires b.Ok() && b.Holds(id)
    ensures var b', n := b.Delete(id), |b.spare|;
            && b'.pinged == b.pinged
            && (id !in Ids(b.active) ==> b'.active == b.active && DroppedFrom(b.spare, id, b'.spare))
            && (id in Ids(b.active) && n == 0 ==> b'.spare == [] && DroppedFrom(b.active, id, b'.active))
            && (id in Ids(b.active) && n > 0 ==>
                  && b'.spare == b.spare[..n - 1] && b'.active != []
                  && b'.active[|b'.active| - 1] == b.spare[n - 1]
                  && DroppedFrom(b.active, id, b'.active[..|b'.active| - 1]))
  {
    WithoutDrops(b.active, id);
    WithoutDrops(b.spare, id);
    if id in Ids(b.active) {
      WithoutSame(b.spare, id);
      if b.spare != [] {
        var x := b.spare[|b.spare| - 1];
        assert (Without(b.active, id) + [x])[..|Without(b.active, id)|] == Without(b.active, id);
      }
    }
  }

  /** Re-inserting a key at the end of an ordered dictionary. */
  lemma {:induction false} Renew(s: seq<Node>, x: Node)
    requires DistinctIds(s)
    ensures var r := Without(s, x.id) + [x];
            && DistinctIds(r)
            && Ids(r) == Ids(s) + {x.id}
            && (forall n :: n in r <==> (n in s && n.id != x.id) || n == x)
            && |r| == if x.id in Ids(s) then |s| else |s| + 1
  {
    var w := Without(s, x.id);
    WithoutMembers(s, x.id);
    WithoutDistinct(s, x.id);
    WithoutLength(s, x.id);
    AppendIds(w, x);
    forall id ensures id in Ids(w) <==> id in Ids(s) && id != x.id {}
  }

  /** Whatever the bucket looked like, the node ends up active or spare. */
  lemma {:induction false} AddHolds(b: Bucket, id: nat, peer: PeerId)
    ensures b.Add(id, peer).0.Holds(id)
  {
    AppendIds(Without(b.active, id), Node(id, peer));
    AppendIds(b.active, Node(id, peer));
    AppendIds(Without(b.spare, id), Node(id, peer));
  }

  lemma {:induction false} AppendIds(s: seq<Node>, x: Node)
    ensures Ids(s + [x]) == Ids(s) + {x.id}
    ensures forall n :: n in s + [x] <==> n in s || n == x
  {
  }

  /** Deleting a stored node keeps everybody else and refills the active places. */
  lemma {:induction false} DeleteKeeps(b: Bucket, id: nat)
    requires b.Ok() && b.Holds(id)
    ensures b.Delete(id).Ok()
    ensures forall n :: n in b.Delete(id).Nodes() <==> n in b.Nodes() && n.id != id
    ensures forall n :: n in b.active && n.id != id ==> n in b.Delete(id).active
    ensures id in Ids(b.active) && b.spare != [] ==> b.spare[|b.spare| - 1] in b.Delete(id).active
  {
    if id in Ids(b.active) { WithoutSame(b.spare, id); }
    var active', spare' := Without(b.active, id), Without(b.spare, id);
    WithoutMembers(b.active, id);
    WithoutMembers(b.spare, id);
    WithoutDistinct(b.active, id);
    WithoutDistinct(b.spare, id);
    WithoutLength(b.active, id);
    WithoutLength(b.spare, id);
    if id !in Ids(b.active) { WithoutSame(b.active, id); }
    assert Ids(active') <= Ids(b.active) && Ids(spare') <= Ids(b.spare);
    if id in Ids(b.active) && spare' != [] { PromoteKeeps(active', spare'); }
  }

  /** Moving the last spare node behind the active ones. */
  lemma {:induction false} PromoteKeeps(active: seq<Node>, spare: seq<Node>)
    requires DistinctIds(active) && DistinctIds(spare) && Ids(active) !! Ids(spare) && spare != []
    ensures var n := |spare| - 1;
            && DistinctIds(active + [spare[n]]) && DistinctIds(spare[..n])
            && Ids(active + [spare[n]]) !! Ids(spare[..n])
            && (forall x :: x in active + [spare[n]] || x in spare[..n] <==> x in active || x in spare)
  {
    var n := |spare| - 1;
    assert spare == spare[..n] + [spare[n]];
    AppendIds(spare[..n], spare[n]);
    AppendIds(active, spare[n]);
    assert spare[n].id in Ids(spare);
    assert spare[n].id !in Ids(spare[..n]);
  }

  /** The items that belong to one half, in order. */
  function Side(items: seq<Node>, mid: nat, left: bool): (r: seq<Node>) {
    if items == [] then []
    else
      var rest, x := Side(items[..|items| - 1], mid, left), items[|items| - 1];
      if (x.id <= mid) == left then rest + [x] else rest
  }

  lemma {:induction false} SideMembers(items: seq<Node>, mid: nat, left: bool)
    ensures forall n :: n in Side(items, mid, left) <==> n in items && (n.id <= mid) == left
    ensures |Side(items, mid, left)| <= |items|
  {
    if items != [] {
      SideMembers(items[..|items| - 1], mid, left);
      assert items == items[..|items| - 1] + [items[|items| - 1]];
    }
  }

  lemma {:induction false} SideDistinct(items: seq<Node>, mid: nat, left: bool)
    requires DistinctIds(items)
    ensures DistinctIds(Side(items, mid, left))
  {
    if items != [] {
      var n := |items| - 1;
      SideDistinct(items[..n], mid, left);
      SideMembers(items[..n], mid, left);
      DistinctPush(items, Side(items[..n], mid, left));
    }
  }

  /** A bucket filled from scratch: the first `size` nodes are active, the others are spare. */
  ghost predicate FilledWith(b: Bucket, items: seq<Node>) {
    && b.active == (if |items| <= b.size then items else items[..b.size])
    && b.spare == (if |items| <= b.size then [] else items[b.size..])
  }

  lemma {:induction false} FillOne(b: Bucket, items: seq<Node>, x: Node)
    requires FilledWith(b, items)
    requires DistinctIds(items + [x])
    ensures FilledWith(b.Add(x.id, x.peer).0, items + [x])
  {
    forall n | n in items ensures n.id != x.id {
      var i :| 0 <= i < |items| && items[i] == n;
      assert (items + [x])[i] == n && (items + [x])[|items|] == x;
    }
    WithoutSame(b.spare, x.id);
  }

  lemma {:induction false} DistinctPush(items: seq<Node>, side: seq<Node>)
    requires items != [] && DistinctIds(items) && DistinctIds(side)
    requires forall m :: m in side ==> m in items[..|items| - 1]
    ensures DistinctIds(side + [items[|items| - 1]])
  {
    forall m | m in side ensures m.id != items[|items| - 1].id {
      var i :| 0 <= i < |items| - 1 && items[i] == m;
    }
  }

  lemma {:induction false} DistributeFills(left: Bucket, right: Bucket, mid: nat, items: seq<Node>)
    requires FilledWith(left, []) && FilledWith(right, [])
    requires DistinctIds(items)
    ensures var (l, r) := Distribute(left, right, mid, items);
            && FilledWith(l, Side(items, mid, true)) && FilledWith(r, Side(items, mid, false))
            && l == left.(active := l.active, spare := l.spare, pinged := l.pinged)
            && r == right.(active := r.active, spare := r.spare, pinged := r.pinged)
  {
    if items != [] {
      var n := |items| - 1;
      var x := items[n];
      DistributeFills(left, right, mid, items[..n]);
      var (l, r) := Distribute(left, right, mid, items[..n]);
      var on := x.id <= mid;
      var side := Side(items[..n], mid, on);
      SideMembers(items[..n], mid, on);
      SideDistinct(items[..n], mid, on);
      DistinctPush(items, side);
      FillOne(if on then l else r, side, x);
    }
  }

  lemma {:induction false} SideConcat(s: seq<Node>, t: seq<Node>, mid: nat, left: bool)
    ensures Side(s + t, mid, left) == Side(s, mid, left) + Side(t, mid, left)
  {
    if t == [] {
      assert s + t == s;
    } else {
      var n := |t| - 1;
      SideConcat(s, t[..n], mid, left);
      SidePush(s + t[..n], t[n], mid, left);
      SidePush(t[..n], t[n], mid, left);
      assert s + t[..n] + [t[n]] == s + t;
      assert t[..n] + [t[n]] == t;
    }
  }

  lemma {:induction false} SidePush(s: seq<Node>, x: Node, mid: nat, left: bool)
    ensures Side(s + [x], mid, left) == Side(s, mid, left) + (if (x.id <= mid) == left then [x] else [])
  {
    assert (s + [x])[..|s|] == s;
  }

  /** The two halves of a split, each filled with its side of the nodes, active ones first. */
  lemma {:induction false} SplitFills(b: Bucket)
    requires b.Ok() && b.lower <= b.upper
    ensures var (l, r) := b.Split();
            && DistinctIds(b.active + b.spare)
            && FilledWith(l, Side(b.active + b.spare, b.Mid(), true))
            && FilledWith(r, Side(b.active + b.spare, b.Mid(), false))
            && l == Bucket(b.lower, b.Mid(), b.size, b.depth + 1, l.active, l.spare, l.pinged)
            && r == Bucket(b.Mid(), b.upper, b.size, b.depth + 1, r.active, r.spare, r.pinged)
  {
    ConcatDistinct(b.active, b.spare);
    DistributeFills(b.Half(true), b.Half(false), b.Mid(), b.active + b.spare);
  }

  /** Splitting keeps exactly the same nodes, each in the half of its id, and the halves stay Ok. */
  lemma {:induction false} SplitKeeps(b: Bucket)
    requires b.Ok() && b.lower <= b.upper
    ensures var (l, r) := b.Split();
            && l.Ok() && r.Ok()
            && (forall n :: n in b.Nodes() <==> n in l.Nodes() || n in r.Nodes())
            && (forall n :: n in l.Nodes() <==> n in b.Nodes() && n.id <= b.Mid())
            && (forall n :: n in r.Nodes() <==> n in b.Nodes() && n.id > b.Mid())
            && l == Bucket(b.lower, b.Mid(), b.size, b.depth + 1, l.active, l.spare, l.pinged)
            && r == Bucket(b.Mid(), b.upper, b.size, b.depth + 1, r.active, r.spare, r.pinged)
  {
    var (l, r) := b.Split();
    SplitFills(b);
    HalfOk(l, b.active + b.spare, b.Mid(), true);
    HalfOk(r, b.active + b.spare, b.Mid(), false);
  }

  /**
   * Nobody active is demoted: the active list of a half starts with the active nodes of that half, in
   * their old order.
   */
  lemma {:induction false} SplitNeverDemotes(b: Bucket)
    requires b.Ok() && b.lower <= b.upper
    ensures Side(b.active, b.Mid(), true) <= b.Split().0.active
    ensures Side(b.active, b.Mid(), false) <= b.Split().1.active
    ensures forall n :: n in b.active ==> n in b.Split().0.active || n in b.Split().1.active
  {
    SplitFills(b);
    FrontStays(b, b.Split().0, true);
    FrontStays(b, b.Split().1, false);
    SideMembers(b.active, b.Mid(), true);
    SideMembers(b.active, b.Mid(), false);
  }

  lemma {:induction false} FrontStays(b: Bucket, half: Bucket, left: bool)
    requires |b.active| <= b.size == half.size && FilledWith(half, Side(b.active + b.spare, b.Mid(), left))
    ensures Side(b.active, b.Mid(), left) <= half.active
  {
    SideConcat(b.active, b.spare, b.Mid(), left);
    SideMembers(b.active, b.Mid(), left);
  }

  /** A half filled with its side of the items is Ok and holds exactly those items. */
  lemma {:induction false} HalfOk(b: Bucket, items: seq<Node>, mid: nat, left: bool)
    requires FilledWith(b, Side(items, mid, left)) && DistinctIds(items)
    ensures b.Ok()
    ensures forall n :: n in b.Nodes() <==> n in items && (n.id <= mid) == left
  {
    SideDistinct(items, mid, left);
    SideMembers(items, mid, left);
    FilledOk(b, Side(items, mid, left));
  }

  lemma {:induction false} ConcatDistinct(s: seq<Node>, t: seq<Node>)
    requires DistinctIds(s) && DistinctIds(t) && Ids(s) !! Ids(t)
    ensures DistinctIds(s + t)
  {
    forall i, j | 0 <= i < j < |s + t| ensures (s + t)[i].id != (s + t)[j].id {
      if i < |s| <= j {
        assert s[i].id in Ids(s) && t[j - |s|].id in Ids(t);
      }
    }
  }

  lemma {:induction false} FilledOk(b: Bucket, items: seq<Node>)
    requires FilledWith(b, items) && DistinctIds(items)
    ensures b.Ok()
    ensures forall n :: n in b.Nodes() <==> n in items
  {
    if |items| > b.size {
      assert items == items[..b.size] + items[b.size..];
      forall n, m | n in b.active && m in b.spare ensures n.id != m.id {
        var i :| 0 <= i < b.size && items[i] == n;
        var j :| 0 <= j < |b.spare| && b.spare[j] == m;
        assert items[b.size + j] == m;
      }
    }
  }

  /**
   * A split leaves every node inside its half exactly when the bucket was well placed and did not hold
   * its midpoint.
   */
  lemma {:induction false} SplitPlacedIff(b: Bucket)
    requires b.Ok() && b.lower < b.Mid() < b.upper
    ensures b.Split().0.Placed() && b.Split().1.Placed() <==> b.Placed() && !b.Holds(b.Mid())
  {
    SplitKeeps(b);
    var (l, r) := b.Split();
    if l.Placed() && r.Placed() {
      forall n | n in b.Nodes() ensures b.HasInRange(n.id) && n.id != b.Mid() {
        assert n in l.Nodes() || n in r.Nodes();
      }
    }
    if b.Placed() && !b.Holds(b.Mid()) {
      forall n | n in b.Nodes() ensures n.id != b.Mid() {}
    }
  }
}
