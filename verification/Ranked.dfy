/**
 * Lists kept in ascending order of an integer key. A binary heap is modelled by the ascending list
 * of its contents: pushing inserts, popping takes the head, and the size-limited heap of the
 * nearest nodes is a prefix of such a list.
 */
module Ranked {

  /** Adds one element behind everything that is at most as far. */
  function Insert<T>(key: T -> int, s: seq<T>, x: T): (r: seq<T>)
    ensures |r| == |s| + 1
  {
    if s == [] || key(x) < key(s[0]) then [x] + s
    else [s[0]] + Insert(key, s[1..], x)
  }

  /** Pushes the first `k` elements of a list, front to back, onto the empty heap. */
  function SortFirst<T>(key: T -> int, s: seq<T>, k: nat): (r: seq<T>)
    requires k <= |s|
    ensures |r| == k
  {
    if k == 0 then [] else Insert(key, SortFirst(key, s, k - 1), s[k - 1])
  }

  function SortBy<T>(key: T -> int, s: seq<T>): (r: seq<T>)
    ensures |r| == |s|
  {
    SortFirst(key, s, |s|)
  }

  lemma {:induction false} PushPrefix<T>(key: T -> int, s: seq<T>, t: seq<T>, k: nat)
    requires k <= |s| && s <= t
    ensures SortFirst(key, s, k) == SortFirst(key, t, k)
  {
    if k > 0 { PushPrefix(key, s, t, k - 1); }
  }

  lemma {:induction false} SortPush<T>(key: T -> int, s: seq<T>, x: T)
    ensures SortBy(key, s + [x]) == Insert(key, SortBy(key, s), x)
  {
    PushPrefix(key, s, s + [x], |s|);
  }

  /** The last element is the last one pushed. */
  lemma {:induction false} SortStep<T>(key: T -> int, s: seq<T>)
    requires s != []
    ensures SortBy(key, s) == Insert(key, SortBy(key, s[..|s| - 1]), s[|s| - 1])
  {
    PushPrefix(key, s[..|s| - 1], s, |s| - 1);
  }

  lemma {:induction false} InsertContents<T>(key: T -> int, s: seq<T>, x: T)
    ensures multiset(Insert(key, s, x)) == multiset(s) + multiset{x}
  {
    if s != [] && key(s[0]) <= key(x) {
      InsertContents(key, s[1..], x);
      assert s == [s[0]] + s[1..];
    }
  }

  /** Sorting rearranges. */
  lemma {:induction false} SortContents<T>(key: T -> int, s: seq<T>)
    ensures multiset(SortBy(key, s)) == multiset(s)
  {
    if s != [] {
      var n := |s| - 1;
      SortStep(key, s);
      SortContents(key, s[..n]);
      InsertContents(key, SortBy(key, s[..n]), s[n]);
      assert s == s[..n] + [s[n]];
    }
  }

  function First<T>(k: nat, s: seq<T>): (r: seq<T>)
    ensures |r| == if |s| <= k then |s| else k
  {
    if |s| <= k then s else s[..k]
  }

  ghost predicate Ascending<T(!new)>(key: T -> int, s: seq<T>) {
    forall i, j :: 0 <= i < j < |s| ==> key(s[i]) <= key(s[j])
  }

  /** No two different elements share a key. */
  ghost predicate NoTies<T(!new)>(key: T -> int, s: seq<T>) {
    forall x, y :: x in s && y in s && key(x) == key(y) ==> x == y
  }

  ghost predicate Distinct<T>(s: seq<T>) {
    forall i, j :: 0 <= i < j < |s| ==> s[i] != s[j]
  }

  lemma {:induction false} InsertAscending<T(!new)>(key: T -> int, s: seq<T>, x: T)
    requires Ascending(key, s)
    ensures Ascending(key, Insert(key, s, x))
  {
    if !(s == [] || key(x) < key(s[0])) {
      InsertAscending(key, s[1..], x);
      InsertContents(key, s[1..], x);
      var t := Insert(key, s[1..], x);
      forall y | y in t ensures key(s[0]) <= key(y) {
        assert y in multiset(t);
        assert y in multiset(s[1..]) + multiset{x};
      }
    }
  }

  lemma {:induction false} SortAscending<T(!new)>(key: T -> int, s: seq<T>)
    ensures Ascending(key, SortBy(key, s))
  {
    if s != [] {
      SortStep(key, s);
      SortAscending(key, s[..|s| - 1]);
      InsertAscending(key, SortBy(key, s[..|s| - 1]), s[|s| - 1]);
    }
  }

  /** An ascending arrangement without ties is unique. */
  lemma {:induction false} AscendingUnique<T(!new)>(key: T -> int, s: seq<T>, t: seq<T>)
    requires multiset(s) == multiset(t)
    requires Ascending(key, s) && Ascending(key, t)
    requires NoTies(key, s)
    ensures s == t
  {
    SameLength(s, t);
    if s != [] {
      assert s[0] in multiset(t) && t[0] in multiset(s);
      assert s[0] == t[0];
      TailContents(s);
      TailContents(t);
      AscendingUnique(key, s[1..], t[1..]);
    }
  }

  lemma {:induction false} TailContents<T>(s: seq<T>)
    requires s != []
    ensures multiset(s[1..]) == multiset(s) - multiset{s[0]}
  {
    assert s == [s[0]] + s[1..];
  }

  lemma {:induction false} SameLength<T>(s: seq<T>, t: seq<T>)
    requires multiset(s) == multiset(t)
    ensures |s| == |t|
  {
    assert |multiset(s)| == |s| && |multiset(t)| == |t|;
  }

  /** Sorting depends only on the contents when nothing ties. */
  lemma {:induction false} SortPermutation<T(!new)>(key: T -> int, s: seq<T>, t: seq<T>)
    requires multiset(s) == multiset(t)
    requires NoTies(key, s)
    ensures SortBy(key, s) == SortBy(key, t)
  {
    SortAscending(key, t);
    SortContents(key, t);
    SortedIs(key, s, SortBy(key, t));
  }

  lemma {:induction false} SameMembers<T>(s: seq<T>, t: seq<T>)
    requires multiset(s) == multiset(t)
    ensures forall x :: x in s <==> x in t
  {
    forall x ensures x in s <==> x in t {
      assert x in s <==> x in multiset(s);
      assert x in t <==> x in multiset(t);
    }
  }

  /** The `k` nearest after one more element follow from the `k` nearest before it. */
  lemma {:induction false} FirstInsert<T(!new)>(key: T -> int, k: nat, s: seq<T>, x: T)
    ensures First(k, Insert(key, s, x)) == First(k, Insert(key, First(k, s), x))
  {
    if s == [] || k == 0 {
    } else if key(x) < key(s[0]) {
      assert First(k, [x] + s) == [x] + First(k - 1, s);
      assert First(k, [x] + First(k, s)) == [x] + First(k - 1, s);
    } else {
      var rest := s[1..];
      FirstInsert(key, k - 1, rest, x);
      FirstCons(k, s[0], Insert(key, rest, x));
      FirstCons(k, s[0], Insert(key, First(k - 1, rest), x));
      FirstCons(k, s[0], rest);
      assert s == [s[0]] + rest;
      assert First(k, s)[1..] == First(k - 1, rest);
    }
  }

  lemma {:induction false} FirstCons<T>(k: nat, x: T, s: seq<T>)
    requires k > 0
    ensures First(k, [x] + s) == [x] + First(k - 1, s)
  {
  }

  /** An element at least as far as all `k` nearest does not enter them. */
  lemma {:induction false} FarInsert<T(!new)>(key: T -> int, s: seq<T>, x: T)
    requires forall y :: y in s ==> key(y) <= key(x)
    ensures Insert(key, s, x) == s + [x]
  {
    if s != [] {
      FarInsert(key, s[1..], x);
      assert s == [s[0]] + s[1..];
    }
  }

  /** The nearest `k` of everything pushed so far, one push later. */
  lemma {:induction false} NearestPush<T(!new)>(key: T -> int, k: nat, s: seq<T>, x: T)
    ensures First(k, SortBy(key, s + [x])) == First(k, Insert(key, First(k, SortBy(key, s)), x))
  {
    SortPush(key, s, x);
    FirstInsert(key, k, SortBy(key, s), x);
  }

  /** What `First(k, SortBy(key, s))` means, without reference to any algorithm. */
  ghost predicate KNearest<T(!new)>(key: T -> int, k: nat, s: seq<T>, r: seq<T>) {
    && |r| == (if |s| <= k then |s| else k)
    && multiset(r) <= multiset(s)
    && Ascending(key, r)
    && forall x, y :: x in r && y in multiset(s) - multiset(r) ==> key(x) <= key(y)
  }

  lemma {:induction false} NearestMeaning<T(!new)>(key: T -> int, k: nat, s: seq<T>)
    ensures KNearest(key, k, s, First(k, SortBy(key, s)))
  {
    SortAscending(key, s);
    SortContents(key, s);
    PrefixIsNearest(key, k, SortBy(key, s));
  }

  /** The front of an ascending list is what is nearest in it. */
  lemma {:induction false} PrefixIsNearest<T(!new)>(key: T -> int, k: nat, t: seq<T>)
    requires Ascending(key, t)
    ensures KNearest(key, k, t, First(k, t))
  {
    var r := First(k, t);
    var rest := t[|r|..];
    assert t == r + rest;
    assert multiset(t) - multiset(r) == multiset(rest);
    forall x, y | x in r && y in rest ensures key(x) <= key(y) {
      var i :| 0 <= i < |r| && r[i] == x;
      var j :| 0 <= j < |rest| && rest[j] == y;
      assert t[i] == x && t[|r| + j] == y;
    }
  }

  /** Everything near comes before everything far. */
  lemma {:induction false} SortNearFar<T(!new)>(key: T -> int, near: seq<T>, far: seq<T>)
    requires NoTies(key, near + far)
    requires forall x, y :: x in near && y in far ==> key(x) <= key(y)
    ensures SortBy(key, near + far) == SortBy(key, near) + SortBy(key, far)
  {
    var a, b := SortBy(key, near), SortBy(key, far);
    assert multiset(a + b) == multiset(near + far) by {
      SortContents(key, near);
      SortContents(key, far);
    }
    assert Ascending(key, a + b) by { ConcatAscending(key, near, far); }
    assert SortBy(key, near + far) == a + b by { SortedIs(key, near + far, a + b); }
  }

  lemma {:induction false} ConcatAscending<T(!new)>(key: T -> int, near: seq<T>, far: seq<T>)
    requires forall x, y :: x in near && y in far ==> key(x) <= key(y)
    ensures Ascending(key, SortBy(key, near) + SortBy(key, far))
  {
    var a, b := SortBy(key, near), SortBy(key, far);
    SortAscending(key, near);
    SortAscending(key, far);
    assert forall x :: x in a <==> x in near by { SortContents(key, near); SameMembers(a, near); }
    assert forall x :: x in b <==> x in far by { SortContents(key, far); SameMembers(b, far); }
    forall i, j | 0 <= i < j < |a + b| ensures key((a + b)[i]) <= key((a + b)[j]) {
      if i < |a| <= j { assert a[i] in near && b[j - |a|] in far; }
    }
  }

  /** An ascending arrangement of the contents is the sorted list, when nothing ties. */
  lemma {:induction false} SortedIs<T(!new)>(key: T -> int, s: seq<T>, t: seq<T>)
    requires multiset(s) == multiset(t) && Ascending(key, t) && NoTies(key, s)
    ensures SortBy(key, s) == t
  {
    SortAscending(key, s);
    SortContents(key, s);
    SameMembers(SortBy(key, s), s);
    AscendingUnique(key, SortBy(key, s), t);
  }
}
