/** When the first elements of a part of a sorted list are those of the whole list. */
module Prefixes {
  import opened Ranked
  import opened Counting

  /** Every element is nearer than the ones after it. */
  ghost predicate Rising<T(!new)>(key: T -> int, s: seq<T>) {
    forall i, j :: 0 <= i < j < |s| ==> key(s[i]) < key(s[j])
  }

  ghost predicate PartOf<T(!new)>(part: seq<T>, all: seq<T>) {
    forall x :: x in part ==> x in all
  }

  lemma {:induction false} NearerIsBefore<T(!new)>(key: T -> int, s: seq<T>, i: nat, j: nat)
    requires Rising(key, s) && i < |s| && j < |s| && key(s[i]) < key(s[j])
    ensures i < j
  {
    assert forall m, n :: 0 <= m < n < |s| ==> key(s[m]) < key(s[n]);
  }

  lemma {:induction false} RisingDistinct<T(!new)>(key: T -> int, s: seq<T>, n: nat)
    requires Rising(key, s) && n <= |s|
    ensures |Members(s[..n])| == n
  {
    forall i, j | 0 <= i < j < n ensures s[..n][i] != s[..n][j] { assert key(s[i]) < key(s[j]); }
    DistinctCount(s[..n]);
  }

  lemma {:induction false} Position<T(!new)>(s: seq<T>, x: T) returns (i: nat)
    requires x in s
    ensures i < |s| && s[i] == x
  {
    i :| 0 <= i < |s| && s[i] == x;
  }

  /** An element of a part of a rising list stands no further behind in the part. */
  lemma {:induction false} PartPosition<T(!new)>(key: T -> int, part: seq<T>, all: seq<T>, i: nat, p: nat)
    requires Rising(key, part) && Rising(key, all) && PartOf(part, all)
    requires i < |part| && p < |all| && part[i] == all[p]
    ensures i <= p
  {
    if i > 0 {
      var p' := Position(all, part[i - 1]);
      PartPosition(key, part, all, i - 1, p');
      NearerIsBefore(key, all, p', p);
    }
  }

  lemma {:induction false} PartIsShorter<T(!new)>(key: T -> int, part: seq<T>, all: seq<T>)
    requires Rising(key, part) && Rising(key, all) && PartOf(part, all)
    ensures |part| <= |all|
  {
    if part != [] {
      var i := |part| - 1;
      var p := Position(all, part[i]);
      PartPosition(key, part, all, i, p);
    }
  }

  /** The part has the first `n` elements of the whole. */
  ghost predicate HasFirst<T(!new)>(part: seq<T>, all: seq<T>, n: nat)
    requires n <= |all|
  {
    forall i :: 0 <= i < n ==> all[i] in part
  }

  /** If the part has the first `n` elements of the whole they come first in it too. */
  lemma {:induction false} SamePrefix<T(!new)>(key: T -> int, part: seq<T>, all: seq<T>, n: nat)
    requires Rising(key, part) && Rising(key, all) && PartOf(part, all) && n <= |all| && HasFirst(part, all, n)
    ensures n <= |part| && part[..n] == all[..n]
  {
    if n > 0 {
      var i := n - 1;
      SamePrefix(key, part, all, i);
      var s := Position(part, all[i]);
      PartPosition(key, part, all, s, i);
      assert s >= i by {
        assert forall j :: 0 <= j < i ==> part[j] == part[..i][j] == all[..i][j] == all[j];
        assert forall j :: 0 <= j < i ==> key(all[j]) < key(all[i]);
      }
      assert part[..n] == part[..i] + [part[i]] && all[..n] == all[..i] + [all[i]];
    }
  }

  /** Only one rising list has given members. */
  lemma {:induction false} SameLined<T(!new)>(key: T -> int, s: seq<T>, t: seq<T>)
    requires Rising(key, s) && Rising(key, t) && forall x :: x in s <==> x in t
    ensures s == t
  {
    PartIsShorter(key, s, t);
    PartIsShorter(key, t, s);
    SamePrefix(key, s, t, |t|);
    assert s[..|t|] == s && t[..|t|] == t;
  }

  /** The elements nearer than a given one. */
  ghost function NearerIn<T(!new)>(key: T -> int, s: seq<T>, y: T): (r: set<T>) {
    set x | x in s && key(x) < key(y)
  }

  lemma {:induction false} FewBefore<T(!new)>(key: T -> int, part: seq<T>, all: seq<T>, j: nat)
    requires Rising(key, all) && j < |all| && PartOf(part, all)
    ensures |NearerIn(key, part, all[j])| <= j
  {
    forall x | x in NearerIn(key, part, all[j]) ensures x in Members(all[..j]) {
      var p := Position(all, x);
      NearerIsBefore(key, all, p, j);
      assert all[..j][p] == x;
    }
    SubsetSize(NearerIn(key, part, all[j]), Members(all[..j]));
    RisingDistinct(key, all, j);
  }

  lemma {:induction false} ManyBefore<T(!new)>(key: T -> int, part: seq<T>, all: seq<T>, n: nat, j: nat)
    requires Rising(key, all) && n <= j < |all| && HasFirst(part, all, n)
    ensures |NearerIn(key, part, all[j])| >= n
  {
    forall x | x in Members(all[..n]) ensures x in NearerIn(key, part, all[j]) {
      var p := Position(all[..n], x);
      assert all[p] == x && key(all[p]) < key(all[j]);
    }
    RisingDistinct(key, all, n);
    SubsetSize(Members(all[..n]), NearerIn(key, part, all[j]));
  }

  /** Whatever is not in the part has `k` elements of the part before it. */
  ghost predicate OutsidersLate<T(!new)>(key: T -> int, part: seq<T>, all: seq<T>, k: nat) {
    forall y :: y in all && y !in part ==> |NearerIn(key, part, y)| >= k
  }

  lemma {:induction false} LateIffFirst<T(!new)>(key: T -> int, part: seq<T>, all: seq<T>, k: nat)
    requires Rising(key, part) && Rising(key, all) && PartOf(part, all) && k <= |all|
    ensures OutsidersLate(key, part, all, k) <==> HasFirst(part, all, k)
  {
    if OutsidersLate(key, part, all, k) {
      forall j | 0 <= j < k ensures all[j] in part {
        if all[j] !in part { FewBefore(key, part, all, j); }
      }
    }
    if HasFirst(part, all, k) {
      forall y | y in all && y !in part ensures |NearerIn(key, part, y)| >= k {
        var j := Position(all, y);
        ManyBefore(key, part, all, k, j);
      }
    }
  }

  /** The first `k` of a part of at least that many are those of the whole, exactly if no outsider comes early. */
  lemma {:induction false} PartFirstIff<T(!new)>(key: T -> int, part: seq<T>, all: seq<T>, k: nat)
    requires Rising(key, part) && Rising(key, all) && PartOf(part, all) && |part| >= k
    ensures First(k, part) == First(k, all) <==> OutsidersLate(key, part, all, k)
  {
    PartIsShorter(key, part, all);
    LateIffFirst(key, part, all, k);
    assert First(k, part) == part[..k] && First(k, all) == all[..k];
    if HasFirst(part, all, k) { SamePrefix(key, part, all, k); }
    if part[..k] == all[..k] {
      forall i | 0 <= i < k ensures all[i] in part { assert part[..k][i] == all[..k][i]; }
    }
  }
}
