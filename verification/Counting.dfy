/** Small facts about finite sets and lists without repetitions. */
module Counting {
  import opened Ranked

  function Members<T(==)>(s: seq<T>): (r: set<T>) {
    set n | n in s
  }

  lemma {:induction false} MembersPush<T>(s: seq<T>, x: T)
    ensures Members(s + [x]) == Members(s) + {x}
  {
  }

  lemma {:induction false} DistinctPush<T>(s: seq<T>, x: T)
    requires Distinct(s) && x !in s
    ensures Distinct(s + [x])
  {
  }

  /** The naturals from `lower` up to but not including `upper`. */
  ghost function Interval(lower: nat, upper: nat): (r: set<nat>)
    requires lower <= upper
    ensures |r| == upper - lower
    ensures forall x :: x in r <==> lower <= x < upper
    decreases upper
  {
    if lower == upper then {} else Interval(lower, upper - 1) + {upper - 1}
  }

  lemma {:induction false} SubsetSize<T>(a: set<T>, b: set<T>)
    requires a <= b
    ensures |a| <= |b|
    ensures |a| == |b| ==> a == b
  {
    assert b == a + (b - a);
  }

  lemma {:induction false} DistinctCount<T>(s: seq<T>)
    requires Distinct(s)
    ensures |Members(s)| == |s|
  {
    if s != [] {
      var k := |s| - 1;
      DistinctCount(s[..k]);
      MembersPush(s[..k], s[k]);
      assert s == s[..k] + [s[k]];
      assert s[k] !in Members(s[..k]);
    }
  }

  /** Distinct naturals below `n` are at most `n`. */
  lemma {:induction false} DistinctBounded(s: seq<nat>, n: nat)
    requires Distinct(s) && forall x :: x in s ==> x < n
    ensures |s| <= n
  {
    DistinctCount(s);
    SubsetSize(Members(s), Interval(0, n));
  }

  /** Taking one position out of a list takes one occurrence out of its contents. */
  lemma {:induction false} RemoveAt<T>(s: seq<T>, i: nat)
    requires i < |s|
    ensures multiset(s[..i] + s[i + 1..]) == multiset(s) - multiset{s[i]}
  {
    assert s == s[..i] + [s[i]] + s[i + 1..];
  }

  /** The list starts with `base`, and everything after it is new when it is added. */
  ghost predicate Extends<T>(base: seq<T>, s: seq<T>) {
    base <= s && forall i, j :: |base| <= i < |s| && 0 <= j < i ==> s[j] != s[i]
  }

  lemma {:induction false} ExtendsPush<T>(base: seq<T>, s: seq<T>, x: T)
    requires Extends(base, s) && x !in s
    ensures Extends(base, s + [x])
  {
  }

  /** A list repeats nothing exactly if no element occurs twice. */
  lemma {:induction false} DistinctOnce<T>(s: seq<T>)
    ensures Distinct(s) <==> forall x :: multiset(s)[x] <= 1
  {
    if s != [] {
      var n := |s| - 1;
      DistinctOnce(s[..n]);
      assert s == s[..n] + [s[n]];
      assert multiset(s) == multiset(s[..n]) + multiset{s[n]};
      if Distinct(s) { assert s[n] !in s[..n]; }
      if forall x :: multiset(s)[x] <= 1 {
        forall x ensures multiset(s[..n])[x] <= 1 { assert multiset(s)[x] <= 1; }
        assert multiset(s)[s[n]] <= 1;
        assert s[n] !in multiset(s[..n]);
        DistinctPush(s[..n], s[n]);
      }
    }
  }

  /** What occurs no more often than in a list without repetitions is not repeated either. */
  lemma {:induction false} DistinctPart<T>(s: seq<T>, t: seq<T>)
    requires Distinct(t) && multiset(s) <= multiset(t)
    ensures Distinct(s)
  {
    DistinctOnce(t);
    forall x ensures multiset(s)[x] <= 1 { assert multiset(s)[x] <= multiset(t)[x]; }
    DistinctOnce(s);
  }
}
