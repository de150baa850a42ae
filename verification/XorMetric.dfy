/** Identifiers of the DHT are naturals below `Pow2(w)`, compared by bitwise exclusive or. */
module XorMetric {

  function Pow2(n: nat): (r: nat)
    ensures r > 0
  {
    if n == 0 then 1 else 2 * Pow2(n - 1)
  }

  /** Bitwise exclusive or, one binary digit at a time. */
  function Xor(a: nat, b: nat): (d: nat)
    decreases a + b
  {
    if a == 0 && b == 0 then 0
    else 2 * Xor(a / 2, b / 2) + (if a % 2 == b % 2 then 0 else 1)
  }

  /** Distance to a fixed query, as a sorting key. */
  function Dist(q: nat): nat -> int {
    (n: nat) => Xor(q, n)
  }

  /** Two ids at the same distance from a query are the same id: distances never tie. */
  lemma {:induction false} XorInjective(q: nat, a: nat, b: nat)
    ensures Xor(q, a) == Xor(q, b) <==> a == b
    decreases q + a + b
  {
    if (q != 0 || a != 0) && (q != 0 || b != 0) {
      XorInjective(q / 2, a / 2, b / 2);
    } else if q == 0 && a == 0 && b != 0 {
      XorPositive(q, b);
    } else if q == 0 && b == 0 && a != 0 {
      XorPositive(q, a);
    }
  }

  lemma {:induction false} XorPositive(a: nat, b: nat)
    ensures Xor(a, b) == 0 <==> a == b
    decreases a + b
  {
    if a != 0 || b != 0 { XorPositive(a / 2, b / 2); }
  }

  lemma {:induction false} DivTwice(a: nat, p: nat)
    requires p > 0
    ensures a / (2 * p) == (a / 2) / p
  {
    var k, r := a / (2 * p), a % (2 * p);
    assert a == 2 * p * k + r;
    assert 2 * p * k == 2 * (p * k);
    assert a / 2 == p * k + r / 2;
    assert r / 2 < p;
    QuotientUnique(a / 2, p, k, r / 2);
  }

  lemma {:induction false} QuotientUnique(x: nat, p: nat, k: nat, r: nat)
    requires 0 <= r < p && x == p * k + r
    ensures x / p == k && x % p == r
  {
    MultipleGap(p, k, x / p);
  }

  /** Distinct multiples of `p` are at least `p` apart. */
  lemma {:induction false} MultipleGap(p: nat, k: nat, k': nat)
    ensures k < k' ==> p * k + p <= p * k'
    ensures k' < k ==> p * k' + p <= p * k
  {
    if k < k' { assert p * k' == p * k + p * (k' - k); MulGe(p, k' - k); }
    if k' < k { assert p * k == p * k' + p * (k - k'); MulGe(p, k - k'); }
  }

  lemma {:induction false} MulGe(p: nat, k: nat)
    requires k >= 1
    ensures p * k >= p
  {
    assert p * k == p + p * (k - 1);
  }

  /** The id without its `h` low binary digits. */
  function Shift(a: nat, h: nat): (r: nat)
    decreases h
  {
    if h == 0 then a else Shift(a / 2, h - 1)
  }

  lemma {:induction false} ShiftDivides(a: nat, h: nat)
    ensures Shift(a, h) == a / Pow2(h)
    decreases h
  {
    if h > 0 {
      ShiftDivides(a / 2, h - 1);
      DivTwice(a, Pow2(h - 1));
    }
  }

  /** Dropping low digits commutes with exclusive or. */
  lemma {:induction false} XorShift(a: nat, b: nat, h: nat)
    ensures Shift(Xor(a, b), h) == Xor(Shift(a, h), Shift(b, h))
    decreases h
  {
    if h > 0 {
      XorShift(a / 2, b / 2, h - 1);
      assert Xor(a, b) / 2 == Xor(a / 2, b / 2);
    }
  }

  /** Ids share an aligned block of `Pow2(h)` ids exactly when they are less than `Pow2(h)` apart. */
  lemma {:induction false} XorBlock(a: nat, b: nat, h: nat)
    ensures Xor(a, b) < Pow2(h) <==> a / Pow2(h) == b / Pow2(h)
  {
    XorShift(a, b, h);
    XorPositive(Shift(a, h), Shift(b, h));
    ShiftDivides(a, h);
    ShiftDivides(b, h);
    ShiftDivides(Xor(a, b), h);
    SmallQuotient(Xor(a, b), Pow2(h));
  }

  lemma {:induction false} SmallQuotient(d: nat, p: nat)
    requires p > 0
    ensures d < p <==> d / p == 0
  {
    if d < p { QuotientUnique(d, p, 0, d); }
    assert d == p * (d / p) + d % p;
  }

  /** The `h` low binary digits are all zero. */
  predicate Aligned(x: nat, h: nat)
    decreases h
  {
    h == 0 || (x % 2 == 0 && Aligned(x / 2, h - 1))
  }

  lemma {:induction false} ZeroAligned(h: nat)
    ensures Aligned(0, h)
  {
    if h > 0 { ZeroAligned(h - 1); }
  }

  lemma {:induction false} Pow2Grows(g: nat, h: nat)
    requires g <= h
    ensures Pow2(g) <= Pow2(h)
    decreases h
  {
    if g < h { Pow2Grows(g, h - 1); }
  }

  /** Both halves of an aligned block are aligned. */
  lemma {:induction false} AlignedHalves(x: nat, h: nat)
    requires h > 0 && Aligned(x, h)
    ensures Aligned(x, h - 1) && Aligned(x + Pow2(h - 1), h - 1)
    decreases h
  {
    if h > 1 {
      AlignedHalves(x / 2, h - 1);
      assert (x + Pow2(h - 1)) / 2 == x / 2 + Pow2(h - 2);
    }
  }

  lemma {:induction false} Doubled(a: nat, b: nat)
    ensures 2 * (a * b) == (2 * a) * b
  {
  }

  lemma {:induction false} AlignedMultiple(x: nat, h: nat)
    requires Aligned(x, h)
    ensures x == Pow2(h) * Shift(x, h)
    decreases h
  {
    if h > 0 {
      AlignedMultiple(x / 2, h - 1);
      Doubled(Pow2(h - 1), Shift(x / 2, h - 1));
    }
  }
}
