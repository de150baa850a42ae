/** Base58 encoding of byte strings, for any alphabet of distinct non-blank characters. */
module Base58 {
  import opened Basics
  import opened XorMetric

  /** The `i`-th character of the Bitcoin alphabet: digits without 0, letters without I, O and l. */
  function BitcoinChar(i: nat): (c: char)
    requires i < 58
  {
    var code :=
      if i < 9 then '1' as int + i
      else if i < 17 then 'A' as int + (i - 9)
      else if i < 22 then 'J' as int + (i - 17)
      else if i < 33 then 'P' as int + (i - 22)
      else if i < 44 then 'a' as int + (i - 33)
      else 'm' as int + (i - 44);
    code as char
  }

  function BitcoinAlphabet(): (s: string)
    ensures |s| == 58
  {
    seq(58, i requires 0 <= i < 58 => BitcoinChar(i))
  }

  /** Characters that trailing-blank removal takes away. */
  predicate Blank(c: char) {
    c == ' ' || c == '\t' || c == '\n' || c == '\r' || c as int == 11 || c as int == 12
  }

  ghost predicate GoodAlphabet(alphabet: string) {
    && |alphabet| >= 2
    && (forall i, j :: 0 <= i < j < |alphabet| ==> alphabet[i] != alphabet[j])
    && (forall i :: 0 <= i < |alphabet| ==> !Blank(alphabet[i]))
  }

  // ---------------------------------------------------------------- positional notation

  /** Digits of a number, most significant first, without leading zeros; zero has none. */
  function Digits(base: nat, x: nat): (ds: seq<nat>)
    requires base >= 2
    ensures forall i :: 0 <= i < |ds| ==> ds[i] < base
    ensures ds != [] ==> ds[0] != 0
    ensures ds == [] <==> x == 0
    decreases x
  {
    if x == 0 then [] else Digits(base, x / base) + [x % base]
  }

  function Value(base: nat, ds: seq<nat>): (x: nat) {
    if ds == [] then 0 else Value(base, ds[..|ds| - 1]) * base + ds[|ds| - 1]
  }

  lemma {:induction false} ValueOfDigits(base: nat, x: nat)
    requires base >= 2
    ensures Value(base, Digits(base, x)) == x
    decreases x
  {
    if x > 0 {
      Shrinks(x, base);
      var q, r := x / base, x % base;
      ValueOfDigits(base, q);
      ValuePush(base, Digits(base, q), r);
      assert Digits(base, x) == Digits(base, q) + [r];
      assert Value(base, Digits(base, q)) * base + r == x by { Division(x, base); }
    }
  }

  lemma {:induction false} ValuePush(base: nat, ds: seq<nat>, d: nat)
    ensures Value(base, ds + [d]) == Value(base, ds) * base + d
  {
    assert (ds + [d])[..|ds|] == ds;
  }

  lemma {:induction false} Division(x: nat, base: nat)
    requires base > 0
    ensures x / base * base + x % base == x
  {
  }

  lemma {:induction false} DigitsOfValue(base: nat, ds: seq<nat>)
    requires base >= 2 && (forall i :: 0 <= i < |ds| ==> ds[i] < base) && (ds != [] ==> ds[0] != 0)
    ensures Digits(base, Value(base, ds)) == ds
  {
    if ds != [] {
      var n := |ds| - 1;
      DigitsOfValue(base, ds[..n]);
      var y, d := Value(base, ds[..n]), ds[n];
      LastDigit(y, base, d);
      assert ds == ds[..n] + [d];
      if n > 0 { assert y != 0; }
    }
  }

  lemma {:induction false} LastDigit(y: nat, base: nat, d: nat)
    requires d < base
    ensures (y * base + d) / base == y && (y * base + d) % base == d
  {
    assert y * base == base * y;
    QuotientUnique(y * base + d, base, y, d);
  }

  function BitLength(x: nat): (n: nat) {
    if x == 0 then 0 else BitLength(x / 2) + 1
  }

  /** Eight bits make a byte: the length computed from the bit length is the number of base-256 digits. */
  lemma {:induction false} ByteLength(x: nat)
    ensures (BitLength(x) + 7) / 8 == |Digits(256, x)|
    decreases x
  {
    if x >= 256 {
      ByteLength(x / 256);
      EightBits(x);
    } else if x > 0 {
      SmallBits(x);
      assert Digits(256, x / 256) == [];
    }
  }

  lemma {:induction false} SmallBits(x: nat)
    requires 0 < x < 256
    ensures 1 <= BitLength(x) <= 8
  {
    BitsBelow(x, 8);
  }

  lemma {:induction false} BitsBelow(x: nat, k: nat)
    requires x < Pow2(k)
    ensures BitLength(x) <= k
  {
    if x > 0 { BitsBelow(x / 2, k - 1); }
  }

  lemma {:induction false} EightBits(x: nat)
    requires x >= 256
    ensures BitLength(x) == BitLength(x / 256) + 8
  {
    assert x / 2 / 2 / 2 / 2 / 2 / 2 / 2 / 2 == x / 256;
    var a := x / 2; var b := a / 2; var c := b / 2; var d := c / 2;
    var e := d / 2; var f := e / 2; var g := f / 2;
    assert BitLength(x) == BitLength(a) + 1 && BitLength(a) == BitLength(b) + 1 && BitLength(b) == BitLength(c) + 1;
    assert BitLength(c) == BitLength(d) + 1 && BitLength(d) == BitLength(e) + 1 && BitLength(e) == BitLength(f) + 1;
    assert BitLength(f) == BitLength(g) + 1 && BitLength(g) == BitLength(g / 2) + 1;
  }

  // ---------------------------------------------------------------- leading zeros and fixed lengths

  /** How many leading elements equal `x`. */
  function Leading<T(==)>(s: seq<T>, x: T): (n: nat)
    ensures n <= |s|
    ensures forall i :: 0 <= i < n ==> s[i] == x
    ensures n < |s| ==> s[n] != x
  {
    if s == [] || s[0] != x then 0 else 1 + Leading(s[1..], x)
  }

  function Repeat<T>(x: T, n: nat): (s: seq<T>)
    ensures |s| == n && forall i :: 0 <= i < n ==> s[i] == x
  {
    seq(n, _ => x)
  }

  lemma {:induction false} LeadingOf<T>(x: T, n: nat, rest: seq<T>)
    requires rest != [] ==> rest[0] != x
    ensures Leading(Repeat(x, n) + rest, x) == n
  {
    var s := Repeat(x, n) + rest;
    assert forall i :: 0 <= i < n ==> s[i] == x;
    assert rest != [] ==> s[n] == rest[0];
  }

  /** A number as exactly `n` bytes, most significant first. */
  function ToBytes(x: nat, n: nat): (bs: seq<nat>)
    ensures |bs| == n && forall i :: 0 <= i < n ==> bs[i] < 256
  {
    if n == 0 then [] else ToBytes(x / 256, n - 1) + [x % 256]
  }

  lemma {:induction false} ToBytesPads(x: nat, zeros: nat)
    ensures ToBytes(x, zeros + |Digits(256, x)|) == Repeat(0, zeros) + Digits(256, x)
    decreases x, zeros
  {
    if x == 0 {
      if zeros > 0 {
        ToBytesPads(0, zeros - 1);
        assert Repeat(0, zeros) == Repeat(0, zeros - 1) + [0];
        assert Repeat(0, zeros) + [] == Repeat(0, zeros);
        assert Repeat(0, zeros - 1) + [] == Repeat(0, zeros - 1);
      }
    } else {
      ToBytesPads(x / 256, zeros);
    }
  }

  // ---------------------------------------------------------------- encoding and decoding

  function Spell(alphabet: string, ds: seq<nat>): (s: string)
    requires forall i :: 0 <= i < |ds| ==> ds[i] < |alphabet|
    ensures |s| == |ds| && forall i :: 0 <= i < |ds| ==> s[i] == alphabet[ds[i]]
  {
    seq(|ds|, i requires 0 <= i < |ds| => alphabet[ds[i]])
  }

  function EncodeInt(i: nat, defaultOne: bool, alphabet: string): (s: string)
    requires |alphabet| >= 2
  {
    if i == 0 && defaultOne then alphabet[0..1] else Spell(alphabet, Digits(|alphabet|, i))
  }

  function Encode(v: seq<nat>, alphabet: string): (s: string)
    requires |alphabet| >= 2
  {
    var zeros := Leading(v, 0);
    Repeat(alphabet[0], zeros) + EncodeInt(Value(256, v[zeros..]), false, alphabet)
  }

  function StripBlanks(s: string): (r: string)
    ensures r != [] ==> !Blank(r[|r| - 1])
    ensures |r| <= |s| && r == s[..|r|]
    ensures forall i :: |r| <= i < |s| ==> Blank(s[i])
  {
    if s != [] && Blank(s[|s| - 1]) then StripBlanks(s[..|s| - 1]) else s
  }

  /** The position of a character, in the dictionary from characters to positions. */
  function IndexOf(alphabet: string, c: char): (r: Option<nat>)
    ensures r.Some? ==> r.value < |alphabet| && alphabet[r.value] == c
    ensures r.None? ==> c !in alphabet
  {
    if alphabet == [] then None
    else if alphabet[|alphabet| - 1] == c then Some(|alphabet| - 1)
    else
      assert alphabet == alphabet[..|alphabet| - 1] + [alphabet[|alphabet| - 1]];
      IndexOf(alphabet[..|alphabet| - 1], c)
  }

  /** The digits of a string, or nothing when some character is not in the alphabet. */
  function Read(alphabet: string, s: string): (r: Option<seq<nat>>)
    ensures r.Some? ==>
              && |r.value| == |s|
              && forall i :: 0 <= i < |s| ==> r.value[i] < |alphabet| && alphabet[r.value[i]] == s[i]
    ensures r.None? ==> exists i :: 0 <= i < |s| && s[i] !in alphabet
  {
    if s == [] then Some([])
    else
      var n := |s| - 1;
      match Read(alphabet, s[..n])
      case None =>
        assert exists i :: 0 <= i < |s| && s[i] !in alphabet by {
          var i :| 0 <= i < n && s[..n][i] !in alphabet;
          assert s[i] !in alphabet;
        }
        None
      case Some(ds) =>
        match IndexOf(alphabet, s[n])
        case None => None
        case Some(d) => Some(ds + [d])
  }

  function DecodeInt(s: string, alphabet: string): (r: Option<nat>) {
    var v := if ' ' in alphabet then s else StripBlanks(s);
    match Read(alphabet, v)
    case None => None
    case Some(ds) => Some(Value(|alphabet|, ds))
  }

  function Decode(s: string, alphabet: string): (r: Option<seq<nat>>)
    requires |alphabet| >= 2
  {
    var v := StripBlanks(s);
    var zeros := Leading(v, alphabet[0]);
    Assemble(zeros, DecodeInt(v[zeros..], alphabet))
  }

  /** The decoded number as bytes, behind as many zero bytes as there were zero characters. */
  function Assemble(zeros: nat, acc: Option<nat>): (r: Option<seq<nat>>) {
    if acc.None? then None else Some(ToBytes(acc.value, zeros + (BitLength(acc.value) + 7) / 8))
  }

  // ---------------------------------------------------------------- round trips

  lemma {:induction false} IndexUnique(alphabet: string, i: nat)
    requires GoodAlphabet(alphabet) && i < |alphabet|
    ensures IndexOf(alphabet, alphabet[i]) == Some(i)
  {
    assert alphabet[i] in alphabet;
  }

  /** Spelling digits and reading them back. */
  lemma {:induction false} ReadSpelled(alphabet: string, ds: seq<nat>)
    requires GoodAlphabet(alphabet) && forall i :: 0 <= i < |ds| ==> ds[i] < |alphabet|
    ensures Read(alphabet, Spell(alphabet, ds)) == Some(ds)
  {
    if ds != [] {
      var n := |ds| - 1;
      ReadSpelled(alphabet, ds[..n]);
      IndexUnique(alphabet, ds[n]);
      assert Spell(alphabet, ds)[..n] == Spell(alphabet, ds[..n]);
      assert ds == ds[..n] + [ds[n]];
    }
  }

  lemma {:induction false} NothingToStrip(s: string)
    requires s != [] ==> !Blank(s[|s| - 1])
    ensures StripBlanks(s) == s
  {
  }

  lemma {:induction false} SplitLeading<T>(s: seq<T>, x: T)
    ensures s == Repeat(x, Leading(s, x)) + s[Leading(s, x)..]
  {
  }

  /** What decoding makes of leading zero characters followed by a number without leading zeros. */
  lemma {:induction false} DecodeParts(zeros: nat, ds: seq<nat>, alphabet: string)
    requires GoodAlphabet(alphabet) && (forall i :: 0 <= i < |ds| ==> ds[i] < |alphabet|) && (ds != [] ==> ds[0] != 0)
    ensures Decode(Repeat(alphabet[0], zeros) + Spell(alphabet, ds), alphabet)
         == Some(Repeat(0, zeros) + Digits(256, Value(|alphabet|, ds)))
  {
    var word, acc := Spell(alphabet, ds), Value(|alphabet|, ds);
    var s := Repeat(alphabet[0], zeros) + word;
    LastNotBlank(zeros, ds, alphabet);
    NothingToStrip(s);
    LeadingOf(alphabet[0], zeros, word);
    assert s[zeros..] == word;
    DecodeIntSpelled(ds, alphabet);
    assert Decode(s, alphabet) == Assemble(zeros, Some(acc));
    AssembleParts(acc, zeros);
  }

  lemma {:induction false} AssembleParts(x: nat, zeros: nat)
    ensures Assemble(zeros, Some(x)) == Some(Repeat(0, zeros) + Digits(256, x))
  {
    ByteLength(x);
    ToBytesPads(x, zeros);
  }

  lemma {:induction false} LastNotBlank(zeros: nat, ds: seq<nat>, alphabet: string)
    requires GoodAlphabet(alphabet) && forall i :: 0 <= i < |ds| ==> ds[i] < |alphabet|
    ensures var s := Repeat(alphabet[0], zeros) + Spell(alphabet, ds); s != [] ==> !Blank(s[|s| - 1])
  {
  }

  lemma {:induction false} DecodeIntSpelled(ds: seq<nat>, alphabet: string)
    requires GoodAlphabet(alphabet) && forall i :: 0 <= i < |ds| ==> ds[i] < |alphabet|
    ensures DecodeInt(Spell(alphabet, ds), alphabet) == Some(Value(|alphabet|, ds))
  {
    NothingToStrip(Spell(alphabet, ds));
    ReadSpelled(alphabet, ds);
  }

  /** What encoding makes of leading zero bytes followed by a number without leading zeros. */
  lemma {:induction false} EncodeParts(zeros: nat, rest: seq<nat>, alphabet: string)
    requires |alphabet| >= 2 && (rest != [] ==> rest[0] != 0)
    ensures Encode(Repeat(0, zeros) + rest, alphabet)
         == Repeat(alphabet[0], zeros) + Spell(alphabet, Digits(|alphabet|, Value(256, rest)))
  {
    var v := Repeat(0, zeros) + rest;
    LeadingOf(0, zeros, rest);
    assert v[zeros..] == rest;
  }

  lemma {:induction false} RoundTripParts(zeros: nat, rest: seq<nat>, alphabet: string)
    requires GoodAlphabet(alphabet) && (forall i :: 0 <= i < |rest| ==> rest[i] < 256) && (rest != [] ==> rest[0] != 0)
    ensures Decode(Encode(Repeat(0, zeros) + rest, alphabet), alphabet) == Some(Repeat(0, zeros) + rest)
  {
    var acc := Value(256, rest);
    EncodeParts(zeros, rest, alphabet);
    DecodeParts(zeros, Digits(|alphabet|, acc), alphabet);
    ValueOfDigits(|alphabet|, acc);
    DigitsOfValue(256, rest);
  }

  /** Decoding an encoded byte string gives it back, leading zero bytes included. */
  lemma {:induction false} DecodeEncode(v: seq<nat>, alphabet: string)
    requires GoodAlphabet(alphabet) && forall i :: 0 <= i < |v| ==> v[i] < 256
    ensures Decode(Encode(v, alphabet), alphabet) == Some(v)
  {
    var zeros := Leading(v, 0);
    SplitLeading(v, 0);
    RoundTripParts(zeros, v[zeros..], alphabet);
  }

  /** Encoding a decoded string gives it back, for every string over the alphabet. */
  lemma {:induction false} EncodeDecode(s: string, alphabet: string)
    requires GoodAlphabet(alphabet) && forall i :: 0 <= i < |s| ==> s[i] in alphabet
    ensures Decode(s, alphabet).Some? && Encode(Decode(s, alphabet).value, alphabet) == s
  {
    var zeros := Leading(s, alphabet[0]);
    var rest := s[zeros..];
    SplitLeading(s, alphabet[0]);
    var ds := SpelledBy(rest, alphabet);
    assert rest != [] ==> rest[0] != alphabet[0];
    DecodeParts(zeros, ds, alphabet);
    EncodeParts(zeros, Digits(256, Value(|alphabet|, ds)), alphabet);
    ValueOfDigits(256, Value(|alphabet|, ds));
    DigitsOfValue(|alphabet|, ds);
  }

  /** Every string over the alphabet is the spelling of some digits. */
  lemma {:induction false} SpelledBy(s: string, alphabet: string) returns (ds: seq<nat>)
    requires forall i :: 0 <= i < |s| ==> s[i] in alphabet
    ensures (forall i :: 0 <= i < |ds| ==> ds[i] < |alphabet|) && Spell(alphabet, ds) == s
  {
    UnreadableIff(alphabet, s);
    ds := Read(alphabet, s).value;
  }

  /** Reading fails exactly when some character is not in the alphabet. */
  lemma {:induction false} UnreadableIff(alphabet: string, s: string)
    ensures Read(alphabet, s).None? <==> exists i :: 0 <= i < |s| && s[i] !in alphabet
  {
  }

  /** A string with a character outside the alphabet, other than trailing blanks, is refused. */
  lemma {:induction false} DecodeRefuses(s: string, alphabet: string, i: nat)
    requires GoodAlphabet(alphabet) && i < |StripBlanks(s)| && s[i] !in alphabet
    ensures Decode(s, alphabet) == None
  {
    var v := StripBlanks(s);
    var zeros := Leading(v, alphabet[0]);
    assert v[i] == s[i] && alphabet[0] in alphabet;
    assert i >= zeros;
    var rest := v[zeros..];
    assert rest[i - zeros] == s[i];
    NothingToStrip(rest);
    UnreadableIff(alphabet, rest);
  }

  // ---------------------------------------------------------------- the loops

  method B58EncodeInt(i: nat, defaultOne: bool, alphabet: string) returns (result: string)
    requires |alphabet| >= 2
    ensures result == EncodeInt(i, defaultOne, alphabet)
  {
    if i == 0 && defaultOne { return alphabet[0..1]; }
    result := "";
    var rest: nat := i;
    while rest != 0
      invariant Spell(alphabet, Digits(|alphabet|, rest)) + result == Spell(alphabet, Digits(|alphabet|, i))
      decreases rest
    {
      SpellStep(alphabet, rest);
      Shrinks(rest, |alphabet|);
      var idx := rest % |alphabet|;
      rest := rest / |alphabet|;
      result := alphabet[idx..idx + 1] + result;
    }
  }

  lemma {:induction false} Shrinks(x: nat, base: nat)
    requires x > 0 && base >= 2
    ensures 0 <= x / base < x
  {
    Division(x, base);
  }

  lemma {:induction false} SpellStep(alphabet: string, x: nat)
    requires |alphabet| >= 2 && x > 0
    ensures var b := |alphabet|;
            Spell(alphabet, Digits(b, x)) == Spell(alphabet, Digits(b, x / b)) + alphabet[x % b..x % b + 1]
  {
    assert Digits(|alphabet|, x) == Digits(|alphabet|, x / |alphabet|) + [x % |alphabet|];
  }

  method B58Encode(v: seq<nat>, alphabet: string) returns (result: string)
    requires |alphabet| >= 2
    ensures result == Encode(v, alphabet)
  {
    var zeros := Leading(v, 0);
    var acc := Value(256, v[zeros..]);
    var word := B58EncodeInt(acc, false, alphabet);
    result := Repeat(alphabet[0], zeros) + word;
  }

  method B58DecodeInt(s: string, alphabet: string) returns (result: Option<nat>)
    ensures result == DecodeInt(s, alphabet)
  {
    var v := if ' ' in alphabet then s else StripBlanks(s);
    var decimal := 0;
    ghost var ds: seq<nat> := [];
    for i := 0 to |v|
      invariant Read(alphabet, v[..i]) == Some(ds) && decimal == Value(|alphabet|, ds)
    {
      ReadNext(alphabet, v, i, ds);
      var index := IndexOf(alphabet, v[i]);
      if index.None? { return None; }
      ValuePush(|alphabet|, ds, index.value);
      ds := ds + [index.value];
      decimal := decimal * |alphabet| + index.value;
    }
    assert v[..|v|] == v;
    return Some(decimal);
  }

  /** One more character: one more digit, or the end of the whole reading. */
  lemma {:induction false} ReadNext(alphabet: string, v: string, i: nat, ds: seq<nat>)
    requires i < |v| && Read(alphabet, v[..i]) == Some(ds)
    ensures match IndexOf(alphabet, v[i])
            case Some(d) => Read(alphabet, v[..i + 1]) == Some(ds + [d])
            case None => Read(alphabet, v).None?
  {
    assert v[..i + 1][..i] == v[..i];
    if IndexOf(alphabet, v[i]).None? { ReadPrefix(alphabet, v, i + 1); }
  }

  lemma {:induction false} ReadPrefix(alphabet: string, s: string, k: nat)
    requires k <= |s| && Read(alphabet, s[..k]).None?
    ensures Read(alphabet, s).None?
  {
    UnreadableIff(alphabet, s[..k]);
    UnreadableIff(alphabet, s);
    var i :| 0 <= i < k && s[..k][i] !in alphabet;
    assert s[i] !in alphabet;
  }

  method B58Decode(s: string, alphabet: string) returns (result: Option<seq<nat>>)
    requires |alphabet| >= 2
    ensures result == Decode(s, alphabet)
  {
    var v := StripBlanks(s);
    var zeros := Leading(v, alphabet[0]);
    var acc := B58DecodeInt(v[zeros..], alphabet);
    return Assemble(zeros, acc);
  }

  // ---------------------------------------------------------------- the alphabet in use

  lemma {:induction false} BitcoinAlphabetIsGood()
    ensures GoodAlphabet(BitcoinAlphabet())
  {
    var a := BitcoinAlphabet();
    forall i, j | 0 <= i < j < |a| ensures a[i] != a[j] { assert BitcoinChar(i) < BitcoinChar(j); }
    forall i | 0 <= i < |a| ensures !Blank(a[i]) { assert BitcoinChar(i) >= '1'; }
  }
}
