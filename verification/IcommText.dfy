/** Bytes on the wire: the check byte, the characters a checked read replaces, and decimal length
    prefixes. */
module IcommText {
  import opened ByteStrings
  import opened Decimals

  const STX: Byte := 2
  const ETX: Byte := 3

  // ----- the check byte -----

  lemma NextWord(v: bv8)
    requires v != 255
    ensures (v + 1) as int == v as int + 1
  {
  }

  lemma SameWord(v: bv8, w: bv8)
    requires v as int == w as int
    ensures v == w
  {
  }

  /** The word with a given value. */
  function Word(b: Byte): (v: bv8)
    ensures v as int == b
  {
    if b == 0 then 0
    else
      assert (255 as bv8) as int == 255;
      NextWord(Word(b - 1));
      Word(b - 1) + 1
  }

  function Bits(b: Byte): bv8 {
    Word(b)
  }

  lemma BitsDiffer(a: Byte, b: Byte)
    ensures Bits(a) == Bits(b) <==> a == b
  {
  }

  function Octet(v: bv8): Byte {
    v as int
  }

  lemma OctetBits(v: bv8)
    ensures Bits(Octet(v)) == v
  {
    SameWord(Bits(Octet(v)), v);
  }

  function Xor(a: bv8, b: bv8): bv8 {
    a ^ b
  }

  lemma XorLaws(a: bv8, b: bv8, c: bv8)
    ensures Xor(Xor(a, b), c) == Xor(a, Xor(b, c))
    ensures Xor(a, b) == Xor(b, a)
    ensures Xor(a, b) == Xor(a, c) <==> b == c
    ensures Xor(a, 0) == a && Xor(0, a) == a
  {
  }

  /** All bytes xor-ed together. */
  function Lrc(s: Text): bv8 {
    if s == [] then 0 else Xor(Lrc(s[..|s| - 1]), Bits(s[|s| - 1]))
  }

  lemma {:induction false} LrcConcat(a: Text, b: Text)
    ensures Lrc(a + b) == Xor(Lrc(a), Lrc(b))
  {
    hide Bits;
    hide Xor;
    if b == [] {
      XorLaws(Lrc(a), 0, 0);
      assert a + b == a;
    } else {
      var c := b[..|b| - 1];
      LrcConcat(a, c);
      assert (a + b)[..|a + b| - 1] == a + c;
      XorLaws(Lrc(a), Lrc(c), Bits(b[|b| - 1]));
    }
  }

  lemma LrcByte(c: Byte)
    ensures Lrc([c]) == Bits(c)
  {
    hide Bits;
    hide Xor;
    XorLaws(Bits(c), 0, 0);
    assert [c][..0] == [];
    assert Lrc([c]) == Xor(Lrc([c][..0]), Bits(c));
  }

  lemma LrcAround(a: Text, c: Byte, b: Text)
    ensures Lrc(a + [c] + b) == Xor(Xor(Lrc(a), Lrc(b)), Bits(c))
  {
    hide Bits;
    hide Xor;
    hide Lrc;
    LrcByte(c);
    LrcConcat(a, [c]);
    LrcConcat(a + [c], b);
    XorLaws(Lrc(a), Bits(c), Lrc(b));
    XorLaws(Lrc(a), Lrc(b), Bits(c));
    XorLaws(Bits(c), Lrc(b), 0);
  }

  /** Changing one byte changes the check byte. */
  lemma LrcChange(s: Text, k: nat, c: Byte)
    requires k < |s|
    ensures Lrc(s[k := c]) == Lrc(s) <==> c == s[k]
  {
    hide Bits;
    hide Xor;
    hide Lrc;
    var a, b := s[..k], s[k + 1..];
    assert s == a + [s[k]] + b;
    assert s[k := c] == a + [c] + b;
    LrcAround(a, s[k], b);
    LrcAround(a, c, b);
    XorLaws(Xor(Lrc(a), Lrc(b)), Bits(c), Bits(s[k]));
    BitsDiffer(c, s[k]);
  }

  // ----- what a checked read replaces -----

  /** Backslash, semicolon, double and single quote. */
  predicate Forbidden(c: Byte) {
    c == 92 || c == 59 || c == 34 || c == 39
  }

  function CleanByte(c: Byte): Byte {
    if Forbidden(c) then SPACE else c
  }

  function Clean(s: Text): (t: Text)
    ensures |t| == |s|
    ensures forall i | 0 <= i < |s| :: t[i] == CleanByte(s[i])
  {
    seq(|s|, i requires 0 <= i < |s| => CleanByte(s[i]))
  }

  // ----- decimal prefixes -----

  /** The %.wd conversion. */
  function Precision(n: nat, w: nat): (d: Text)
    ensures n < TenTo(w) ==> |d| == w
  {
    if n < TenTo(w) then FixedDigits(n, w) else NatDigits(n)
  }

  function DigitRun(s: Text): (d: Text)
    ensures |d| <= |s| && d == s[..|d|]
    ensures forall i | 0 <= i < |d| :: IsDigit(d[i])
    ensures |d| == |s| || !IsDigit(s[|d|])
  {
    if s == [] || !IsDigit(s[0]) then [] else [s[0]] + DigitRun(s[1..])
  }

  function SkipSpaces(s: Text): Text {
    if s == [] || !IsSpace(s[0]) then s else SkipSpaces(s[1..])
  }

  /** What atoi makes of a C string, as long as the value fits an int. */
  function Atoi(text: Text): int {
    var s := SkipSpaces(CString(text));
    if s != [] && s[0] == 45 then -NatValue(DigitRun(s[1..]))
    else if s != [] && s[0] == 43 then NatValue(DigitRun(s[1..]))
    else NatValue(DigitRun(s))
  }

  lemma DigitRunOfDigits(d: Text)
    requires forall i | 0 <= i < |d| :: IsDigit(d[i])
    ensures DigitRun(d) == d
  {
    assert |DigitRun(d)| == |d|;
  }

  lemma AtoiOfDigits(d: Text)
    requires forall i | 0 <= i < |d| :: IsDigit(d[i])
    ensures Atoi(d) == NatValue(d)
  {
    hide CString;
    hide DigitRun;
    hide NatValue;
    CStringId(d);
    DigitRunOfDigits(d);
    assert SkipSpaces(d) == d;
  }

  lemma AtoiOfPrecision(n: nat, w: nat)
    requires n < TenTo(w)
    ensures Atoi(Precision(n, w)) == n
    ensures forall i | 0 <= i < w :: IsDigit(Precision(n, w)[i])
  {
    hide Atoi;
    hide TenTo;
    hide NatValue;
    var d := FixedDigits(n, w);
    AtoiOfDigits(d);
    FixedDigitsValue([], n, w);
    assert [] + d == d;
    assert NatValue([]) == 0 by { EmptyValue(); }
  }

  lemma EmptyValue()
    ensures NatValue([]) == 0
  {
  }
}
