/** Numbers of the JSON text and the loops that convert them, over exact reals. */
module JsonNumber {
  import opened ByteStrings
  import opened Decimals
  import opened JsonText

  const UINT32: nat := 0x1_0000_0000

  // ----- powers and digits -----

  ghost function Pow(b: real, n: nat): real {
    if n == 0 then 1.0 else b * Pow(b, n - 1)
  }

  /** Where the run of digits that starts at offset a ends. */
  function DigitsEnd(u: Text, a: nat): (w: nat)
    requires a <= |u|
    ensures a <= w <= |u|
    decreases |u| - a
  {
    if a < |u| && IsDigit(u[a]) then DigitsEnd(u, a + 1) else a
  }

  lemma {:induction false} PowPositive(b: real, n: nat)
    requires b > 0.0
    ensures Pow(b, n) > 0.0
  {
    if n > 0 { PowPositive(b, n - 1); }
  }

  lemma {:induction false} PowGrows(n: nat, m: nat)
    requires n < m
    ensures Pow(10.0, n) < Pow(10.0, m)
    ensures Pow(0.1, m) < Pow(0.1, n)
  {
    PowPositive(10.0, m - 1);
    PowPositive(0.1, m - 1);
    if n < m - 1 { PowGrows(n, m - 1); }
  }

  /** m / 10^k. */
  ghost function Scaled(m: int, k: nat): real {
    if k == 0 then m as real else Scaled(m, k - 1) * 0.1
  }

  lemma {:induction false} ScaledSum(a: int, b: int, k: nat)
    ensures Scaled(a + b, k) == Scaled(a, k) + Scaled(b, k)
  {
    if k > 0 { ScaledSum(a, b, k - 1); }
  }

  lemma {:induction false} ScaledShift(m: int, k: nat)
    ensures Scaled(m * 10, k + 1) == Scaled(m, k)
  {
    if k > 0 { ScaledShift(m, k - 1); }
  }

  lemma {:induction false} ScaledProduct(m: int, k: nat)
    ensures m as real * Pow(0.1, k) == Scaled(m, k)
  {
    if k > 0 {
      ScaledProduct(m, k - 1);
      Reassociate(m as real, Pow(0.1, k - 1), 0.1);
    }
  }

  lemma Reassociate(x: real, y: real, z: real)
    ensures x * (z * y) == (x * y) * z
  {
  }

  lemma {:induction false} ScaledZero(m: int, k: nat)
    ensures Scaled(m, k) == 0.0 <==> m == 0
  {
    if k > 0 { ScaledZero(m, k - 1); }
  }

  lemma {:induction false} PowSquare(b: real, n: nat)
    ensures Pow(b * b, n) == Pow(b, 2 * n)
  {
    if n > 0 {
      PowSquare(b, n - 1);
      assert Pow(b, 2 * n) == b * (b * Pow(b, 2 * n - 2));
      assert b * (b * Pow(b, 2 * n - 2)) == (b * b) * Pow(b, 2 * n - 2);
    }
  }

  // ----- numerals -----

  /** A number as written: sign, digits before and after the point, exponent sign and digits. */
  datatype Numeral = Numeral(negative: bool, whole: Text, frac: Text,
                             expNegative: bool, exponent: Text, len: nat)

  function SignEnd(u: Text): (a: nat)
    ensures a <= |u|
  {
    if Peek(u, 0) == MINUS then 1 else 0
  }

  function FractionStart(u: Text, w: nat): (f: nat)
    requires w <= |u|
    ensures w <= f <= |u|
  {
    if Peek(u, w) == DOT then w + 1 else w
  }

  function FractionEnd(u: Text, w: nat): (f: nat)
    requires w <= |u|
    ensures FractionStart(u, w) <= f <= |u|
  {
    if Peek(u, w) == DOT then DigitsEnd(u, w + 1) else w
  }

  /** Where the exponent digits start, f being the end of the mantissa. */
  function ExponentStart(u: Text, f: nat): (x: nat)
    requires f <= |u|
    ensures f <= x <= |u|
  {
    if IsExponentMark(Peek(u, f)) then f + 1 + SignWidth(Peek(u, f + 1)) else f
  }

  function ExponentEnd(u: Text, f: nat): (e: nat)
    requires f <= |u|
    ensures ExponentStart(u, f) <= e <= |u|
  {
    if IsExponentMark(Peek(u, f)) then DigitsEnd(u, ExponentStart(u, f)) else f
  }

  /** The longest numeral at the head of u. Nothing but the digits after the sign is demanded
      by the scanner, so "1.", "1e" and "-." are numerals too. */
  function SplitNumeral(u: Text): (n: Numeral)
    ensures n.len <= |u|
  {
    var w := WholeEnd(u);
    var f := MantissaEnd(u);
    var e := ExponentEnd(u, f);
    Numeral(Peek(u, 0) == MINUS, u[SignEnd(u)..w], u[FractionStart(u, w)..f],
            IsExponentMark(Peek(u, f)) && Peek(u, f + 1) == MINUS, u[ExponentStart(u, f)..e], e)
  }

  /** A sign or a digit starts a numeral of at least one character. */
  lemma NumeralLength(u: Text)
    requires u != [] && (IsDigit(u[0]) || u[0] == MINUS)
    ensures SplitNumeral(u).len > 0
  {
    assert WholeEnd(u) > 0;
  }

  function WholeEnd(u: Text): (w: nat)
    ensures SignEnd(u) <= w <= |u|
  {
    DigitsEnd(u, SignEnd(u))
  }

  function MantissaEnd(u: Text): (f: nat)
    ensures FractionStart(u, WholeEnd(u)) <= f <= |u|
  {
    FractionEnd(u, WholeEnd(u))
  }

  predicate IsExponentMark(c: Byte) {
    c == 101 || c == 69
  }

  function SignWidth(c: Byte): nat {
    if c == PLUS || c == MINUS then 1 else 0
  }

  ghost function Mantissa(n: Numeral): real {
    Scaled(NatValue(n.whole + n.frac), |n.frac|)
  }

  ghost function Base(expNegative: bool): real {
    if expNegative then 0.1 else 10.0
  }

  ghost function Product(x: real, y: real): real {
    x * y
  }

  ghost function Signed(negative: bool, x: real): real {
    if negative then -x else x
  }

  /** The number the numeral stands for in section 6 of RFC 8259. */
  ghost function DecimalValue(n: Numeral): real {
    Signed(n.negative, Product(Mantissa(n), Pow(Base(n.expNegative), Magnitude(n))))
  }

  ghost function Magnitude(n: Numeral): nat {
    if NatValue(n.exponent) < 0 then 0 else NatValue(n.exponent)
  }

  /** What the converter computes: its exponent is an unsigned 32-bit integer. */
  ghost function ConvertedValue(n: Numeral): real {
    Signed(n.negative, Product(Mantissa(n), Pow(Base(n.expNegative), Magnitude(n) % UINT32)))
  }

  /** The conversion is exact if and only if the digits are all zero or the written exponent
      fits the converter's counter. */
  lemma ConversionExactIff(n: Numeral)
    ensures ConvertedValue(n) == DecimalValue(n)
       <==> NatValue(n.whole + n.frac) == 0 || Magnitude(n) < UINT32
  {
    var e, b := Magnitude(n), Base(n.expNegative);
    ScaledZero(NatValue(n.whole + n.frac), |n.frac|);
    if e >= UINT32 {
      PowGrows(e % UINT32, e);
      ProductsDiffer(Mantissa(n), Pow(b, e % UINT32), Pow(b, e));
    } else {
      assert e % UINT32 == e;
    }
  }

  lemma ProductsDiffer(a: real, p: real, q: real)
    requires p != q
    ensures Product(a, p) == Product(a, q) <==> a == 0.0
  {
    assert a * p - a * q == a * (p - q);
  }

  lemma NatValueOfTwo32()
    ensures NatValue([52, 50, 57, 52, 57, 54, 55, 50, 57, 54]) == UINT32
  {
    var d3: Text := [52, 50, 57];
    assert NatValue(d3) == 429 by {
      NatValueSnoc([], 52);
      NatValueSnoc([52], 50);
      NatValueSnoc([52, 50], 57);
    }
    NatValueSnoc(d3, 52);
    NatValueSnoc(d3 + [52], 57);
    NatValueSnoc(d3 + [52] + [57], 54);
    var d6 := d3 + [52] + [57] + [54];
    NatValueSnoc(d6, 55);
    NatValueSnoc(d6 + [55], 50);
    NatValueSnoc(d6 + [55] + [50], 57);
    NatValueSnoc(d6 + [55] + [50] + [57], 54);
    assert d6 + [55] + [50] + [57] + [54] == [52, 50, 57, 52, 57, 54, 55, 50, 57, 54];
  }

  /** A numeral that the converter gets wrong: 1e4294967296 becomes 1. */
  lemma ExponentWraps(n: Numeral)
    requires n == Numeral(false, [49], [], false, [52, 50, 57, 52, 57, 54, 55, 50, 57, 54], 12)
    ensures ConvertedValue(n) == 1.0 && DecimalValue(n) > 1.0
  {
    NatValueOfTwo32();
    assert [49] + n.frac == [49];
    assert NatValue([49]) == 1;
    PowGrows(0, UINT32);
  }

  // ----- the converter -----

  lemma ExponentStep(e: int, d: int)
    requires e >= 0 && d >= 0
    ensures ((e % UINT32) * 10 + d) % UINT32 == (e * 10 + d) % UINT32
  {
    var q := e / UINT32;
    assert e == q * UINT32 + e % UINT32;
    assert e * 10 + d == (q * 10) * UINT32 + ((e % UINT32) * 10 + d);
    ModShift((e % UINT32) * 10 + d, q * 10);
  }

  lemma ModShift(x: int, k: int)
    requires x >= 0 && k >= 0
    ensures (k * UINT32 + x) % UINT32 == x % UINT32
  {
  }

  /** One turn of the squaring loop keeps power * base^exponent. */
  lemma SquareStep(power: real, base: real, exponent: nat)
    requires exponent > 0
    ensures (if exponent % 2 == 1 then power * base else power) * Pow(base * base, exponent / 2)
            == power * Pow(base, exponent)
  {
    PowSquare(base, exponent / 2);
    if exponent % 2 == 1 {
      assert Pow(base, exponent) == base * Pow(base, 2 * (exponent / 2));
      assert (power * base) * Pow(base, 2 * (exponent / 2)) == power * (base * Pow(base, 2 * (exponent / 2)));
    }
  }

  /** Repeated squaring. */
  method PowerOf(base0: real, exponent0: nat) returns (power: real)
    ensures power == Pow(base0, exponent0)
  {
    power := 1.0;
    var exponent, base := exponent0, base0;
    while exponent != 0
      invariant power * Pow(base, exponent) == Pow(base0, exponent0)
    {
      SquareStep(power, base, exponent);
      if exponent % 2 == 1 {
        power := power * base;
      }
      exponent, base := exponent / 2, base * base;
    }
  }

  /** From offset `at` the buffer holds the text u and its terminating NUL. */
  ghost predicate Holds(buf: array<Byte>, at: nat, u: Text)
    reads buf
  {
    at + |u| < buf.Length && forall j :: at <= j <= at + |u| ==> buf[j] == Peek(u, j - at)
  }

  lemma NextDigit(u: Text, a: nat, i: nat)
    requires a <= i < |u|
    ensures NatValue(u[a..i + 1]) == NatValue(u[a..i]) * 10 + (u[i] as int - 48)
  {
    NatValueSnoc(u[a..i], u[i]);
    assert u[a..i + 1] == u[a..i] + [u[i]];
  }

  method WholePart(buf: array<Byte>, at: nat, ghost u: Text, a: nat) returns (result: real, i: nat)
    requires Holds(buf, at, u) && a <= |u|
    ensures i == DigitsEnd(u, a)
    ensures result == NatValue(u[a..i]) as real
  {
    result, i := 0.0, a;
    while IsDigit(buf[at + i])
      invariant a <= i <= |u| && DigitsEnd(u, i) == DigitsEnd(u, a)
      invariant result == NatValue(u[a..i]) as real
      decreases |u| - i
    {
      NextDigit(u, a, i);
      result := result * 10.0 + (buf[at + i] as int - 48) as real;
      i := i + 1;
    }
  }

  method FractionDigit(r: real, f: real, digit: int, ghost m: int, ghost k: nat) returns (result: real, fraction: real)
    requires r == Scaled(m, k) && f == Pow(0.1, k)
    ensures result == Scaled(m * 10 + digit, k + 1) && fraction == Pow(0.1, k + 1)
  {
    fraction := f * 0.1;
    ScaledShift(m, k);
    ScaledSum(m * 10, digit, k + 1);
    ScaledProduct(digit, k + 1);
    result := r + digit as real * fraction;
  }

  lemma OneMore(whole: Text, u: Text, a: nat, i: nat)
    requires a <= i < |u|
    ensures whole + u[a..i + 1] == (whole + u[a..i]) + [u[i]]
  {
    assert u[a..i + 1] == u[a..i] + [u[i]];
  }

  lemma NoDigitsYet(whole: Text)
    ensures Scaled(NatValue(whole), 0) == NatValue(whole) as real && Pow(0.1, 0) == 1.0
  {
  }

  method FractionPart(buf: array<Byte>, at: nat, ghost u: Text, a: nat, ghost whole: Text, r0: real)
    returns (result: real, i: nat)
    requires Holds(buf, at, u) && a <= |u|
    requires r0 == NatValue(whole) as real
    ensures i == DigitsEnd(u, a)
    ensures result == Scaled(NatValue(whole + u[a..i]), i - a)
  {
    hide Scaled;
    hide NatValue;
    hide Pow;
    result, i := r0, a;
    var fraction := 1.0;
    assert whole + u[a..a] == whole;
    NoDigitsYet(whole);
    while IsDigit(buf[at + i])
      invariant a <= i <= |u| && DigitsEnd(u, i) == DigitsEnd(u, a)
      invariant fraction == Pow(0.1, i - a)
      invariant result == Scaled(NatValue(whole + u[a..i]), i - a)
      decreases |u| - i
    {
      ghost var seen := whole + u[a..i];
      NatValueSnoc(seen, u[i]);
      OneMore(whole, u, a, i);
      result, fraction := FractionDigit(result, fraction, buf[at + i] as int - 48, NatValue(seen), i - a);
      i := i + 1;
    }
  }

  method ExponentPart(buf: array<Byte>, at: nat, ghost u: Text, a: nat) returns (exponent: nat, i: nat)
    requires Holds(buf, at, u) && a <= |u|
    ensures i == DigitsEnd(u, a)
    ensures NatValue(u[a..i]) >= 0 && exponent == NatValue(u[a..i]) % UINT32
  {
    exponent, i := 0, a;
    while IsDigit(buf[at + i])
      invariant a <= i <= |u| && DigitsEnd(u, i) == DigitsEnd(u, a)
      invariant NatValue(u[a..i]) >= 0 && exponent == NatValue(u[a..i]) % UINT32
      decreases |u| - i
    {
      NextDigit(u, a, i);
      ExponentStep(NatValue(u[a..i]), u[i] as int - 48);
      exponent := (exponent * 10 + (buf[at + i] as int - 48)) % UINT32;
      i := i + 1;
    }
  }

  ghost function MantissaDigits(u: Text): Text {
    u[SignEnd(u)..WholeEnd(u)] + u[FractionStart(u, WholeEnd(u))..MantissaEnd(u)]
  }

  /** Digits before and after the point. */
  method MantissaPart(buf: array<Byte>, at: nat, ghost u: Text) returns (result: real, i: nat)
    requires Holds(buf, at, u)
    ensures i == MantissaEnd(u)
    ensures result == Scaled(NatValue(MantissaDigits(u)), i - FractionStart(u, WholeEnd(u)))
  {
    i := if buf[at] == MINUS then 1 else 0;
    ghost var a := i;
    result, i := WholePart(buf, at, u, i);
    if buf[at + i] == DOT {
      result, i := FractionPart(buf, at, u, i + 1, u[a..i], result);
    } else {
      assert u[a..i] + u[i..i] == u[a..i];
    }
  }

  /** The factor the exponent contributes; i is the offset of the exponent mark. */
  method ExponentFactor(buf: array<Byte>, at: nat, ghost u: Text, f: nat) returns (power: real, i: nat)
    requires Holds(buf, at, u) && f <= |u|
    requires IsExponentMark(buf[at + f])
    ensures i == ExponentEnd(u, f)
    ensures NatValue(u[ExponentStart(u, f)..i]) >= 0
    ensures power == Pow(Base(Peek(u, f + 1) == MINUS), NatValue(u[ExponentStart(u, f)..i]) % UINT32)
  {
    i := f + 1;
    var base := 10.0;
    if buf[at + i] == PLUS {
      i := i + 1;
    } else if buf[at + i] == MINUS {
      i := i + 1;
      base := 0.1;
    }
    var exponent;
    exponent, i := ExponentPart(buf, at, u, i);
    power := PowerOf(base, exponent);
  }

  /** string2double, reading from offset `at`. */
  method String2Double(buf: array<Byte>, at: nat, ghost u: Text) returns (value: real, end: nat)
    requires Holds(buf, at, u)
    ensures end == at + SplitNumeral(u).len
    ensures value == ConvertedValue(SplitNumeral(u))
  {
    hide Scaled;
    hide DigitsEnd;
    hide SplitNumeral;
    hide NatValue;
    hide Pow;
    hide Base;
    hide MantissaEnd;
    hide ExponentStart;
    hide ExponentEnd;
    hide WholeEnd;
    hide FractionStart;
    hide MantissaDigits;
    var negative := buf[at] == MINUS;
    var result, i := MantissaPart(buf, at, u);
    var power := 1.0;
    ghost var f := i;
    assert buf[at + f] == Peek(u, f);
    if IsExponentMark(buf[at + i]) {
      power, i := ExponentFactor(buf, at, u, i);
    }
    NumeralPower(u, power, i);
    NumeralMantissa(u);
    end := at + i;
    value := SignedProduct(negative, result, power);
  }

  /** The exponent's factor, and where the numeral ends. */
  lemma NumeralPower(u: Text, power: real, end: nat)
    requires var f := MantissaEnd(u);
      if IsExponentMark(Peek(u, f)) then
        var e := NatValue(u[ExponentStart(u, f)..ExponentEnd(u, f)]);
        end == ExponentEnd(u, f) && e >= 0 && power == Pow(Base(Peek(u, f + 1) == MINUS), e % UINT32)
      else end == f && power == 1.0
    ensures var n := SplitNumeral(u);
      power == Pow(Base(n.expNegative), Magnitude(n) % UINT32) && n.len == end
  {
    hide DigitsEnd;
    hide MantissaEnd;
    hide WholeEnd;
  }

  lemma NumeralMantissa(u: Text)
    ensures Scaled(NatValue(MantissaDigits(u)), MantissaEnd(u) - FractionStart(u, WholeEnd(u))) == Mantissa(SplitNumeral(u))
    ensures SplitNumeral(u).negative == (Peek(u, 0) == MINUS)
  {
    hide Scaled;
    hide DigitsEnd;
    hide MantissaEnd;
    hide WholeEnd;
    hide FractionStart;
  }

  method SignedProduct(negative: bool, x: real, y: real) returns (r: real)
    ensures r == Signed(negative, Product(x, y))
  {
    r := x * y;
    if negative {
      r := -r;
    }
  }
}
