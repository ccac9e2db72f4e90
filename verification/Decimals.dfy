/** Decimal numerals as printf writes them. */
module Decimals {
  import opened ByteStrings

  function NatValue(d: Text): int {
    if d == [] then 0 else NatValue(d[..|d| - 1]) * 10 + (d[|d| - 1] as int - 48)
  }

  lemma {:induction false} NatValueBound(d: Text)
    requires forall i :: 0 <= i < |d| ==> IsDigit(d[i])
    ensures NatValue(d) >= 0
  {
    if d != [] { NatValueBound(d[..|d| - 1]); }
  }

  lemma NatValueSnoc(d: Text, c: Byte)
    ensures NatValue(d + [c]) == NatValue(d) * 10 + (c as int - 48)
  {
    assert (d + [c])[..|d|] == d;
  }

  function NatDigits(n: nat): (d: Text)
    ensures d != []
    ensures forall i :: 0 <= i < |d| ==> IsDigit(d[i])
  {
    if n < 10 then [48 + n] else NatDigits(n / 10) + [48 + n % 10]
  }

  /** The last w decimal digits of n. */
  function FixedDigits(n: nat, w: nat): (d: Text)
    ensures |d| == w
    ensures forall i :: 0 <= i < |d| ==> IsDigit(d[i])
  {
    if w == 0 then [] else FixedDigits(n / 10, w - 1) + [48 + n % 10]
  }

  lemma {:induction false} NatDigitsValue(n: nat)
    ensures NatValue(NatDigits(n)) == n
  {
    if n >= 10 {
      NatDigitsValue(n / 10);
      NatValueSnoc(NatDigits(n / 10), 48 + n % 10);
    } else {
      NatValueSnoc([], 48 + n);
      assert [] + [48 + n] == [48 + n];
    }
  }

  function TenTo(w: nat): nat {
    if w == 0 then 1 else 10 * TenTo(w - 1)
  }

  lemma {:induction false} FixedDigitsValue(a: Text, n: nat, w: nat)
    requires n < TenTo(w)
    ensures NatValue(a + FixedDigits(n, w)) == NatValue(a) * TenTo(w) + n
  {
    if w == 0 {
      assert a + FixedDigits(n, w) == a;
    } else {
      FixedDigitsValue(a, n / 10, w - 1);
      var d := a + FixedDigits(n / 10, w - 1);
      NatValueSnoc(d, 48 + n % 10);
      assert a + FixedDigits(n, w) == d + [48 + n % 10];
      DigitShift(NatValue(a), TenTo(w - 1), n);
    }
  }

  lemma DigitShift(v: int, t: int, n: nat)
    ensures (v * t + n / 10) * 10 + n % 10 == v * (10 * t) + n
  {
  }
}
