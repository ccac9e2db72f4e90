/** What the printer writes, and the proof that parsing it gives the value back. */
module JsonPrint {
  import opened ByteStrings
  import opened Decimals
  import opened JsonText
  import opened JsonNumber
  import opened JsonTokens
  import opened JsonNumeral
  import opened JsonGrammar

  const SHIFT_WIDTH: nat := 4

  // ----- strings -----

  function EscapeChar(c: Byte): (e: Text)
    ensures e != []
  {
    if c == 8 then [BACKSLASH, 98]
    else if c == 12 then [BACKSLASH, 102]
    else if c == 10 then [BACKSLASH, 110]
    else if c == 13 then [BACKSLASH, 114]
    else if c == 9 then [BACKSLASH, 116]
    else if c == BACKSLASH then [BACKSLASH, BACKSLASH]
    else if c == QUOTE then [BACKSLASH, QUOTE]
    else [c]
  }

  function EscapeText(s: Text): Text {
    if s == [] then [] else EscapeChar(s[0]) + EscapeText(s[1..])
  }

  function PrintString(s: Text): Text {
    [QUOTE] + EscapeText(s) + [QUOTE]
  }

  /** A character that the printer escapes, or that the parser takes unescaped. */
  predicate Readable(c: Byte) {
    c in {8, 9, 10, 12, 13} || (c >= SPACE && c != DELETE)
  }

  predicate ReadableText(s: Text) {
    forall i :: 0 <= i < |s| ==> Readable(s[i])
  }

  lemma ScanEscapedChar(c: Byte, rest: Text)
    ensures ScanString(EscapeChar(c) + rest)
         == if Readable(c) then ScanString(rest).After([c], |EscapeChar(c)|) else BadScan
  {
    var e := EscapeChar(c);
    var u := e + rest;
    assert u[|e|..] == rest;
    if |e| == 2 {
      assert u[0] == BACKSLASH && Peek(u, 1) == e[1];
      assert DecodeEscape(u) == Escaped([c], 2);
    }
  }

  /** Reading a printed string gives it back if and only if every character is readable. */
  lemma {:induction false} ScanPrinted(s: Text, post: Text)
    ensures ScanString(EscapeText(s) + [QUOTE] + post)
         == if ReadableText(s) then Scanned(s, |EscapeText(s)| + 1, true) else BadScan
  {
    if s == [] {
      assert EscapeText(s) + [QUOTE] + post == [QUOTE] + post;
    } else {
      var rest := EscapeText(s[1..]) + [QUOTE] + post;
      assert EscapeText(s) + [QUOTE] + post == EscapeChar(s[0]) + rest;
      ScanEscapedChar(s[0], rest);
      ScanPrinted(s[1..], post);
      assert [s[0]] + s[1..] == s;
      assert ReadableText(s) <==> Readable(s[0]) && ReadableText(s[1..]);
    }
  }

  /** A printed string is one token with its text, or a bad string. */
  lemma StringTokenPrinted(s: Text, post: Text)
    requires Delimited(post)
    ensures NextToken(PrintString(s) + post)
         == if ReadableText(s) then Lexeme(Leaf(String(s)), |PrintString(s)|) else Lexeme(Junk(BadString), 1)
  {
    var u := PrintString(s) + post;
    assert u[1..] == EscapeText(s) + [QUOTE] + post;
    ScanPrinted(s, post);
    assert u[|PrintString(s)|..] == post;
    assert Peek(u, |PrintString(s)|) == Peek(post, 0);
    assert u[0..] == u;
    if ReadableText(s) {
      assert 0 !in s;
      CStringId(s);
    }
  }

  // ----- numbers -----

  const MICROS: nat := 1_000_000

  /** x in units of 10^-6, rounded to the nearest, a tie going to the even neighbour. */
  function RoundMicros(x: real): (k: nat)
    requires x >= 0.0
  {
    var f := (x * 1000000.0).Floor;
    var d := x * 1000000.0 - f as real;
    if d < 0.5 || (d == 0.5 && f % 2 == 0) then f else f + 1
  }

  function Abs(r: real): (x: real)
    ensures x >= 0.0
  {
    if r < 0.0 then -r else r
  }

  /** The %f conversion. */
  function PrintNumber(r: real): (d: Text)
    ensures d != []
  {
    var k := RoundMicros(Abs(r));
    (if r < 0.0 then [MINUS] else []) + NatDigits(k / MICROS) + [DOT] + FixedDigits(k % MICROS, 6)
  }

  predicate IsMicros(r: real) {
    (r * 1000000.0).Floor as real == r * 1000000.0
  }

  lemma ScaledMicros(k: int)
    ensures Scaled(k, 6) * 1000000.0 == k as real
  {
    assert Scaled(k, 5) == Scaled(k, 4) * 0.1;
    assert Scaled(k, 4) == Scaled(k, 3) * 0.1;
    assert Scaled(k, 3) == Scaled(k, 2) * 0.1;
    assert Scaled(k, 2) == Scaled(k, 1) * 0.1;
    assert Scaled(k, 1) == Scaled(k, 0) * 0.1;
  }

  lemma RoundExact(x: real, m: int)
    requires x >= 0.0 && x * 1000000.0 == m as real
    ensures RoundMicros(x) == m
  {
    assert (x * 1000000.0).Floor == m;
  }

  /** What a printed number reads back as. */
  ghost function Rounded(r: real): real {
    Signed(r < 0.0, Scaled(RoundMicros(Abs(r)), 6))
  }

  /** A printed number is read back as the nearest multiple of 10^-6, half way as the even one. */
  lemma RoundedNearest(r: real)
    ensures -0.5 <= (Rounded(r) - r) * 1000000.0 <= 0.5
    ensures (Rounded(r) - r) * 1000000.0 in {-0.5, 0.5} ==> RoundMicros(Abs(r)) % 2 == 0
    ensures IsMicros(Rounded(r))
  {
    hide IsMicros;
    RoundedMicros(r);
    hide Scaled;
    var k := RoundMicros(Abs(r));
    ScaledMicros(k);
    RoundNearest(Abs(r), k);
    hide RoundMicros;
    ScaledDifference(Scaled(k, 6), Abs(r), k);
    if r < 0.0 {
      assert (Rounded(r) - r) * 1000000.0 == Abs(r) * 1000000.0 - k as real;
    }
  }

  lemma RoundNearest(x: real, k: nat)
    requires x >= 0.0 && k == RoundMicros(x)
    ensures -0.5 <= k as real - x * 1000000.0 <= 0.5
    ensures k as real - x * 1000000.0 in {-0.5, 0.5} ==> k % 2 == 0
  {
  }

  lemma ScaledDifference(y: real, x: real, k: nat)
    requires y * 1000000.0 == k as real
    ensures (y - x) * 1000000.0 == k as real - x * 1000000.0
  {
  }

  lemma MicrosExact(r: real)
    requires IsMicros(r)
    ensures Rounded(r) == r
  {
    hide RoundMicros;
    var m := (r * 1000000.0).Floor;
    var k := if r < 0.0 then -m else m;
    RoundExact(Abs(r), k);
    ScaledMicros(k);
  }

  lemma WholeMicros(y: real, n: int)
    requires y * 1000000.0 == n as real
    ensures IsMicros(y) && IsMicros(-y)
  {
    assert (y * 1000000.0).Floor == n;
    assert (-y) * 1000000.0 == (-n) as real;
    assert ((-y) * 1000000.0).Floor == -n;
  }

  lemma RoundedMicros(r: real)
    ensures IsMicros(Rounded(r))
  {
    hide RoundMicros;
    hide Scaled;
    hide IsMicros;
    var k: int := RoundMicros(Abs(r));
    ScaledMicros(k);
    WholeMicros(Scaled(k, 6), k);
  }

  lemma RoundedIff(r: real)
    ensures Rounded(r) == r <==> IsMicros(r)
  {
    hide Rounded;
    hide IsMicros;
    RoundedMicros(r);
    if IsMicros(r) { MicrosExact(r); }
  }

  /** The numeral in sign + whole + "." + frac + post. */
  lemma SplitPrinted(negative: bool, whole: Text, frac: Text, post: Text)
    requires whole != [] && Digits(whole) && Digits(frac) && Delimited(post)
    ensures var sign: Text := if negative then [MINUS] else [];
            SplitNumeral(sign + whole + [DOT] + frac + post)
            == Numeral(negative, whole, frac, false, [], |sign| + |whole| + 1 + |frac|)
  {
    hide SplitNumeral;
    var x := Written(negative, whole, true, frac, NoExponent);
    SplitWritten(x, post);
    PlainText(SignText(negative), whole, frac, post);
  }

  lemma PlainText(s: Text, w: Text, f: Text, post: Text)
    ensures s + w + ([DOT] + f) + [] + post == s + w + [DOT] + f + post
  {
    assert s + w + ([DOT] + f) == s + w + [DOT] + f;
  }

  lemma PrintedValue(r: real)
    ensures var k := RoundMicros(Abs(r));
            ConvertedValue(Numeral(r < 0.0, NatDigits(k / MICROS), FixedDigits(k % MICROS, 6), false, [], |PrintNumber(r)|))
            == Rounded(r)
  {
    var k := RoundMicros(Abs(r));
    var whole, frac := NatDigits(k / MICROS), FixedDigits(k % MICROS, 6);
    var n := Numeral(r < 0.0, whole, frac, false, [], |PrintNumber(r)|);
    NatDigitsValue(k / MICROS);
    assert TenTo(6) == MICROS by {
      assert TenTo(3) == 1000;
    }
    FixedDigitsValue(whole, k % MICROS, 6);
    assert NatValue(whole + frac) == k;
    TimesOne(Mantissa(n));
  }

  lemma TimesOne(x: real)
    ensures Product(x, Pow(10.0, 0)) == x
  {
  }

  /** A printed number is one token with the rounded value. */
  lemma NumberTokenPrinted(r: real, post: Text)
    requires Delimited(post)
    ensures NextToken(PrintNumber(r) + post) == Lexeme(Leaf(Number(Rounded(r))), |PrintNumber(r)|)
  {
    var k := RoundMicros(Abs(r));
    var whole, frac := NatDigits(k / MICROS), FixedDigits(k % MICROS, 6);
    SplitPrinted(r < 0.0, whole, frac, post);
    PrintedValue(r);
    var u := PrintNumber(r) + post;
    assert u == (if r < 0.0 then [MINUS] else []) + whole + [DOT] + frac + post;
    assert u[|PrintNumber(r)|..] == post;
    assert Peek(u, |PrintNumber(r)|) == Peek(post, 0);
    assert IsDigit(whole[0]);
    assert u[0..] == u;
  }
}
