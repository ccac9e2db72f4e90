/** What a numeral means, whichever way it is written, and that the converter finds its parts. */
module JsonNumeral {
  import opened ByteStrings
  import opened Decimals
  import opened JsonText
  import opened JsonNumber
  import opened JsonTokens

  predicate Digits(d: Text) {
    forall i :: 0 <= i < |d| ==> IsDigit(d[i])
  }

  // ----- the value, by powers of ten -----

  lemma {:induction false} TenthsCancel(k: nat)
    ensures Pow(0.1, k) * TenTo(k) as real == 1.0
  {
    if k > 0 {
      TenthsCancel(k - 1);
      Cancel(Pow(0.1, k - 1), TenTo(k - 1) as real);
    }
  }

  lemma Cancel(x: real, y: real)
    ensures (0.1 * x) * (10.0 * y) == x * y
  {
    assert (0.1 * x) * (10.0 * y) == (0.1 * 10.0) * (x * y);
  }

  lemma {:induction false} TensAre(k: nat)
    ensures Pow(10.0, k) == TenTo(k) as real
  {
    if k > 0 { TensAre(k - 1); }
  }

  lemma TimesInverse(x: real, p: real, t: real)
    requires p * t == 1.0
    ensures (x * p) * t == x && ((-(x * p)) * t == -x)
  {
    assert (x * p) * t == x * (p * t);
  }

  /** The digits before and after the point, as a whole number of the last decimal place. */
  lemma MantissaMeans(n: Numeral)
    ensures Mantissa(n) * TenTo(|n.frac|) as real == NatValue(n.whole + n.frac) as real
  {
    hide Scaled;
    hide Pow;
    hide TenTo;
    hide NatValue;
    var m, k := NatValue(n.whole + n.frac), |n.frac|;
    ScaledProduct(m, k);
    TenthsCancel(k);
    TimesInverse(m as real, Pow(0.1, k), TenTo(k) as real);
  }

  /** A positive exponent multiplies the digits by that power of ten, a negative one divides them. */
  lemma DecimalMeans(n: Numeral)
    ensures n.expNegative ==> DecimalValue(n) * TenTo(Magnitude(n)) as real == Signed(n.negative, Mantissa(n))
    ensures !n.expNegative ==> DecimalValue(n) == Signed(n.negative, Mantissa(n)) * TenTo(Magnitude(n)) as real
  {
    hide Pow;
    hide TenTo;
    hide Mantissa;
    hide Magnitude;
    hide Product;
    var e, m := Magnitude(n), Mantissa(n);
    if n.expNegative {
      TenthsCancel(e);
      ProductBack(m, Pow(0.1, e), TenTo(e) as real);
    } else {
      TensAre(e);
      ProductIs(m, TenTo(e) as real);
    }
  }

  lemma ProductIs(x: real, y: real)
    ensures Product(x, y) == x * y && -Product(x, y) == (-x) * y
  {
  }

  lemma ProductBack(x: real, p: real, t: real)
    requires p * t == 1.0
    ensures Product(x, p) * t == x && (-Product(x, p)) * t == -x
  {
    TimesInverse(x, p, t);
  }

  // ----- numerals as written -----

  /** An exponent as written: its mark, an optional sign, its digits. */
  datatype Exponent = NoExponent | Exponent(mark: Byte, sign: Text, digits: Text)

  /** A number as written; without frac there is no point. */
  datatype Written = Written(negative: bool, whole: Text, point: bool, frac: Text, exponent: Exponent)

  /** The numbers of section 6 of RFC 8259, and more: digits may be missing, zeros may lead. */
  predicate WellWritten(x: Written) {
    && Digits(x.whole) && Digits(x.frac) && (x.whole != [] || (x.negative && x.point))
    && (x.frac != [] ==> x.point)
    && (x.exponent != NoExponent ==>
          IsExponentMark(x.exponent.mark) && x.exponent.sign in {[], [PLUS], [MINUS]} && Digits(x.exponent.digits))
  }

  function SignText(negative: bool): Text {
    if negative then [MINUS] else []
  }

  function FracText(x: Written): Text {
    if x.point then [DOT] + x.frac else []
  }

  function ExponentText(e: Exponent): Text {
    if e == NoExponent then [] else [e.mark] + e.sign + e.digits
  }

  function WrittenText(x: Written): Text {
    SignText(x.negative) + x.whole + FracText(x) + ExponentText(x.exponent)
  }

  /** The numeral that is written. */
  function NumeralOf(x: Written): Numeral {
    Numeral(x.negative, x.whole, x.frac, x.exponent != NoExponent && x.exponent.sign == [MINUS],
            if x.exponent == NoExponent then [] else x.exponent.digits, |WrittenText(x)|)
  }

  lemma {:induction false} DigitsEndIs(u: Text, a: nat, w: nat)
    requires a <= w <= |u| && (forall i :: a <= i < w ==> IsDigit(u[i])) && !IsDigit(Peek(u, w))
    ensures DigitsEnd(u, a) == w
    decreases w - a
  {
    if a < w { DigitsEndIs(u, a + 1, w); }
  }

  /** The digits d stand in u at offset a, and something else behind them. */
  lemma DigitsAt(pre: Text, d: Text, rest: Text)
    requires Digits(d) && !IsDigit(Peek(rest, 0))
    ensures DigitsEnd(pre + (d + rest), |pre|) == |pre| + |d|
  {
    var u := pre + (d + rest);
    assert forall i :: |pre| <= i < |pre| + |d| ==> u[i] == d[i - |pre|];
    assert Peek(u, |pre| + |d|) == Peek(rest, 0);
    DigitsEndIs(u, |pre|, |pre| + |d|);
  }

  lemma ExponentHead(x: Written, post: Text)
    requires WellWritten(x) && Delimited(post)
    ensures var c := Peek(ExponentText(x.exponent) + post, 0);
      !IsDigit(c) && c != DOT && (IsExponentMark(c) <==> x.exponent != NoExponent)
  {
  }

  lemma PeekAt(pre: Text, rest: Text, i: nat)
    ensures Peek(pre + rest, |pre| + i) == Peek(rest, i)
  {
  }

  lemma HeadOf(a: Text, b: Text)
    requires a != []
    ensures Peek(a + b, 0) == a[0]
  {
  }

  /** Digits, perhaps none, behind an optional minus, and something else behind them. */
  lemma WholeEnds(s: Text, whole: Text, rest: Text)
    requires (s == [] || s == [MINUS]) && Digits(whole) && !IsDigit(Peek(rest, 0))
    requires s == [] ==> whole != []
    ensures var u := s + (whole + rest);
      SignEnd(u) == |s| && WholeEnd(u) == |s| + |whole| && (Peek(u, 0) == MINUS <==> s == [MINUS])
  {
    hide DigitsEnd;
    if s == [] {
      HeadOf(whole, rest);
      PeekAt([], whole + rest, 0);
      assert IsDigit(whole[0]);
    } else {
      HeadOf(s, whole + rest);
    }
    DigitsAt(s, whole, rest);
  }

  /** A point with its digits behind the whole part, or none. */
  lemma FractionEnds(pre: Text, point: bool, frac: Text, tail: Text)
    requires Digits(frac) && !IsDigit(Peek(tail, 0)) && Peek(tail, 0) != DOT && (!point ==> frac == [])
    ensures var u := pre + ((if point then [DOT] + frac else []) + tail);
      && FractionEnd(u, |pre|) == |pre| + (if point then 1 + |frac| else 0)
      && FractionStart(u, |pre|) == |pre| + (if point then 1 else 0)
  {
    hide DigitsEnd;
    var rest := (if point then [DOT] + frac else []) + tail;
    PeekAt(pre, rest, 0);
    if point {
      HeadOf([DOT] + frac, tail);
      assert pre + rest == (pre + [DOT]) + (frac + tail);
      DigitsAt(pre + [DOT], frac, tail);
    } else {
      assert rest == tail;
    }
  }

  lemma MantissaEnds(x: Written, u: Text, tail: Text)
    requires WellWritten(x) && u == (SignText(x.negative) + x.whole) + (FracText(x) + tail)
    requires !IsDigit(Peek(tail, 0)) && Peek(tail, 0) != DOT
    ensures var w := |SignText(x.negative)| + |x.whole|;
      && WholeEnd(u) == w && SignEnd(u) == |SignText(x.negative)| && MantissaEnd(u) == w + |FracText(x)|
      && FractionStart(u, w) == (if x.point then w + 1 else w)
      && (Peek(u, 0) == MINUS <==> x.negative)
  {
    hide DigitsEnd;
    var s, rest := SignText(x.negative), FracText(x) + tail;
    FracHead(x, tail);
    WholeEnds(s, x.whole, rest);
    FractionEnds(s + x.whole, x.point, x.frac, tail);
    hide Digits;
    hide IsDigit;
    hide Peek;
    hide WholeEnd;
    hide FractionEnd;
    hide FractionStart;
    hide SignEnd;
    assert s + (x.whole + rest) == u;
  }

  lemma FracHead(x: Written, tail: Text)
    requires !IsDigit(Peek(tail, 0))
    ensures !IsDigit(Peek(FracText(x) + tail, 0))
  {
    if x.point { HeadOf([DOT] + x.frac, tail); } else { assert FracText(x) + tail == tail; }
  }

  lemma ExponentEnds(x: Written, u: Text, pre: Text, post: Text)
    requires WellWritten(x) && Delimited(post) && u == pre + (ExponentText(x.exponent) + post)
    ensures var f := |pre|;
      && ExponentEnd(u, f) == f + |ExponentText(x.exponent)|
      && u[ExponentStart(u, f)..ExponentEnd(u, f)] == NumeralOf(x).exponent
      && (IsExponentMark(Peek(u, f)) && Peek(u, f + 1) == MINUS <==> NumeralOf(x).expNegative)
  {
    ExponentHead(x, post);
    assert Peek(u, |pre|) == Peek(ExponentText(x.exponent) + post, 0);
    if x.exponent != NoExponent {
      ExponentParts(x.exponent, u, pre, post);
    } else {
      assert u[|pre|..|pre|] == [];
    }
  }

  lemma ExponentParts(e: Exponent, u: Text, pre: Text, post: Text)
    requires e != NoExponent && Delimited(post) && u == pre + (ExponentText(e) + post)
    requires IsExponentMark(e.mark) && e.sign in {[], [PLUS], [MINUS]} && Digits(e.digits)
    ensures var f := |pre|;
      && IsExponentMark(Peek(u, f))
      && ExponentEnd(u, f) == f + |ExponentText(e)|
      && u[ExponentStart(u, f)..ExponentEnd(u, f)] == e.digits
      && (Peek(u, f + 1) == MINUS <==> e.sign == [MINUS])
  {
    var head := pre + ([e.mark] + e.sign);
    ExponentSplit(e, pre, post);
    DelimIsNoDigit(post);
    DigitsAt(head, e.digits, post);
    ExponentStarts(e, u, pre, post);
    SliceBehind(head, e.digits, post);
    hide IsDigit;
    hide IsDelim;
    hide Digits;
    hide ExponentText;
    hide SignWidth;
    hide DigitsEnd;
    hide ExponentStart;
    hide Peek;
  }

  lemma ExponentSplit(e: Exponent, pre: Text, post: Text)
    requires e != NoExponent
    ensures pre + (ExponentText(e) + post) == (pre + ([e.mark] + e.sign)) + (e.digits + post)
    ensures |ExponentText(e)| == 1 + |e.sign| + |e.digits|
  {
  }

  lemma SliceBehind(pre: Text, d: Text, post: Text)
    ensures (pre + (d + post))[|pre|..|pre| + |d|] == d
  {
  }

  lemma ExponentStarts(e: Exponent, u: Text, pre: Text, post: Text)
    requires e != NoExponent && Delimited(post) && u == pre + (ExponentText(e) + post)
    requires IsExponentMark(e.mark) && e.sign in {[], [PLUS], [MINUS]} && Digits(e.digits)
    ensures Peek(u, |pre|) == e.mark && ExponentStart(u, |pre|) == |pre| + 1 + |e.sign|
    ensures Peek(u, |pre| + 1) == MINUS <==> e.sign == [MINUS]
  {
    assert Peek(u, |pre|) == e.mark;
    assert Peek(u, |pre| + 1) == Peek(e.sign + (e.digits + post), 0);
    SignOrDigit(e, post);
    hide SignWidth;
    hide IsDigit;
    hide IsDelim;
  }

  lemma DelimIsNoDigit(post: Text)
    requires Delimited(post)
    ensures !IsDigit(Peek(post, 0))
  {
  }

  lemma SignOrDigit(e: Exponent, post: Text)
    requires e != NoExponent && Delimited(post) && e.sign in {[], [PLUS], [MINUS]} && Digits(e.digits)
    ensures SignWidth(Peek(e.sign + (e.digits + post), 0)) == |e.sign|
    ensures Peek(e.sign + (e.digits + post), 0) == MINUS <==> e.sign == [MINUS]
  {
    if e.sign == [] {
      assert Peek(e.sign + (e.digits + post), 0) == if e.digits == [] then Peek(post, 0) else e.digits[0];
    }
  }

  lemma Assoc(a: Text, b: Text, c: Text)
    ensures (a + b) + c == a + (b + c)
  {
  }

  lemma MantissaParts(x: Written, u: Text, tail: Text)
    requires WellWritten(x) && u == (SignText(x.negative) + x.whole) + (FracText(x) + tail)
    ensures var s, f := |SignText(x.negative)|, |SignText(x.negative)| + |x.whole| + |FracText(x)|;
      && f <= |u| && u[s..s + |x.whole|] == x.whole
      && u[if x.point then s + |x.whole| + 1 else s + |x.whole|..f] == x.frac
  {
    hide SignText;
    var s, pre := SignText(x.negative), SignText(x.negative) + x.whole;
    Assoc(s, x.whole, FracText(x) + tail);
    SliceBehind(s, x.whole, FracText(x) + tail);
    PointParts(pre, x.point, x.frac, tail);
    hide WellWritten;
  }

  lemma PointParts(pre: Text, point: bool, frac: Text, tail: Text)
    requires !point ==> frac == []
    ensures var u := pre + ((if point then [DOT] + frac else []) + tail);
      if point then |pre| + 1 + |frac| <= |u| && u[|pre| + 1..|pre| + 1 + |frac|] == frac
      else |pre| <= |u| && u[|pre|..|pre|] == frac
  {
    if point {
      Assoc([DOT], frac, tail);
      Assoc(pre, [DOT], frac + tail);
      SliceBehind(pre + [DOT], frac, tail);
    }
  }

  /** The converter splits a numeral into the parts that were written, and stops behind it. */
  lemma SplitWritten(x: Written, post: Text)
    requires WellWritten(x) && Delimited(post)
    ensures SplitNumeral(WrittenText(x) + post) == NumeralOf(x)
  {
    hide WrittenText;
    hide SplitNumeral;
    SplitText(x, WrittenText(x) + post, post);
    SplitFrom(x, WrittenText(x) + post, post);
  }

  lemma SplitFrom(x: Written, u: Text, post: Text)
    requires WellWritten(x) && Delimited(post)
    requires u == (SignText(x.negative) + x.whole) + (FracText(x) + (ExponentText(x.exponent) + post))
    requires u == (SignText(x.negative) + x.whole + FracText(x)) + (ExponentText(x.exponent) + post)
    ensures SplitNumeral(u) == NumeralOf(x)
  {
    hide DigitsEnd;
    hide MantissaEnd;
    hide WholeEnd;
    hide SignEnd;
    hide FractionStart;
    hide ExponentEnd;
    hide ExponentStart;
    hide IsExponentMark;
    hide Peek;
    WrittenLength(x);
    Ends(x, u, post);
    hide WellWritten;
    hide ExponentText;
    hide FracText;
    hide SignText;
    hide Delimited;
    hide WrittenText;
  }

  lemma WrittenLength(x: Written)
    ensures |WrittenText(x)| == |SignText(x.negative)| + |x.whole| + |FracText(x)| + |ExponentText(x.exponent)|
  {
    hide SignText;
    hide FracText;
    hide ExponentText;
  }

  lemma Ends(x: Written, u: Text, post: Text)
    requires WellWritten(x) && Delimited(post)
    requires u == (SignText(x.negative) + x.whole) + (FracText(x) + (ExponentText(x.exponent) + post))
    requires u == (SignText(x.negative) + x.whole + FracText(x)) + (ExponentText(x.exponent) + post)
    ensures var w := |SignText(x.negative)| + |x.whole|;
      var f := w + |FracText(x)|;
      && SignEnd(u) == |SignText(x.negative)| && WholeEnd(u) == w && MantissaEnd(u) == f
      && (Peek(u, 0) == MINUS <==> x.negative)
      && u[SignEnd(u)..w] == x.whole && u[FractionStart(u, w)..f] == x.frac
      && ExponentEnd(u, f) == f + |ExponentText(x.exponent)|
      && u[ExponentStart(u, f)..ExponentEnd(u, f)] == NumeralOf(x).exponent
      && (IsExponentMark(Peek(u, f)) && Peek(u, f + 1) == MINUS <==> NumeralOf(x).expNegative)
  {
    hide DigitsEnd;
    hide MantissaEnd;
    hide WholeEnd;
    hide SignEnd;
    hide FractionStart;
    hide ExponentEnd;
    hide ExponentStart;
    hide IsExponentMark;
    hide Peek;
    hide WellWritten;
    hide ExponentText;
    hide FracText;
    hide SignText;
    hide Delimited;
    hide NumeralOf;
    var tail := ExponentText(x.exponent) + post;
    ExponentHead(x, post);
    MantissaEnds(x, u, tail);
    MantissaParts(x, u, tail);
    ExponentEnds(x, u, SignText(x.negative) + x.whole + FracText(x), post);
  }

  lemma SplitText(x: Written, u: Text, post: Text)
    requires u == WrittenText(x) + post
    ensures u == (SignText(x.negative) + x.whole) + (FracText(x) + (ExponentText(x.exponent) + post))
    ensures u == (SignText(x.negative) + x.whole + FracText(x)) + (ExponentText(x.exponent) + post)
  {
    hide SignText;
    hide FracText;
    hide ExponentText;
  }

  /** A number as written is one token; its value is the decimal one, if the exponent fits the
      converter's counter. */
  lemma NumberTokenWritten(x: Written, post: Text)
    requires WellWritten(x) && Delimited(post)
    ensures NextToken(WrittenText(x) + post) == Lexeme(Leaf(Number(ConvertedValue(NumeralOf(x)))), |WrittenText(x)|)
    ensures Magnitude(NumeralOf(x)) < UINT32 ==> ConvertedValue(NumeralOf(x)) == DecimalValue(NumeralOf(x))
  {
    hide SplitNumeral;
    hide ConvertedValue;
    hide DecimalValue;
    var u, d := WrittenText(x) + post, WrittenText(x);
    SplitWritten(x, post);
    ConversionExactIff(NumeralOf(x));
    assert u[|d|..] == post;
    assert Peek(u, |d|) == Peek(post, 0);
    FirstIsNumeral(x, post);
    assert u[0..] == u;
  }

  lemma FirstIsNumeral(x: Written, post: Text)
    requires WellWritten(x)
    ensures var u := WrittenText(x) + post;
      && u != [] && (IsDigit(u[0]) || u[0] == MINUS)
      && (u[0] == MINUS ==> IsDigit(Peek(u, 1)) || Peek(u, 1) == DOT)
  {
    var tail := ExponentText(x.exponent) + post;
    SplitText(x, WrittenText(x) + post, post);
    Assoc(SignText(x.negative), x.whole, FracText(x) + tail);
    NumeralHead(x, tail);
    SignedHead(x.negative, x.whole + (FracText(x) + tail));
    hide WrittenText;
    hide FracText;
    hide SignText;
    hide ExponentText;
    hide WellWritten;
    hide IsDigit;
    hide Peek;
  }

  lemma SignedHead(negative: bool, body: Text)
    requires IsDigit(Peek(body, 0)) || (negative && Peek(body, 0) == DOT)
    ensures var u := SignText(negative) + body;
      && u != [] && (IsDigit(u[0]) || u[0] == MINUS)
      && (u[0] == MINUS ==> IsDigit(Peek(u, 1)) || Peek(u, 1) == DOT)
  {
    PeekAt(SignText(negative), body, 0);
    if negative { HeadOf([MINUS], body); } else { assert [] + body == body; }
  }

  lemma NumeralHead(x: Written, tail: Text)
    requires WellWritten(x)
    ensures var c := Peek(x.whole + (FracText(x) + tail), 0);
      IsDigit(c) || (x.negative && c == DOT)
  {
    if x.whole != [] {
      HeadOf(x.whole, FracText(x) + tail);
    } else {
      assert x.whole + (FracText(x) + tail) == FracText(x) + tail;
      HeadOf([DOT] + x.frac, tail);
    }
  }

  /** 1e-2 is a hundredth. */
  lemma OneHundredth()
    ensures NextToken([49, 101, 45, 50]) == Lexeme(Leaf(Number(0.01)), 4)
  {
    var x := Written(false, [49], false, [], Exponent(101, [MINUS], [50]));
    var n := NumeralOf(x);
    hide Pow;
    hide SplitNumeral;
    hide ConvertedValue;
    hide DecimalValue;
    assert WrittenText(x) + [] == [49, 101, 45, 50];
    NumberTokenWritten(x, []);
    assert Magnitude(n) == 2;
    assert n.whole + n.frac == [49] && NatValue([49]) == 1;
    DecimalMeans(n);
    assert TenTo(2) == 100;
  }
}
