/** Exactly which texts make the parser step over the terminating NUL. */
module JsonOverrun {
  import opened ByteStrings
  import opened Decimals
  import opened JsonText
  import opened JsonNumber
  import opened JsonTokens
  import opened JsonGrammar
  import opened Options

  predicate EndsInSpace(u: Text) {
    u != [] && IsSpace(u[|u| - 1])
  }

  function LastToken(ts: Tokens): Token
    requires ts.Next?
  {
    if ts.tail.End? then ts.token else LastToken(ts.tail)
  }

  /** The tokens without white space at the end of the text. */
  function Plugged(ts: Tokens): Tokens {
    match ts
    case End => End
    case Next(u, t, tail) => if t.Overrun? then End else Next(u, t, Plugged(tail))
  }

  // ----- the last character of a token -----

  lemma {:induction false} DigitsEndSolid(u: Text, a: nat)
    requires a <= |u|
    ensures DigitsEnd(u, a) > a ==> IsDigit(u[DigitsEnd(u, a) - 1])
    decreases |u| - a
  {
    if a < |u| && IsDigit(u[a]) { DigitsEndSolid(u, a + 1); }
  }

  lemma NumeralSolid(u: Text)
    requires u != [] && (IsDigit(u[0]) || u[0] == MINUS) && SplitNumeral(u).len > 0
    ensures !IsSpace(u[SplitNumeral(u).len - 1])
  {
    hide DigitsEnd;
    var w, f := WholeEnd(u), MantissaEnd(u);
    DigitsEndSolid(u, SignEnd(u));
    if Peek(u, w) == DOT { DigitsEndSolid(u, w + 1); }
    if IsExponentMark(Peek(u, f)) { DigitsEndSolid(u, ExponentStart(u, f)); }
  }

  /** The last token of a text ends in white space only if it is a string that is left open. */
  lemma TokenSolid(u: Text)
    requires u != [] && !IsSpace(u[0]) && TokenHere(u).len == |u| && IsSpace(u[|u| - 1])
    ensures var t := TokenHere(u).token; t.Leaf? && t.v.String?
  {
    hide SplitNumeral;
    if IsDigit(u[0]) || u[0] == MINUS {
      NumeralLength(u);
      NumeralSolid(u);
    }
  }

  // ----- which texts -----

  lemma {:induction false} SpaceRunAll(u: Text)
    ensures SpaceRun(u) == |u| ==> forall i :: 0 <= i < |u| ==> IsSpace(u[i])
  {
    if u != [] && IsSpace(u[0]) { SpaceRunAll(u[1..]); }
  }

  /** The tokens end in an overrun exactly when the text ends in white space that no open string
      takes in. */
  lemma {:induction false} LastIsOverrunIff(u: Text)
    requires u != []
    ensures var t := LastToken(Lexed(u));
            t == Overrun <==> EndsInSpace(u) && !(t.Leaf? && t.v.String?)
    decreases |u|
  {
    hide TokenHere;
    var x, w := NextToken(u), SpaceRun(u);
    var rest := u[x.len..];
    if rest != [] {
      assert rest[|rest| - 1] == u[|u| - 1];
      LastIsOverrunIff(rest);
      assert LastToken(Lexed(u)) == LastToken(Lexed(rest));
    } else {
      assert Lexed(rest) == End;
      if w == |u| {
        SpaceRunAll(u);
      } else {
        var v := u[w..];
        assert v[|v| - 1] == u[|u| - 1];
        if EndsInSpace(u) { TokenSolid(v); }
      }
    }
  }

  /** An overrun, if there is one, is the last token. */
  lemma {:induction false} OverrunsIff(u: Text, m: Machine)
    requires u != []
    ensures Run(Lexed(u), m) == OutOfText
       <==> LastToken(Lexed(u)) == Overrun && Run(Plugged(Lexed(u)), m) == Rejected(BreakingBad)
    decreases |u|
  {
    hide NextToken;
    var x := NextToken(u);
    var rest := u[x.len..];
    var r := Step(m, x.token);
    NotTooShort(u);
    if x.token == Overrun {
      OverrunTakesAll(u);
    } else if rest != [] && r.Running? {
      OverrunsIff(rest, r.m);
    }
  }

  lemma NotTooShort(u: Text)
    requires u != []
    ensures NextToken(u).token != Junk(BreakingBad)
  {
    hide SplitNumeral;
    hide ScanString;
  }

  lemma OverrunTakesAll(u: Text)
    requires u != [] && NextToken(u).token == Overrun
    ensures NextToken(u).len == |u|
  {
    hide TokenHere;
  }

  /** White space inside a string that is left open is not stepped over, although the text without
      it ends too early as well. */
  lemma OpenStringKeepsSpace(supply: nat)
    requires supply > 0
    ensures Run(Lexed([OPENBRACKET, QUOTE]), Start(supply)) == Rejected(BreakingBad)
    ensures Run(Lexed([OPENBRACKET, QUOTE, SPACE]), Start(supply)) == Rejected(BreakingBad)
  {
    hide CString;
    OpenString([], supply);
    assert [OPENBRACKET, QUOTE] + [] == [OPENBRACKET, QUOTE];
    OpenString([SPACE], supply);
    assert [OPENBRACKET, QUOTE] + [SPACE] == [OPENBRACKET, QUOTE, SPACE];
  }

  lemma OpenString(inside: Text, supply: nat)
    requires supply > 0 && inside in {[], [SPACE]}
    ensures Run(Lexed([OPENBRACKET, QUOTE] + inside), Start(supply)) == Rejected(BreakingBad)
  {
    hide CString;
    var u, v := [OPENBRACKET, QUOTE] + inside, [QUOTE] + inside;
    assert SpaceRun(u) == 0 && u[0..] == u;
    assert NextToken(u) == Lexeme(Open(ArrayTag), 1);
    assert u[1..] == v && v[1..] == inside;
    assert SpaceRun(v) == 0 && v[0..] == v;
    if inside == [SPACE] {
      assert inside[1..] == [];
      assert ScanString([]) == Scanned([], 0, false);
    }
    assert ScanString(inside) == Scanned(inside, |inside|, false);
    var x := NextToken(v);
    assert x.token.Leaf? && x.token.v.String? && x.len == |v|;
    assert Lexed(v[x.len..]) == End;
    var m := Machine([Frame(ArrayTag, None, [])], true, supply);
    assert Step(Start(supply), Open(ArrayTag)) == Running(m);
    assert Step(m, x.token).Running?;
    assert Run(Lexed(v), m) == Rejected(BreakingBad);
  }
}
