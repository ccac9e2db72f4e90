/** Which mistake in a text gives which error, and which departures from RFC 8259 give none. */
module JsonErrors {
  import opened ByteStrings
  import opened JsonText
  import opened JsonTokens
  import opened JsonGrammar
  import opened JsonRoundTrip
  import JsonPrint
  import opened Options

  function Opens(n: nat, rest: Text): Text {
    if n == 0 then rest else [OPENBRACKET] + Opens(n - 1, rest)
  }

  /** An empty text, and one that ends inside a container, end too early. */
  lemma EndsTooEarly(tag: Tag, supply: nat)
    ensures Run(Lexed([]), Start(supply)) == Rejected(BreakingBad)
    ensures Run(Lexed([OpeningOf(tag)]), Start(supply)) == Rejected(BreakingBad)
  {
    hide NextToken;
    LexedPunctuation(OpeningOf(tag), []);
    assert [OpeningOf(tag)] + [] == [OpeningOf(tag)];
    assert Lexed([]) == End;
    hide Lexed;
  }

  /** The machine in a container that was just opened. */
  function Inside(tag: Tag, supply: nat): Machine {
    Machine([Frame(tag, None, [])], true, supply)
  }

  lemma OpenRuns(tag: Tag, rest: Text, supply: nat)
    ensures Run(Lexed([OpeningOf(tag)] + rest), Start(supply)) == Run(Lexed(rest), Inside(tag, supply))
  {
    hide NextToken;
    hide Lexed;
    LexedPunctuation(OpeningOf(tag), rest);
    assert [] + [Frame(tag, None, [])] == [Frame(tag, None, [])];
  }

  /** A closing bracket where none is open, and one of the other kind. */
  lemma WrongClosing(tag: Tag, other: Tag, rest: Text, supply: nat)
    requires other != tag
    ensures Run(Lexed([ClosingOf(tag)] + rest), Start(supply)) == Rejected(StackUnderflow)
    ensures Run(Lexed([OpeningOf(tag)] + ([ClosingOf(other)] + rest)), Start(supply)) == Rejected(MismatchBracket)
  {
    hide NextToken;
    hide Lexed;
    LexedPunctuation(ClosingOf(tag), rest);
    LexedPunctuation(ClosingOf(other), rest);
    OpenRuns(tag, [ClosingOf(other)] + rest, supply);
  }

  /** A comma or a colon at the start of a text or of a container. */
  lemma WrongSeparator(tag: Tag, c: Byte, rest: Text, supply: nat)
    requires c == COMMA || c == COLON
    ensures Run(Lexed([c] + rest), Start(supply)) == Rejected(UnexpectedCharacter)
    ensures Run(Lexed([OpeningOf(tag)] + ([c] + rest)), Start(supply)) == Rejected(UnexpectedCharacter)
  {
    hide NextToken;
    hide Lexed;
    LexedPunctuation(c, rest);
    OpenRuns(tag, [c] + rest, supply);
  }

  /** An object whose first key is no string, and one that ends behind a key. */
  lemma WrongKey(rest: Text, supply: nat)
    requires Delimited(rest)
    ensures Run(Lexed([OPENBRACE] + ([110] + ULL + rest)), Start(supply)) == Rejected(UnquotedKey)
    ensures Run(Lexed([OPENBRACE] + ([QUOTE, 97, QUOTE] + ([CLOSEBRACE] + rest))), Start(supply)) == Rejected(UnexpectedCharacter)
  {
    hide NextToken;
    hide Lexed;
    WordPrinted(110, ULL, Null, rest);
    OpenRuns(ObjectTag, [110] + ULL + rest, supply);
    OpenRuns(ObjectTag, [QUOTE, 97, QUOTE] + ([CLOSEBRACE] + rest), supply);
    KeyToken([CLOSEBRACE] + rest);
    LexedPunctuation(CLOSEBRACE, rest);
    var m := Machine([Frame(ObjectTag, Some([97]), [])], false, supply);
    assert Step(Inside(ObjectTag, supply), Leaf(String([97]))) == Running(m);
    assert Run(Lexed([CLOSEBRACE] + rest), m) == Rejected(UnexpectedCharacter);
  }

  lemma KeyToken(rest: Text)
    requires Delimited(rest)
    ensures Lexed([QUOTE, 97, QUOTE] + rest) == Next([QUOTE, 97, QUOTE] + rest, Leaf(String([97])), Lexed(rest))
  {
    hide Lexed;
    var u := [QUOTE, 97, QUOTE] + rest;
    assert JsonPrint.PrintString([97]) == [QUOTE, 97, QUOTE] by {
      assert [97][1..] == [];
      assert JsonPrint.EscapeText([97]) == [97] + [];
    }
    JsonPrint.StringTokenPrinted([97], rest);
    hide NextToken;
    assert u[3..] == rest;
    LexedHead(u, 3, Leaf(String([97])), rest);
  }

  /** The thirty-third bracket that is opened. */
  lemma {:induction false} TooDeep(n: nat, m: Machine, rest: Text)
    requires |m.frames| <= STACK_SIZE && n > STACK_SIZE - |m.frames|
    ensures Run(Lexed(Opens(n, rest)), m) == Rejected(StackOverflow)
    decreases n
  {
    hide NextToken;
    hide Lexed;
    LexedPunctuation(OPENBRACKET, Opens(n - 1, rest));
    if |m.frames| < STACK_SIZE {
      TooDeep(n - 1, Step(m, Open(ArrayTag)).m, rest);
    }
  }

  /** No node is left for a member. */
  lemma NoNode(rest: Text)
    requires Delimited(rest)
    ensures Run(Lexed([OPENBRACKET] + ([110] + ULL + rest)), Start(0)) == Rejected(AllocationFailure)
  {
    hide NextToken;
    hide Lexed;
    WordPrinted(110, ULL, Null, rest);
    OpenRuns(ArrayTag, [110] + ULL + rest, 0);
  }

  /** A character that starts no token. */
  lemma WrongCharacter(c: Byte, rest: Text, supply: nat)
    requires c in {33, 35, 43, 47, 65, 95, 126}
    ensures Run(Lexed([c] + rest), Start(supply)) == Rejected(UnexpectedCharacter)
  {
    hide NumberToken;
    hide StringToken;
    hide WordToken;
    var u := [c] + rest;
    assert SpaceRun(u) == 0 && u[0..] == u;
    assert NextToken(u) == Lexeme(Junk(UnexpectedCharacter), 1);
    hide NextToken;
  }

  /** A word that is cut short. */
  lemma WrongWord(supply: nat)
    ensures Run(Lexed([116]), Start(supply)) == Rejected(BadIdentifier)
  {
    hide NumberToken;
    hide StringToken;
    assert SpaceRun([116]) == 0 && [116][0..] == [116];
    assert NextToken([116]) == Lexeme(Junk(BadIdentifier), 1);
    hide NextToken;
  }

  /** A minus without a digit. */
  lemma WrongNumber(supply: nat)
    ensures Run(Lexed([MINUS]), Start(supply)) == Rejected(BadNumber)
  {
    hide StringToken;
    hide WordToken;
    assert SpaceRun([MINUS]) == 0 && [MINUS][0..] == [MINUS];
    assert NextToken([MINUS]) == Lexeme(Junk(BadNumber), 1);
    hide NextToken;
  }

  // ----- what is let through -----

  /** An element that is one token, and what follows it. */
  lemma ElementRuns(u: Text, v: Scalar, rest: Text, separator: bool)
    requires Lexed(u) == Next(u, Leaf(v), Lexed(rest))
    ensures ParseMembers(ArrayTag, Lexed(u), separator) == FollowedBy(ArrayTag, Member([], v), Lexed(rest))
  {
    hide NextToken;
    hide Lexed;
    hide FollowedBy;
  }

  lemma Followed(tag: Tag, x: Member, ts: Tokens, ms: seq<Member>, rest: Tokens)
    requires ParseMembers(tag, ts, false) == Some((ms, rest))
    ensures FollowedBy(tag, x, ts) == Some(([x] + ms, rest))
  {
    hide ParseMembers;
  }

  lemma TrueLast(end: Text, rest: Text, separator: bool)
    requires Delimited(end) && ParseMembers(ArrayTag, Lexed(end), false) == Some(([], Lexed(rest)))
    ensures ParseMembers(ArrayTag, Lexed([116] + RUE + end), separator) == Some(([Member([], True)], Lexed(rest)))
  {
    hide NextToken;
    hide Lexed;
    hide ParseMembers;
    WordPrinted(116, RUE, True, end);
    ElementRuns([116] + RUE + end, True, end, separator);
    Followed(ArrayTag, Member([], True), Lexed(end), [], Lexed(rest));
    assert [Member([], True)] + [] == [Member([], True)];
  }

  /** A comma between members may be missing, and one may stand in front of the closing bracket. */
  lemma CommaIsOptional(rest: Text)
    ensures var two := Some(([Member([], Null), Member([], True)], Lexed(rest)));
      && ParseMembers(ArrayTag, Lexed([110] + ULL + ([SPACE] + ([116] + RUE + ([CLOSEBRACKET] + rest)))), true) == two
      && ParseMembers(ArrayTag, Lexed([110] + ULL + ([COMMA] + ([116] + RUE + ([COMMA] + ([CLOSEBRACKET] + rest))))), true) == two
  {
    hide NextToken;
    hide Lexed;
    hide ParseMembers;
    var close := [CLOSEBRACKET] + rest;
    CloseStep(ArrayTag, close, rest, false);
    CloseStep(ArrayTag, close, rest, true);
    CommaStep(ArrayTag, [COMMA] + close, close);
    var one, other := [116] + RUE + close, [116] + RUE + ([COMMA] + close);
    TrueLast(close, rest, false);
    TrueLast([COMMA] + close, rest, true);
    SkipBlank([SPACE], one);
    CommaStep(ArrayTag, [COMMA] + other, other);
    NullFirst([SPACE] + one, rest);
    NullFirst([COMMA] + other, rest);
  }

  lemma NullFirst(more: Text, rest: Text)
    requires Delimited(more) && ParseMembers(ArrayTag, Lexed(more), false) == Some(([Member([], True)], Lexed(rest)))
    ensures ParseMembers(ArrayTag, Lexed([110] + ULL + more), true) == Some(([Member([], Null), Member([], True)], Lexed(rest)))
  {
    hide NextToken;
    hide Lexed;
    hide ParseMembers;
    WordPrinted(110, ULL, Null, more);
    ElementRuns([110] + ULL + more, Null, more, true);
    Followed(ArrayTag, Member([], Null), Lexed(more), [Member([], True)], Lexed(rest));
    assert [Member([], Null)] + [Member([], True)] == [Member([], Null), Member([], True)];
  }

  /** The colon behind a key may be missing. */
  lemma ColonIsOptional(rest: Text)
    ensures ParseMembers(ObjectTag, Lexed([QUOTE, 97, QUOTE] + ([SPACE] + ([110] + ULL + ([CLOSEBRACE] + rest)))), true)
         == Some(([Member([97], Null)], Lexed(rest)))
  {
    hide NextToken;
    hide Lexed;
    var close := [CLOSEBRACE] + rest;
    var value := [110] + ULL + close;
    CloseStep(ObjectTag, close, rest, false);
    WordPrinted(110, ULL, Null, close);
    SkipBlank([SPACE], value);
    KeyToken([SPACE] + value);
    assert ParseAfterKey(Lexed(value), false) == Some((Null, Lexed(close)));
    hide ParseAfterKey;
    hide ParseValue;
    Followed(ObjectTag, Member([97], Null), Lexed(close), [], Lexed(rest));
    hide FollowedBy;
    assert [Member([97], Null)] + [] == [Member([97], Null)];
  }
}
