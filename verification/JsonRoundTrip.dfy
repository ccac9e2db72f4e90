/** The printer of whole values, and the round trip through the parser. */
module JsonRoundTrip {
  import opened ByteStrings
  import opened Decimals
  import opened JsonText
  import opened JsonTokens
  import opened Options
  import opened JsonGrammar
  import opened JsonPrint

  function Spaces(n: nat): Text {
    if n == 0 then [] else [SPACE] + Spaces(n - 1)
  }

  function OpeningOf(tag: Tag): Byte {
    if tag == ArrayTag then OPENBRACKET else OPENBRACE
  }

  function ClosingOf(tag: Tag): Byte {
    if tag == ArrayTag then CLOSEBRACKET else CLOSEBRACE
  }

  function Print(v: Value, indent: nat): (d: Text)
    ensures d != [] && !IsSpace(d[0])
    decreases v, 1
  {
    match v
    case Number(r) => PrintedNumberStart(r); PrintNumber(r)
    case String(s) => PrintString(s)
    case True => [116] + RUE
    case False => [102] + ALSE
    case Null => [110] + ULL
    case List(tag, ms) =>
      if ms == [] then [OpeningOf(tag), ClosingOf(tag)]
      else [OpeningOf(tag), NEWLINE] + PrintMembers(tag, ms, indent + SHIFT_WIDTH) + Spaces(indent) + [ClosingOf(tag)]
  }

  function PrintMembers(tag: Tag, ms: seq<Member>, indent: nat): Text
    decreases ms, 0
  {
    if ms == [] then []
    else PrintMember(tag, ms[0], indent) + LineEnd(|ms| > 1) + PrintMembers(tag, ms[1..], indent)
  }

  function PrintMember(tag: Tag, x: Member, indent: nat): Text
    decreases x, 2
  {
    Spaces(indent) + PrintKey(tag, x.key) + Print(x.value, indent)
  }

  function PrintKey(tag: Tag, key: Text): Text {
    if tag == ObjectTag then PrintString(key) + [COLON, SPACE] else []
  }

  function LineEnd(more: bool): (d: Text)
    ensures d != [] && IsDelim(d[0])
  {
    if more then [COMMA, NEWLINE] else [NEWLINE]
  }

  lemma PrintedNumberStart(r: real)
    ensures !IsSpace(PrintNumber(r)[0])
  {
    var k := RoundMicros(Abs(r));
    assert PrintNumber(r)[0] == MINUS || PrintNumber(r)[0] == NatDigits(k / MICROS)[0];
  }

  /** Values the printer and the parser agree on. */
  predicate Printable(v: Value)
    decreases v, 1
  {
    match v
    case Number(r) => IsMicros(r)
    case String(s) => ReadableText(s)
    case List(tag, ms) => PrintableAll(tag, ms)
    case _ => true
  }

  predicate PrintableAll(tag: Tag, ms: seq<Member>)
    decreases ms, 0
  {
    ms != [] ==> PrintableKey(tag, ms[0].key) && Printable(ms[0].value) && PrintableAll(tag, ms[1..])
  }

  predicate PrintableKey(tag: Tag, key: Text) {
    if tag == ArrayTag then key == [] else ReadableText(key)
  }

  // ----- what is read back -----

  /** The value that a printed value reads back as, if it can be read at all: numbers are rounded,
      members of arrays have no key. */
  ghost function Reread(v: Value): Option<Value>
    decreases v, 1
  {
    match v
    case Number(r) => Some(Number(Rounded(r)))
    case String(s) => if ReadableText(s) then Some(v) else None
    case List(tag, ms) => AsValue(tag, RereadAll(tag, ms))
    case _ => Some(v)
  }

  function AsValue(tag: Tag, ms: Option<seq<Member>>): Option<Value> {
    match ms
    case Some(all) => Some(List(tag, all))
    case None => None
  }

  ghost function RereadAll(tag: Tag, ms: seq<Member>): Option<seq<Member>>
    decreases ms, 0
  {
    if ms == [] then Some([])
    else
      var v, rest := Reread(ms[0].value), RereadAll(tag, ms[1..]);
      if UnreadableKey(tag, ms[0].key) || v == None || rest == None then None
      else Some([Member(KeyRead(tag, ms[0].key), v.value)] + rest.value)
  }

  predicate UnreadableKey(tag: Tag, key: Text) {
    tag == ObjectTag && !ReadableText(key)
  }

  function KeyRead(tag: Tag, key: Text): Text {
    if tag == ArrayTag then [] else key
  }

  /** A value reads back as itself exactly when it is printable. */
  lemma {:induction false} RereadIff(v: Value)
    ensures Reread(v) == Some(v) <==> Printable(v)
    decreases v, 1
  {
    match v
    case Number(r) => RoundedIff(r);
    case List(tag, ms) => RereadAllIff(tag, ms);
    case _ =>
  }

  lemma {:induction false} RereadAllIff(tag: Tag, ms: seq<Member>)
    ensures RereadAll(tag, ms) == Some(ms) <==> PrintableAll(tag, ms)
    decreases ms, 0
  {
    if ms != [] {
      RereadIff(ms[0].value);
      RereadAllIff(tag, ms[1..]);
      var x, v, rest := ms[0], Reread(ms[0].value), RereadAll(tag, ms[1..]);
      assert [x] + ms[1..] == ms;
      if RereadAll(tag, ms) == Some(ms) {
        var all := [Member(KeyRead(tag, x.key), v.value)] + rest.value;
        assert all[0] == ms[0] && all[1..] == rest.value;
      }
    }
  }

  /** The grammar's answer when r was read and post is left. */
  ghost function Back(r: Option<Value>, post: Text): Option<(Value, Tokens)> {
    if r == None then None else Some((r.value, Lexed(post)))
  }

  ghost function BackAll(r: Option<seq<Member>>, post: Text): Option<(seq<Member>, Tokens)> {
    if r == None then None else Some((r.value, Lexed(post)))
  }

  /** The grammar's answer for a member whose value was read as first. */
  function MemberThen(tag: Tag, key: Text, first: Option<(Value, Tokens)>): Option<(seq<Member>, Tokens)> {
    if first == None then None else FollowedBy(tag, Member(key, first.value.0), first.value.1)
  }

  /** The first token of a printed value, which may be unreadable. */
  predicate StartsPrinted(ts: Tokens) {
    ts.Next? && (ts.token.Leaf? || ts.token.Open? || ts.token.Junk?)
  }

  // ----- white space and single tokens -----

  predicate Blank(u: Text) {
    forall i :: 0 <= i < |u| ==> IsSpace(u[i])
  }

  lemma {:induction false} SpacesBlank(n: nat)
    ensures Blank(Spaces(n))
  {
    if n > 0 { SpacesBlank(n - 1); }
  }

  lemma {:induction false} SpaceRunOf(blank: Text, u: Text)
    requires Blank(blank) && u != [] && !IsSpace(u[0])
    ensures SpaceRun(blank + u) == |blank|
  {
    if blank == [] {
      assert blank + u == u;
    } else {
      SpaceRunOf(blank[1..], u);
      assert (blank + u)[1..] == blank[1..] + u;
    }
  }

  lemma TokenAfterBlank(blank: Text, u: Text)
    requires Blank(blank) && u != [] && !IsSpace(u[0])
    ensures NextToken(blank + u).token == NextToken(u).token
    ensures NextToken(blank + u).len == |blank| + NextToken(u).len
  {
    hide TokenHere;
    SpaceRunOf(blank, u);
    assert (blank + u)[|blank|..] == u && u[0..] == u;
  }

  lemma LexedBlank(blank: Text, u: Text)
    requires Blank(blank) && u != [] && !IsSpace(u[0])
    ensures Lexed(blank + u) == Next(blank + u, Lexed(u).token, Lexed(u).tail)
  {
    hide NextToken;
    TokenAfterBlank(blank, u);
    var n := NextToken(u).len;
    assert (blank + u)[|blank| + n..] == u[n..];
  }

  /** The grammar does not look at the text inside the tokens. */
  lemma SkipBlank(blank: Text, u: Text)
    requires Blank(blank) && u != [] && !IsSpace(u[0])
    ensures ParseValue(Lexed(blank + u)) == ParseValue(Lexed(u))
    ensures forall tag, s :: ParseMembers(tag, Lexed(blank + u), s) == ParseMembers(tag, Lexed(u), s)
    ensures forall s :: ParseAfterKey(Lexed(blank + u), s) == ParseAfterKey(Lexed(u), s)
  {
    hide NextToken;
    LexedBlank(blank, u);
  }

  lemma LexedHead(u: Text, n: nat, t: Token, rest: Text)
    requires u != [] && NextToken(u) == Lexeme(t, n) && u[n..] == rest
    ensures Lexed(u) == Next(u, t, Lexed(rest))
  {
    hide NextToken;
  }

  predicate IsPunctuation(c: Byte) {
    c == OPENBRACKET || c == CLOSEBRACKET || c == OPENBRACE || c == CLOSEBRACE || c == COLON || c == COMMA
  }

  function Punctuation(c: Byte): Token
    requires IsPunctuation(c)
  {
    if c == OPENBRACKET then Open(ArrayTag)
    else if c == CLOSEBRACKET then Close(ArrayTag)
    else if c == OPENBRACE then Open(ObjectTag)
    else if c == CLOSEBRACE then Close(ObjectTag)
    else if c == COLON then Colon
    else Comma
  }

  lemma LexedPunctuation(c: Byte, rest: Text)
    requires IsPunctuation(c)
    ensures Lexed([c] + rest) == Next([c] + rest, Punctuation(c), Lexed(rest))
  {
    hide Lexed;
    hide NextToken;
    var u := [c] + rest;
    PunctuationToken(c, u);
    LexedHead(u, 1, Punctuation(c), rest);
  }

  lemma PunctuationToken(c: Byte, u: Text)
    requires IsPunctuation(c) && u != [] && u[0] == c
    ensures NextToken(u) == Lexeme(Punctuation(c), 1)
  {
    hide NumberToken;
    hide StringToken;
    hide WordToken;
    assert SpaceRun(u) == 0;
    assert u[0..] == u;
  }

  lemma WordPrinted(c: Byte, word: Text, v: Scalar, post: Text)
    requires (c, word, v) in {(116, RUE, True), (102, ALSE, False), (110, ULL, Null)}
    requires Delimited(post)
    ensures Lexed([c] + word + post) == Next([c] + word + post, Leaf(v), Lexed(post))
  {
    hide NumberToken;
    hide StringToken;
    var u := [c] + word + post;
    var w := u[1..];
    assert w == word + post;
    assert w[..|word|] == word && Peek(w, |word|) == Peek(post, 0);
    assert SpaceRun(u) == 0 && u[0..] == u;
    assert TokenHere(u) == WordToken(u, word, v);
    LexedHead(u, 1 + |word|, Leaf(v), post);
  }

  lemma ScalarPrinted(v: Scalar, indent: nat, post: Text)
    requires Delimited(post)
    ensures ParseValue(Lexed(Print(v, indent) + post)) == Back(Reread(v), post)
    ensures StartsPrinted(Lexed(Print(v, indent) + post))
  {
    hide NextToken;
    var d := Print(v, indent);
    assert (d + post)[|d|..] == post;
    match v
    case Number(r) => NumberTokenPrinted(r, post);
    case String(s) => StringTokenPrinted(s, post);
    case True => WordPrinted(116, RUE, True, post);
    case False => WordPrinted(102, ALSE, False, post);
    case Null => WordPrinted(110, ULL, Null, post);
  }

  // ----- single steps of the grammar over a text -----

  lemma OpenStep(tag: Tag, u: Text, rest: Text)
    requires u == [OpeningOf(tag)] + rest
    ensures StartsValue(Lexed(u))
    ensures ParseValue(Lexed(u)) == AsList(tag, ParseMembers(tag, Lexed(rest), true))
  {
    hide NextToken;
    hide Lexed;
    LexedPunctuation(OpeningOf(tag), rest);
  }

  lemma CloseStep(tag: Tag, u: Text, rest: Text, separator: bool)
    requires u == [ClosingOf(tag)] + rest
    ensures ParseMembers(tag, Lexed(u), separator) == Some(([], Lexed(rest)))
  {
    hide NextToken;
    hide Lexed;
    LexedPunctuation(ClosingOf(tag), rest);
  }

  lemma CommaStep(tag: Tag, u: Text, rest: Text)
    requires u == [COMMA] + rest
    ensures ParseMembers(tag, Lexed(u), false) == ParseMembers(tag, Lexed(rest), true)
  {
    hide NextToken;
    hide Lexed;
    LexedPunctuation(COMMA, rest);
  }

  lemma ColonStep(u: Text, value: Text)
    requires u == [COLON] + ([SPACE] + value) && value != [] && !IsSpace(value[0])
    requires StartsPrinted(Lexed(value))
    ensures ParseAfterKey(Lexed(u), false) == ParseValue(Lexed(value))
  {
    hide NextToken;
    hide Lexed;
    LexedPunctuation(COLON, [SPACE] + value);
    SkipBlank([SPACE], value);
  }

  lemma KeyStep(key: Text, u: Text, rest: Text, separator: bool)
    requires Delimited(rest) && u == PrintString(key) + rest
    ensures ParseMembers(ObjectTag, Lexed(u), separator)
         == if ReadableText(key) then MemberThen(ObjectTag, key, ParseAfterKey(Lexed(rest), false)) else None
  {
    hide NextToken;
    StringTokenPrinted(key, rest);
    assert u[|PrintString(key)|..] == rest;
    if ReadableText(key) {
      LexedHead(u, |PrintString(key)|, Leaf(String(key)), rest);
    } else {
      LexedHead(u, 1, Junk(BadString), u[1..]);
    }
  }

  // ----- the round trip -----

  /** The members behind `lead`, up to and with the closing bracket. */
  function Body(tag: Tag, ms: seq<Member>, indent: nat, lead: Text, blank: Text, post: Text): Text {
    lead + PrintMembers(tag, ms, indent) + blank + [ClosingOf(tag)] + post
  }

  lemma ListText(tag: Tag, ms: seq<Member>, indent: nat, post: Text)
    ensures Print(List(tag, ms), indent) + post
         == [OpeningOf(tag)] + if ms == [] then Body(tag, ms, indent, [], [], post)
                               else Body(tag, ms, indent + SHIFT_WIDTH, [NEWLINE], Spaces(indent), post)
  {
    if ms == [] {
      assert [OpeningOf(tag), ClosingOf(tag)] + post == [OpeningOf(tag)] + ([] + [] + [] + [ClosingOf(tag)] + post);
    } else {
      hide PrintMembers;
      hide Spaces;
      OpenText(OpeningOf(tag), PrintMembers(tag, ms, indent + SHIFT_WIDTH), Spaces(indent), ClosingOf(tag), post);
    }
  }

  lemma OpenText(open: Byte, inner: Text, sp: Text, close: Byte, post: Text)
    ensures ([open, NEWLINE] + inner + sp + [close]) + post == [open] + ([NEWLINE] + inner + sp + [close] + post)
  {
    assert [open, NEWLINE] == [open] + [NEWLINE];
  }

  lemma MembersText(tag: Tag, ms: seq<Member>, indent: nat, lead: Text, blank: Text, post: Text)
    requires ms != []
    ensures Body(tag, ms, indent, lead, blank, post)
         == (lead + Spaces(indent)) + (PrintKey(tag, ms[0].key) + (Print(ms[0].value, indent)
            + (LineEnd(|ms| > 1) + Body(tag, ms[1..], indent, [], blank, post))))
  {
    var x, tail := ms[0], blank + [ClosingOf(tag)] + post;
    var sp, k, p := Spaces(indent), PrintKey(tag, x.key), Print(x.value, indent);
    var line, more := LineEnd(|ms| > 1), PrintMembers(tag, ms[1..], indent);
    BodyText(tag, ms, indent, lead, blank, post);
    BodyText(tag, ms[1..], indent, [], blank, post);
    assert [] + more == more;
    Regroup(lead, sp, k, p, line, more, tail);
  }

  lemma BodyText(tag: Tag, ms: seq<Member>, indent: nat, lead: Text, blank: Text, post: Text)
    ensures Body(tag, ms, indent, lead, blank, post)
         == (lead + PrintMembers(tag, ms, indent)) + (blank + [ClosingOf(tag)] + post)
  {
  }

  lemma Regroup(lead: Text, s: Text, k: Text, p: Text, l: Text, m: Text, t: Text)
    ensures (lead + (s + k + p + l + m)) + t == (lead + s) + (k + (p + (l + (m + t))))
  {
    assert m + t + [] == m + t;
    assert (lead + (s + k + p + l + m)) + t == (lead + (s + k + p)) + (l + (m + t));
    assert lead + (s + k + p) == (lead + s) + (k + p);
    assert ((lead + s) + (k + p)) + (l + (m + t)) == (lead + s) + (k + (p + (l + (m + t))));
  }

  /** The grammar reads a printed value back, rounded, and stops right behind it; or it refuses it
      for a character that cannot be read. */
  lemma {:induction false} ValuePrinted(v: Value, indent: nat, post: Text)
    requires Delimited(post)
    ensures ParseValue(Lexed(Print(v, indent) + post)) == Back(Reread(v), post)
    ensures StartsPrinted(Lexed(Print(v, indent) + post))
    decreases v, 1
  {
    hide NextToken;
    hide Lexed;
    if v.List? {
      var tag, ms := v.tag, v.members;
      ListText(tag, ms, indent, post);
      var body;
      if ms == [] {
        body := Body(tag, ms, indent, [], [], post);
        MembersPrinted(tag, ms, indent, [], [], post, true);
      } else {
        body := Body(tag, ms, indent + SHIFT_WIDTH, [NEWLINE], Spaces(indent), post);
        SpacesBlank(indent);
        MembersPrinted(tag, ms, indent + SHIFT_WIDTH, [NEWLINE], Spaces(indent), post, true);
      }
      OpenStep(tag, Print(v, indent) + post, body);
    } else {
      ScalarPrinted(v, indent, post);
    }
  }

  /** Members between two stretches of white space, and the closing bracket. */
  lemma {:induction false} MembersPrinted(tag: Tag, ms: seq<Member>, indent: nat, lead: Text, blank: Text, post: Text, separator: bool)
    requires Blank(lead) && Blank(blank)
    ensures ParseMembers(tag, Lexed(Body(tag, ms, indent, lead, blank, post)), separator) == BackAll(RereadAll(tag, ms), post)
    decreases ms, 0
  {
    hide NextToken;
    hide Lexed;
    hide ParseMembers;
    if ms == [] {
      var u := [ClosingOf(tag)] + post;
      assert Body(tag, ms, indent, lead, blank, post) == (lead + blank) + u;
      SkipBlank(lead + blank, u);
      CloseStep(tag, u, post, separator);
    } else {
      var x := ms[0];
      var after := LineEnd(|ms| > 1) + Body(tag, ms[1..], indent, [], blank, post);
      SpacesBlank(indent);
      MembersText(tag, ms, indent, lead, blank, post);
      ValuePrinted(x.value, indent, after);
      MoreMembersPrinted(tag, ms[1..], indent, blank, post);
      MemberPrinted(tag, x, Print(x.value, indent) + after, lead + Spaces(indent), separator);
    }
  }

  /** What stands between a member and the one after it, or the closing bracket. */
  lemma {:induction false} MoreMembersPrinted(tag: Tag, ms: seq<Member>, indent: nat, blank: Text, post: Text)
    requires Blank(blank)
    ensures ParseMembers(tag, Lexed(LineEnd(ms != []) + Body(tag, ms, indent, [], blank, post)), false)
         == BackAll(RereadAll(tag, ms), post)
    decreases ms, 1
  {
    hide NextToken;
    hide Lexed;
    hide ParseMembers;
    hide PrintMembers;
    hide RereadAll;
    var line := Body(tag, ms, indent, [NEWLINE], blank, post);
    var u := LineEnd(ms != []) + Body(tag, ms, indent, [], blank, post);
    MembersPrinted(tag, ms, indent, [NEWLINE], blank, post, ms != []);
    var body := Body(tag, ms, indent, [], blank, post);
    assert line == [NEWLINE] + body;
    if ms != [] {
      assert u == [COMMA] + line;
      CommaStep(tag, u, line);
    }
  }

  lemma ElementStep(value: Text, separator: bool)
    requires StartsPrinted(Lexed(value))
    ensures ParseMembers(ArrayTag, Lexed(value), separator) == MemberThen(ArrayTag, [], ParseValue(Lexed(value)))
  {
    hide Lexed;
    hide FollowedBy;
  }

  /** One member, whose value's text and what follows is value. */
  lemma MemberPrinted(tag: Tag, x: Member, value: Text, blank: Text, separator: bool)
    requires Blank(blank) && value != [] && !IsSpace(value[0]) && StartsPrinted(Lexed(value))
    ensures ParseMembers(tag, Lexed(blank + (PrintKey(tag, x.key) + value)), separator)
         == if UnreadableKey(tag, x.key) then None else MemberThen(tag, KeyRead(tag, x.key), ParseValue(Lexed(value)))
  {
    hide NextToken;
    hide Lexed;
    hide ParseMembers;
    hide ParseValue;
    hide ParseAfterKey;
    hide MemberThen;
    var u := PrintKey(tag, x.key) + value;
    if tag == ArrayTag {
      assert u == value;
      ElementStep(value, separator);
    } else {
      var colon := [COLON] + ([SPACE] + value);
      assert u == PrintString(x.key) + colon;
      KeyStep(x.key, u, colon, separator);
      ColonStep(colon, value);
    }
    SkipBlank(blank, u);
  }

  /** Parsing what the printer wrote gives the value back exactly when every string can be read and
      every number is a multiple of 10^-6, the value nests at most 32 deep, and its nodes can be
      supplied. */
  lemma RoundTrip(v: Value, supply: nat)
    ensures Run(Lexed(Print(v, 0)), Start(supply)) == Parsed(v, End)
       <==> Printable(v) && Depth(v) <= 32 && Nodes(v) <= supply
  {
    hide Printable;
    hide Reread;
    hide Print;
    ValuePrinted(v, 0, []);
    RereadIff(v);
    assert Print(v, 0) + [] == Print(v, 0);
    ParserIsGrammar(Lexed(Print(v, 0)), supply, v, End);
  }

  /** A third is printed with six digits, and read back as another number. */
  lemma ThirdIsRounded(supply: nat)
    ensures Run(Lexed(Print(Number(1.0 / 3.0), 0)), Start(supply)) != Parsed(Number(1.0 / 3.0), End)
  {
    hide Run;
    RoundTrip(Number(1.0 / 3.0), supply);
  }

  // ----- values character by character -----

  lemma FourSpaces()
    ensures Spaces(0) == [] && Spaces(4) == [32, 32, 32, 32] && Spaces(8) == Spaces(4) + Spaces(4)
  {
    assert Spaces(2) == [32] + Spaces(1);
    assert Spaces(4) == [32] + ([32] + Spaces(2));
    assert Spaces(6) == [32] + ([32] + Spaces(4));
    assert Spaces(8) == [32] + ([32] + Spaces(6));
  }

  lemma PrintOne(tag: Tag, x: Member, indent: nat)
    ensures PrintMembers(tag, [x], indent) == PrintMember(tag, x, indent) + [NEWLINE]
  {
    hide PrintMember;
    assert [x][1..] == [];
  }

  /** An object with one member takes three lines. */
  lemma SampleObject()
    ensures Print(List(ObjectTag, [Member([97], True)]), 0)
         == [123, 10] + ([32, 32, 32, 32] + [34, 97, 34, 58, 32] + [116, 114, 117, 101] + [10]) + [125]
  {
    var x := Member([97], True);
    FourSpaces();
    PrintOne(ObjectTag, x, 4);
    assert PrintKey(ObjectTag, [97]) == [34, 97, 34, 58, 32] by {
      assert [97][1..] == [];
      assert EscapeText([97]) == [97] + [];
    }
    assert PrintMember(ObjectTag, x, 4) == Spaces(4) + [34, 97, 34, 58, 32] + [116, 114, 117, 101];
    hide PrintMembers;
    hide PrintMember;
    hide Spaces;
    assert Print(List(ObjectTag, [x]), 0) == [123, 10] + PrintMembers(ObjectTag, [x], 4) + Spaces(0) + [125];
  }

  /** An array, four characters in, indents its members by eight and its bracket by four. */
  lemma SampleArray()
    ensures Print(List(ArrayTag, [Member([], True), Member([], Null)]), 4)
         == [91, 10] + (Spaces(8) + [116, 114, 117, 101] + [44, 10] + (Spaces(8) + [110, 117, 108, 108] + [10]))
            + [32, 32, 32, 32] + [93]
  {
    var t, n := Member([], True), Member([], Null);
    FourSpaces();
    PrintOne(ArrayTag, n, 8);
    assert [t, n][1..] == [n];
    assert PrintMember(ArrayTag, t, 8) == Spaces(8) + [116, 114, 117, 101];
    assert PrintMember(ArrayTag, n, 8) == Spaces(8) + [110, 117, 108, 108];
    assert PrintMembers(ArrayTag, [t, n], 8) == PrintMember(ArrayTag, t, 8) + [44, 10] + PrintMembers(ArrayTag, [n], 8);
    hide PrintMembers;
    hide PrintMember;
    hide Spaces;
    assert Print(List(ArrayTag, [t, n]), 4) == [91, 10] + PrintMembers(ArrayTag, [t, n], 8) + Spaces(4) + [93];
  }
}
