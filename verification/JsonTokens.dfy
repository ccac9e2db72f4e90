/** JSON values and the tokens of a text. */
module JsonTokens {
  import opened ByteStrings
  import opened JsonText
  import opened JsonNumber
  import opened Options

  datatype Tag = ArrayTag | ObjectTag

  /** Members of an array have no key; the model writes the empty text there. */
  datatype Value =
    | Number(r: real)
    | String(s: Text)
    | True
    | False
    | Null
    | List(tag: Tag, members: seq<Member>)

  datatype Member = Member(key: Text, value: Value)

  /** A value that is one token. */
  type Scalar = v: Value | !v.List? witness Null

  datatype Errno =
    | BadNumber
    | BadString
    | BadIdentifier
    | StackOverflow
    | StackUnderflow
    | MismatchBracket
    | UnexpectedCharacter
    | UnquotedKey
    | BreakingBad
    | AllocationFailure

  // ----- tokens -----

  /** Overrun: the white space runs up to the NUL, and the parser steps over it. */
  datatype Token =
    | Leaf(v: Scalar)
    | Open(tag: Tag)
    | Close(tag: Tag)
    | Colon
    | Comma
    | Junk(e: Errno)
    | Overrun

  datatype Lexeme = Lexeme(token: Token, len: nat)

  const RUE: Text := [114, 117, 101]
  const ALSE: Text := [97, 108, 115, 101]
  const ULL: Text := [117, 108, 108]

  function SpaceRun(u: Text): (k: nat)
    ensures k <= |u|
    ensures k < |u| ==> !IsSpace(u[k])
  {
    if u != [] && IsSpace(u[0]) then 1 + SpaceRun(u[1..]) else 0
  }

  predicate Spells(u: Text, word: Text) {
    |word| <= |u| && u[..|word|] == word && IsDelim(Peek(u, |word|))
  }

  ghost function NumberToken(u: Text): (x: Lexeme)
    requires u != [] && (IsDigit(u[0]) || u[0] == MINUS)
    ensures 0 < x.len <= |u|
  {
    NumeralLength(u);
    var n := SplitNumeral(u);
    if u[0] == MINUS && !IsDigit(Peek(u, 1)) && Peek(u, 1) != DOT then Lexeme(Junk(BadNumber), 1)
    else if !IsDelim(Peek(u, n.len)) then Lexeme(Junk(BadNumber), n.len)
    else Lexeme(Leaf(Number(ConvertedValue(n))), n.len)
  }

  ghost function StringToken(u: Text): (x: Lexeme)
    requires u != [] && u[0] == QUOTE
    ensures 0 < x.len <= |u|
  {
    match ScanString(u[1..])
    case BadScan => Lexeme(Junk(BadString), 1)
    case Scanned(b, n, closed) =>
      if !IsDelim(Peek(u, n + 1)) then Lexeme(Junk(BadString), 1)
      else Lexeme(Leaf(String(StringValue(u[1..], Scanned(b, n, closed)))), n + 1)
  }

  function WordToken(u: Text, word: Text, v: Scalar): (x: Lexeme)
    requires u != []
    ensures 0 < x.len <= |u|
  {
    if Spells(u[1..], word) then Lexeme(Leaf(v), 1 + |word|) else Lexeme(Junk(BadIdentifier), 1)
  }

  /** The token that starts with the first character of u. */
  ghost function TokenHere(u: Text): (x: Lexeme)
    requires u != []
    ensures 0 < x.len <= |u|
    ensures !x.token.Overrun?
  {
    var c := u[0];
    if IsDigit(c) || c == MINUS then NumberToken(u)
    else if c == QUOTE then StringToken(u)
    else if c == 116 then WordToken(u, RUE, True)
    else if c == 102 then WordToken(u, ALSE, False)
    else if c == 110 then WordToken(u, ULL, Null)
    else if c == OPENBRACKET then Lexeme(Open(ArrayTag), 1)
    else if c == CLOSEBRACKET then Lexeme(Close(ArrayTag), 1)
    else if c == OPENBRACE then Lexeme(Open(ObjectTag), 1)
    else if c == CLOSEBRACE then Lexeme(Close(ObjectTag), 1)
    else if c == COLON then Lexeme(Colon, 1)
    else if c == COMMA then Lexeme(Comma, 1)
    else Lexeme(Junk(UnexpectedCharacter), 1)
  }

  ghost function NextToken(u: Text): (x: Lexeme)
    requires u != []
    ensures 0 < x.len <= |u|
  {
    var w := SpaceRun(u);
    if w == |u| then Lexeme(Overrun, |u|)
    else var x := TokenHere(u[w..]); Lexeme(x.token, w + x.len)
  }

  /** The tokens of a text; `text` is what is unread where the token starts to be looked for. */
  datatype Tokens = End | Next(text: Text, token: Token, tail: Tokens)

  ghost function Lexed(u: Text): Tokens
    decreases |u|
  {
    if u == [] then End
    else var x := NextToken(u); Next(u, x.token, Lexed(u[x.len..]))
  }

  function Unread(ts: Tokens): Text {
    if ts.End? then [] else ts.text
  }

  lemma UnreadLexed(u: Text)
    ensures Unread(Lexed(u)) == u
  {
  }
}
