/** Strings in every spelling that section 7 of RFC 8259 allows: each character plain, by its short
    escape or as a code unit in four hex digits of either case. */
module JsonSpelling {
  import opened ByteStrings
  import opened JsonText
  import opened JsonTokens

  /** One character as it is spelled. upper tells of each hex digit whether it is a capital. */
  datatype Piece = Plain(c: Byte) | Short(letter: Byte) | Unit(code: int, upper: seq<bool>)

  /** The short escapes, letter by letter. */
  const ESCAPES: map<Byte, Byte> :=
    map[34 := 34, 92 := 92, 47 := 47, 98 := 8, 102 := 12, 110 := 10, 114 := 13, 116 := 9]

  predicate WellSpelled(p: Piece) {
    match p
    case Plain(c) => c >= SPACE && c != QUOTE && c != BACKSLASH && c != DELETE
    case Short(letter) => letter in ESCAPES
    case Unit(code, upper) => 0 <= code < 0x1_0000 && |upper| == 4
  }

  predicate AllWellSpelled(ps: seq<Piece>) {
    forall i :: 0 <= i < |ps| ==> WellSpelled(ps[i])
  }

  function HexDigit(v: int, upper: bool): Byte
    requires 0 <= v < 16
  {
    if v < 10 then 48 + v else if upper then 55 + v else 87 + v
  }

  function SpellPiece(p: Piece): Text
    requires WellSpelled(p)
  {
    match p
    case Plain(c) => [c]
    case Short(letter) => [BACKSLASH, letter]
    case Unit(code, upper) =>
      [BACKSLASH, 117, HexDigit(code / 4096, upper[0]), HexDigit(code / 256 % 16, upper[1]),
       HexDigit(code / 16 % 16, upper[2]), HexDigit(code % 16, upper[3])]
  }

  /** The bytes that are meant. */
  function PieceBytes(p: Piece): Text
    requires WellSpelled(p)
  {
    match p
    case Plain(c) => [c]
    case Short(letter) => [ESCAPES[letter]]
    case Unit(code, _) => Utf8(code)
  }

  function Spelled(ps: seq<Piece>): Text
    requires AllWellSpelled(ps)
  {
    if ps == [] then [] else SpellPiece(ps[0]) + Spelled(ps[1..])
  }

  function Meant(ps: seq<Piece>): Text
    requires AllWellSpelled(ps)
  {
    if ps == [] then [] else PieceBytes(ps[0]) + Meant(ps[1..])
  }

  lemma HexDigitBack(v: int, upper: bool)
    requires 0 <= v < 16
    ensures IsHex(HexDigit(v, upper)) && HexValue(HexDigit(v, upper)) == v
  {
  }

  /** Four hex digits, in any case of their letters, are the code unit they were printed from. */
  lemma HexQuadBack(code: int, upper: seq<bool>, rest: Text)
    requires 0 <= code < 0x1_0000 && |upper| == 4
    ensures var u := SpellPiece(Unit(code, upper)) + rest;
      |u| >= 6 && (forall i :: 2 <= i < 6 ==> IsHex(u[i])) && HexQuad(u) == code
  {
    hide IsHex;
    hide HexValue;
    hide HexDigit;
    HexDigitBack(code / 4096, upper[0]);
    HexDigitBack(code / 256 % 16, upper[1]);
    HexDigitBack(code / 16 % 16, upper[2]);
    HexDigitBack(code % 16, upper[3]);
    FourDigits(code);
  }

  lemma FourDigits(code: int)
    requires 0 <= code < 0x1_0000
    ensures ((code / 4096 * 16 + code / 256 % 16) * 16 + code / 16 % 16) * 16 + code % 16 == code
  {
    assert code / 256 / 16 == code / 4096;
    assert code / 16 / 16 == code / 256;
  }

  lemma ScanPiece(p: Piece, rest: Text)
    requires WellSpelled(p)
    ensures ScanString(SpellPiece(p) + rest) == ScanString(rest).After(PieceBytes(p), |SpellPiece(p)|)
  {
    var u := SpellPiece(p) + rest;
    assert u[|SpellPiece(p)|..] == rest;
    match p
    case Plain(_) =>
    case Short(letter) => assert Peek(u, 1) == letter;
    case Unit(code, upper) =>
      hide Utf8;
      hide HexQuad;
      HexQuadBack(code, upper, rest);
      assert Peek(u, 1) == 117;
      assert DecodeEscape(u) == Escaped(Utf8(code), 6);
  }

  /** A string reads as the bytes that are meant, however it is spelled. */
  lemma {:induction false} ScanSpelled(ps: seq<Piece>, post: Text)
    requires AllWellSpelled(ps)
    ensures ScanString(Spelled(ps) + [QUOTE] + post) == Scanned(Meant(ps), |Spelled(ps)| + 1, true)
  {
    if ps == [] {
      assert Spelled(ps) + [QUOTE] + post == [QUOTE] + post;
    } else {
      hide ScanString;
      hide SpellPiece;
      hide PieceBytes;
      hide WellSpelled;
      var rest := Spelled(ps[1..]) + [QUOTE] + post;
      assert Spelled(ps) + [QUOTE] + post == SpellPiece(ps[0]) + rest;
      ScanPiece(ps[0], rest);
      ScanSpelled(ps[1..], post);
    }
  }

  /** A spelled string is one token; a NUL that was spelled ends its text. */
  lemma StringTokenSpelled(ps: seq<Piece>, post: Text)
    requires AllWellSpelled(ps) && Delimited(post)
    ensures NextToken([QUOTE] + Spelled(ps) + [QUOTE] + post)
         == Lexeme(Leaf(String(CString(Meant(ps)))), |Spelled(ps)| + 2)
  {
    hide CString;
    hide ScanString;
    hide Spelled;
    hide Meant;
    var u := [QUOTE] + Spelled(ps) + [QUOTE] + post;
    assert u[1..] == Spelled(ps) + [QUOTE] + post;
    ScanSpelled(ps, post);
    assert u[|Spelled(ps)| + 2..] == post;
    assert Peek(u, |Spelled(ps)| + 2) == Peek(post, 0);
    assert SpaceRun(u) == 0 && u[0..] == u;
  }

  /** A backslash before any other letter, or \u before something else than four hex digits, makes
      the string unreadable. */
  lemma UnknownEscape(u: Text)
    requires u != [] && u[0] == BACKSLASH
    ensures DecodeEscape(u) == BadEscape
       <==> |u| == 1 || (u[1] !in ESCAPES && !(u[1] == 117 && |u| >= 6 && forall i :: 2 <= i < 6 ==> IsHex(u[i])))
    ensures DecodeEscape(u) == BadEscape ==> ScanString(u) == BadScan
  {
    hide HexQuad;
    hide IsHex;
  }

  /** An escaped solidus is a solidus, and so is its code unit. */
  lemma Solidus()
    ensures ScanString([BACKSLASH, SLASH, QUOTE]) == Scanned([SLASH], 3, true)
    ensures ScanString([BACKSLASH, 117, 48, 48, 50, 102, QUOTE]) == Scanned([SLASH], 7, true)
  {
    hide ScanString;
    hide HexQuad;
    ScanSpelled([Short(SLASH)], []);
    ScanSpelled([Unit(0x2F, [false, false, false, false])], []);
    OnePiece(Short(SLASH));
    OnePiece(Unit(0x2F, [false, false, false, false]));
    hide Spelled;
    hide Meant;
    assert [BACKSLASH, SLASH] + [QUOTE] + [] == [BACKSLASH, SLASH, QUOTE];
    assert [BACKSLASH, 117, 48, 48, 50, 102] + [QUOTE] + [] == [BACKSLASH, 117, 48, 48, 50, 102, QUOTE];
  }

  lemma OnePiece(p: Piece)
    requires WellSpelled(p)
    ensures Spelled([p]) == SpellPiece(p) && Meant([p]) == PieceBytes(p)
  {
    assert [p][1..] == [];
  }
}
