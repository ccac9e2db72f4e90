/** Characters of the JSON text, and the string syntax: escapes, UTF-8 and the scan of one
    string. A text is the part of the input before its terminating NUL. */
module JsonText {
  import opened ByteStrings

  const QUOTE: Byte := 34
  const PLUS: Byte := 43
  const COMMA: Byte := 44
  const MINUS: Byte := 45
  const DOT: Byte := 46
  const SLASH: Byte := 47
  const COLON: Byte := 58
  const OPENBRACKET: Byte := 91
  const BACKSLASH: Byte := 92
  const CLOSEBRACKET: Byte := 93
  const OPENBRACE: Byte := 123
  const CLOSEBRACE: Byte := 125
  const DELETE: Byte := 127
  const NEWLINE: Byte := 10

  /** What a read at offset i finds: the text, then its terminating NUL. */
  function Peek(u: Text, i: nat): Byte {
    if i < |u| then u[i] else 0
  }

  predicate IsDelim(c: Byte) {
    c == COMMA || c == COLON || c == CLOSEBRACKET || c == CLOSEBRACE || IsSpace(c) || c == 0
  }

  /** What a token may be followed by. */
  predicate Delimited(post: Text) {
    IsDelim(Peek(post, 0))
  }

  predicate IsHex(c: Byte) {
    IsDigit(c) || 65 <= c <= 70 || 97 <= c <= 102
  }

  function HexValue(c: Byte): (v: int)
    requires IsHex(c)
    ensures 0 <= v < 16
  {
    if c <= 57 then c - 48 else if c <= 70 then c - 65 + 10 else c - 97 + 10
  }

  // ----- UTF-8 -----

  /** Encoding of a 16-bit code unit in one, two or three bytes. */
  function Utf8(c: int): (bytes: Text)
    requires 0 <= c < 0x1_0000
    ensures 1 <= |bytes| <= 3
  {
    if c < 0x80 then [c]
    else if c < 0x800 then [0xC0 + c / 64, 0x80 + c % 64]
    else [0xE0 + c / 4096, 0x80 + (c / 64) % 64, 0x80 + c % 64]
  }

  /** Section 3 of RFC 3629 read backwards: the lead byte gives the length, every other byte
      carries six bits. */
  function Utf8Decode(bytes: Text): (c: int)
    requires 1 <= |bytes| <= 3
  {
    match |bytes|
    case 1 => bytes[0]
    case 2 => (bytes[0] as int - 0xC0) * 64 + (bytes[1] as int - 0x80)
    case _ => (bytes[0] as int - 0xE0) * 4096 + (bytes[1] as int - 0x80) * 64 + (bytes[2] as int - 0x80)
  }

  predicate IsContinuation(b: Byte) {
    0x80 <= b < 0xC0
  }

  lemma Utf8RoundTrip(c: int)
    requires 0 <= c < 0x1_0000
    ensures Utf8Decode(Utf8(c)) == c
    ensures |Utf8(c)| == 1 <==> Utf8(c)[0] < 0x80
    ensures |Utf8(c)| == 2 <==> 0xC2 <= Utf8(c)[0] < 0xE0
    ensures |Utf8(c)| == 3 <==> 0xE0 <= Utf8(c)[0] < 0xF0
    ensures forall i :: 0 < i < |Utf8(c)| ==> IsContinuation(Utf8(c)[i])
  {
    if c >= 0x800 {
      assert c / 4096 == (c / 64) / 64;
      assert c == (c / 4096) * 4096 + ((c / 64) % 64) * 64 + c % 64;
    }
  }

  /** The code builds these bytes with shifts and masks. */
  lemma Utf8Bits(c: bv32)
    requires c < 0x1_0000
    ensures c < 0x800 ==> (0xC0 | (c >> 6)) == 0xC0 + c / 64
    ensures (0x80 | (c & 0x3F)) == 0x80 + c % 64
    ensures (0xE0 | (c >> 12)) == 0xE0 + c / 4096
    ensures (0x80 | ((c >> 6) & 0x3F)) == 0x80 + (c / 64) % 64
  {
  }

  // ----- escapes -----

  datatype Escape = Escaped(bytes: Text, len: nat) | BadEscape

  function HexQuad(u: Text): (c: int)
    requires |u| >= 6 && (forall i :: 2 <= i < 6 ==> IsHex(u[i]))
    ensures 0 <= c < 0x1_0000
  {
    ((HexValue(u[2]) * 16 + HexValue(u[3])) * 16 + HexValue(u[4])) * 16 + HexValue(u[5])
  }

  /** The escape at the head of u, by section 7 of RFC 8259; every \u escape stands for one
      code unit on its own. */
  function DecodeEscape(u: Text): (e: Escape)
    requires u != [] && u[0] == BACKSLASH
    ensures e.Escaped? ==> 1 <= |e.bytes| && |e.bytes| + 1 <= e.len <= |u|
  {
    var c := Peek(u, 1);
    if c == BACKSLASH || c == QUOTE || c == SLASH then Escaped([c], 2)
    else if c == 98 then Escaped([8], 2)      // \b
    else if c == 102 then Escaped([12], 2)    // \f
    else if c == 110 then Escaped([10], 2)    // \n
    else if c == 114 then Escaped([13], 2)    // \r
    else if c == 116 then Escaped([9], 2)     // \t
    else if c == 117 then                     // \uXXXX
      if |u| >= 6 && (forall i :: 2 <= i < 6 ==> IsHex(u[i])) then Escaped(Utf8(HexQuad(u)), 6)
      else BadEscape
    else BadEscape
  }

  // ----- strings -----

  datatype Scan = Scanned(bytes: Text, len: nat, closed: bool) | BadScan {
    /** This scan, continued from one that left `pre` behind after `n` characters. */
    function After(pre: Text, n: nat): Scan {
      match this
      case Scanned(b, l, c) => Scanned(pre + b, n + l, c)
      case BadScan => BadScan
    }
  }

  /** The string whose first character is at the head of u (its opening quote already read). */
  function ScanString(u: Text): (r: Scan)
    ensures r.Scanned? ==> |r.bytes| <= r.len <= |u|
    ensures r.Scanned? && r.closed ==> |r.bytes| < r.len
    ensures r.Scanned? && !r.closed ==> r.len == |u|
  {
    if u == [] then Scanned([], 0, false)
    else if u[0] == BACKSLASH then
      match DecodeEscape(u)
      case Escaped(b, n) => ScanString(u[n..]).After(b, n)
      case BadEscape => BadScan
    else if u[0] < SPACE || u[0] == DELETE then BadScan
    else if u[0] == QUOTE then Scanned([], 1, true)
    else ScanString(u[1..]).After([u[0]], 1)
  }

  lemma AfterAfter(r: Scan, a: Text, i: nat, b: Text, j: nat)
    ensures r.After(a, i).After(b, j) == r.After(b + a, j + i)
  {
    if r.Scanned? {
      assert b + (a + r.bytes) == b + a + r.bytes;
    }
  }

  /** The value of a scanned string. A string that the NUL cuts off is not terminated by the
      parser, so the unread tail of its raw text still follows its unescaped part. */
  function StringValue(u: Text, r: Scan): Text
    requires r.Scanned? && |r.bytes| <= |u|
  {
    CString(if r.closed then r.bytes else r.bytes + u[|r.bytes|..])
  }
}
