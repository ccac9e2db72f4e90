module ByteStrings {
  type Byte = b: int | 0 <= b < 256
  type Text = seq<Byte>

  const SPACE: Byte := 32

  predicate IsSpace(c: Byte) {
    c == SPACE || 9 <= c <= 13
  }

  predicate IsDigit(c: Byte) {
    48 <= c <= 57
  }

  /** What a C string function sees: everything before the first NUL. */
  function CString(b: Text): (s: Text)
    ensures |s| <= |b| && s == b[..|s|]
    ensures 0 !in s
    ensures |s| == |b| || b[|s|] == 0
  {
    if b == [] || b[0] == 0 then [] else [b[0]] + CString(b[1..])
  }

  lemma {:induction false} CStringId(b: Text)
    requires 0 !in b
    ensures CString(b) == b
  {
    if b != [] { CStringId(b[1..]); }
  }
}
