/** A message of the host protocol: its field table, its bitmap in hex, and how it is printed. */
module IcommMessage {
  import opened ByteStrings
  import opened Decimals
  import opened IcommText

  // ----- the field table -----

  datatype FieldDef = Fixed(size: nat, alpha: bool) | Short | Long | VeryLong

  function Def(id: nat): (def: FieldDef)
    requires id < 128
    ensures def.Fixed? ==> 1 <= def.size <= 25
    ensures def.VeryLong? <==> id == 127
  {
    if id <= 1 then Fixed(16, false)
    else if id <= 2 then Short
    else if id <= 3 then Fixed(6, false)
    else if id <= 6 then Fixed(12, false)
    else if id <= 7 then Fixed(10, false)
    else if id <= 10 then Fixed(8, false)
    else if id <= 13 then Fixed(6, false)
    else if id <= 18 then Fixed(4, false)
    else if id <= 21 then Fixed(3, false)
    else if id <= 22 then Fixed(12, false)
    else if id <= 24 then Fixed(3, false)
    else if id <= 26 then Fixed(4, false)
    else if id <= 27 then Fixed(1, false)
    else if id <= 28 then Fixed(6, false)
    else if id <= 29 then Fixed(3, false)
    else if id <= 30 then Fixed(24, false)
    else if id <= 35 then Short
    else if id <= 36 then Long
    else if id <= 37 then Fixed(12, false)
    else if id <= 38 then Fixed(6, false)
    else if id <= 40 then Fixed(3, false)
    else if id <= 41 then Fixed(8, false)
    else if id <= 43 then Short
    else if id <= 44 then Fixed(25, true)
    else if id <= 45 then Short
    else if id <= 48 then Long
    else if id <= 51 then Fixed(3, false)
    else if id <= 52 then Fixed(16, false)
    else if id <= 53 then Short
    else if id <= 55 then Long
    else if id <= 56 then Short
    else if id <= 57 then Fixed(11, false)
    else if id <= 58 then Short
    else if id <= 63 then Long
    else if id <= 65 then Fixed(8, false)
    else if id <= 66 then Long
    else if id <= 67 then Fixed(2, false)
    else if id <= 70 then Fixed(3, false)
    else if id <= 71 then Fixed(4, false)
    else if id <= 72 then Long
    else if id <= 73 then Fixed(6, false)
    else if id <= 85 then Fixed(10, false)
    else if id <= 87 then Fixed(16, false)
    else if id <= 88 then Fixed(15, false)
    else if id <= 89 then Fixed(16, false)
    else if id <= 90 then Fixed(10, false)
    else if id <= 92 then Fixed(3, false)
    else if id <= 95 then Short
    else if id <= 96 then Long
    else if id <= 97 then Fixed(17, false)
    else if id <= 98 then Fixed(25, false)
    else if id <= 103 then Short
    else if id <= 104 then Long
    else if id <= 106 then Fixed(16, false)
    else if id <= 108 then Fixed(10, false)
    else if id <= 110 then Short
    else if id <= 126 then Long
    else VeryLong
  }

  /** Digits of the length in front of a field, and the longest length they can give. */
  function PrefixDigits(def: FieldDef): nat {
    match def
    case Fixed(_, _) => 0
    case Short => 2
    case Long => 3
    case VeryLong => 6
  }

  function LongestField(def: FieldDef): nat {
    match def
    case Fixed(size, _) => size
    case Short => 99
    case Long => 999
    case VeryLong => 999_999
  }

  // ----- messages -----

  type Bitmap = h: seq<bool> | |h| == 128 witness seq(128, i => false)

  function Empty(): Bitmap {
    seq(128, i => false)
  }

  /** Bit id - 1 of the header says whether field id is present; bit 0 says whether a second half
      of the bitmap is sent. Fields whose bit is off may hold anything. */
  datatype Message = Message(mtype: int, header: Bitmap, fields: map<int, Text>) {
    predicate Has(id: nat) {
      1 <= id <= 128 && header[id - 1]
    }

    function Field(id: nat): Text {
      if id in fields then fields[id] else []
    }
  }

  /** The message with a field set, and whether that was done. */
  function Set(m: Message, id: int, value: Text): (Message, bool) {
    var text := CString(value);
    if id < 1 || id > 127 || text == [] then (m, false)
    else
      var header := m.header[id - 1 := true];
      (m.(fields := m.fields[id := text], header := if id > 64 then header[0 := true] else header), true)
  }

  /** The same type and bitmap, and the same text in every field that is present. */
  ghost predicate SameMessage(a: Message, b: Message) {
    && a.mtype == b.mtype
    && a.header == b.header
    && forall id | 2 <= id <= 126 && a.Has(id) :: a.Field(id) == b.Field(id)
  }

  // ----- the bitmap in hex -----

  function HexDigit(b0: bool, b1: bool, b2: bool, b3: bool): Byte {
    var n := (if b0 then 8 else 0) + (if b1 then 4 else 0) + (if b2 then 2 else 0) + (if b3 then 1 else 0);
    if n < 10 then 48 + n else 55 + n
  }

  /** What a hex digit stands for, or 16 for any other character. */
  function HexValue(c: Byte): (v: nat)
    ensures v <= 16
  {
    if 48 <= c <= 57 then c - 48
    else if 65 <= c <= 70 then c - 55
    else if 97 <= c <= 102 then c - 87
    else 16
  }

  /** The first digits of the bitmap, four bits each, the first bit of the bitmap first. */
  function HexDigits(h: Bitmap, digits: nat): (t: Text)
    requires digits <= 32
    ensures |t| == digits
  {
    seq(digits, k requires 0 <= k < digits => HexDigit(h[4 * k], h[4 * k + 1], h[4 * k + 2], h[4 * k + 3]))
  }

  /** The bits of one digit are added at offset at. */
  function AddDigit(h: Bitmap, at: nat, v: nat): Bitmap
    requires at + 4 <= 128 && v < 16
  {
    h[at := h[at] || v / 8 == 1]
    [at + 1 := h[at + 1] || v / 4 % 2 == 1]
    [at + 2 := h[at + 2] || v / 2 % 2 == 1]
    [at + 3 := h[at + 3] || v % 2 == 1]
  }

  /** The digits from the k-th on are added until one is no hex digit. */
  function AddDigits(h: Bitmap, t: Text, k: nat, base: nat): Bitmap
    requires |t| == 16 && k <= 16 && base + 64 <= 128
    decreases 16 - k
  {
    if k == 16 || HexValue(t[k]) == 16 then h
    else AddDigits(AddDigit(h, base + 4 * k, HexValue(t[k])), t, k + 1, base)
  }

  /** The bitmap after one half of it was read. */
  function SetHeader(h: Bitmap, t: Text, which: int): Bitmap
    requires which == 1 || which == 2
  {
    var base := if which == 1 then Empty() else h[0 := true];
    if |CString(t)| != 16 then base else AddDigits(base, CString(t), 0, if which == 1 then 0 else 64)
  }

  lemma DigitRoundTrip(b0: bool, b1: bool, b2: bool, b3: bool)
    ensures HexValue(HexDigit(b0, b1, b2, b3)) < 16
    ensures HexValue(HexDigit(b0, b1, b2, b3)) / 8 == 1 <==> b0
    ensures HexValue(HexDigit(b0, b1, b2, b3)) / 4 % 2 == 1 <==> b1
    ensures HexValue(HexDigit(b0, b1, b2, b3)) / 2 % 2 == 1 <==> b2
    ensures HexValue(HexDigit(b0, b1, b2, b3)) % 2 == 1 <==> b3
    ensures HexDigit(b0, b1, b2, b3) != 0
  {
  }

  /** A digit read back sets exactly its four bits. */
  lemma AddDigitBack(h: Bitmap, g: Bitmap, at: nat)
    requires at + 4 <= 128
    requires forall p | at <= p < at + 4 :: h[p] ==> g[p]
    ensures HexValue(HexDigit(g[at], g[at + 1], g[at + 2], g[at + 3])) < 16
    ensures forall p | 0 <= p < 128 ::
      AddDigit(h, at, HexValue(HexDigit(g[at], g[at + 1], g[at + 2], g[at + 3])))[p]
      == if at <= p < at + 4 then g[p] else h[p]
  {
    hide HexDigit;
    hide HexValue;
    DigitRoundTrip(g[at], g[at + 1], g[at + 2], g[at + 3]);
  }

  /** Reading back half of a printed bitmap sets exactly the bits of that half. */
  lemma {:induction false} AddDigitsBack(h: Bitmap, g: Bitmap, t: Text, k: nat, base: nat)
    requires |t| == 16 && k <= 16 && (base == 0 || base == 64)
    requires forall i | 0 <= i < 16 ::
      t[i] == HexDigit(g[base + 4 * i], g[base + 4 * i + 1], g[base + 4 * i + 2], g[base + 4 * i + 3])
    requires forall p | base + 4 * k <= p < base + 64 :: h[p] ==> g[p]
    ensures forall p | 0 <= p < 128 ::
      AddDigits(h, t, k, base)[p] == if base + 4 * k <= p < base + 64 then g[p] else h[p]
    decreases 16 - k
  {
    hide HexDigit;
    hide HexValue;
    hide AddDigit;
    if k < 16 {
      var at := base + 4 * k;
      AddDigitBack(h, g, at);
      var next := AddDigit(h, at, HexValue(t[k]));
      AddDigitsBack(next, g, t, k + 1, base);
    }
  }

  lemma FirstHalfBack(h: Bitmap, g: Bitmap)
    ensures forall p | 0 <= p < 128 ::
      SetHeader(h, HexDigits(g, 16), 1)[p] == if p < 64 then g[p] else false
  {
    hide HexDigit;
    hide HexValue;
    hide AddDigits;
    var t := HexDigits(g, 16);
    forall k | 0 <= k < 16
      ensures t[k] != 0
    {
      DigitRoundTrip(g[4 * k], g[4 * k + 1], g[4 * k + 2], g[4 * k + 3]);
    }
    CStringId(t);
    AddDigitsBack(Empty(), g, t, 0, 0);
  }

  lemma SecondHalfBack(h: Bitmap, g: Bitmap)
    requires forall p | 0 <= p < 128 :: h[p] == if p < 64 then g[p] else false
    requires g[0]
    ensures SetHeader(h, HexDigits(g, 32)[16..], 2) == g
  {
    hide HexDigit;
    hide HexValue;
    hide AddDigits;
    var t := HexDigits(g, 32)[16..];
    forall k | 0 <= k < 16
      ensures t[k] == HexDigit(g[64 + 4 * k], g[64 + 4 * k + 1], g[64 + 4 * k + 2], g[64 + 4 * k + 3])
      ensures t[k] != 0
    {
      DigitRoundTrip(g[64 + 4 * k], g[64 + 4 * k + 1], g[64 + 4 * k + 2], g[64 + 4 * k + 3]);
    }
    CStringId(t);
    AddDigitsBack(h[0 := true], g, t, 0, 64);
    assert forall p | 0 <= p < 128 :: SetHeader(h, t, 2)[p] == g[p];
  }

  // ----- printing -----

  /** The fill character and the adjustment of an output stream; both stay as they were last set. */
  datatype Format = Format(fill: Byte, left: bool)

  function Fill(c: Byte, n: nat): (t: Text)
    ensures |t| == n
    ensures forall i | 0 <= i < n :: t[i] == c
  {
    seq(n, _ => c)
  }

  function Pad(f: Format, t: Text, width: nat): (p: Text)
    ensures |p| == if |t| < width then width else |t|
  {
    if |t| >= width then t
    else if f.left then t + Fill(f.fill, width - |t|)
    else Fill(f.fill, width - |t|) + t
  }

  /** A field on the stream, and the stream's format afterwards. */
  function PrintField(f: Format, id: nat, t: Text): (Text, Format)
    requires id < 128
  {
    var def := Def(id);
    if !def.Fixed? then (Precision(|t|, PrefixDigits(def)) + t, f)
    else if def.alpha then (Pad(f.(left := true), t, def.size), Format(SPACE, true))
    else (Pad(f.(fill := 48), t, def.size), f.(fill := 48))
  }

  /** The fields of bits i to end of the bitmap. */
  function PrintFields(f: Format, m: Message, i: nat, end: nat): (Text, Format)
    requires end <= 128
    decreases end - i
  {
    if i >= end then ([], f)
    else if m.header[i] && i + 1 <= 127 then
      var (t, g) := PrintField(f, i + 1, m.Field(i + 1));
      var (rest, last) := PrintFields(g, m, i + 1, end);
      (t + rest, last)
    else PrintFields(f, m, i + 1, end)
  }

  function PrintType(mtype: int): Text {
    if mtype < 0 then [45] + Precision(-mtype, 4) else Precision(mtype, 4)
  }

  function Print(f: Format, m: Message): (Text, Format) {
    if m.mtype > 999 then ([], f)
    else
      var (t, g) := PrintFields(f, m, 1, if m.header[0] then 128 else 64);
      (PrintType(m.mtype) + HexDigits(m.header, if m.header[0] then 32 else 16) + t, g)
  }
}
