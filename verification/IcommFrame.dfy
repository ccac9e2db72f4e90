/** What is printed can be read back: frames on a stream with their check byte, and strings. */
module IcommFrame {
  import opened ByteStrings
  import opened Decimals
  import opened IcommText
  import opened IcommMessage
  import opened IcommRead
  import opened Options

  // ----- messages that can be sent -----

  /** The second half of the bitmap is announced when it is needed, and neither 127 nor 128 is
      present. */
  predicate GoodHeader(h: Bitmap) {
    && (forall p | 64 <= p < 128 :: h[p] ==> h[0])
    && !h[126]
    && !h[127]
  }

  predicate FieldFits(id: nat, t: Text)
    requires id < 128
  {
    1 <= |t| <= LongestField(Def(id)) && 0 !in t
  }

  predicate FieldFull(id: nat, t: Text)
    requires id < 128
  {
    FieldFits(id, t) && (Def(id).Fixed? ==> |t| == Def(id).size)
  }

  /** A type of at most three digits, and in each field that is present a text that fits it. */
  predicate Fits(m: Message) {
    0 <= m.mtype <= 999 && GoodHeader(m.header) && forall id | 2 <= id <= 126 && m.Has(id) :: FieldFits(id, m.Field(id))
  }

  /** Fixed fields are as long as their width, too. */
  predicate Full(m: Message) {
    0 <= m.mtype <= 999 && GoodHeader(m.header) && forall id | 2 <= id <= 126 && m.Has(id) :: FieldFull(id, m.Field(id))
  }

  // ----- the printed form without padding -----

  function FieldText(id: nat, t: Text): Text
    requires id < 128
  {
    if Def(id).Fixed? then t else Precision(|t|, PrefixDigits(Def(id))) + t
  }

  function FieldsText(m: Message, id: nat): Text
    requires 1 <= id
    decreases 127 - id
  {
    if id >= 127 then []
    else (if m.Has(id) then FieldText(id, m.Field(id)) else []) + FieldsText(m, id + 1)
  }

  function HeaderText(m: Message): Text {
    HexDigits(m.header, if m.header[0] then 32 else 16)
  }

  function PlainText(m: Message): Text {
    PrintType(m.mtype) + HeaderText(m) + FieldsText(m, 2)
  }

  function CleanMessage(m: Message): Message {
    m.(fields := map id | id in m.fields :: Clean(m.fields[id]))
  }

  // ----- pieces of a stream -----

  predicate At(data: Text, at: nat, t: Text) {
    at + |t| <= |data| && data[at..at + |t|] == t
  }

  lemma AtSplit(data: Text, at: nat, a: Text, b: Text)
    requires At(data, at, a + b)
    ensures At(data, at, a) && At(data, at + |a|, b)
  {
    var t := data[at..at + |a + b|];
    assert t[..|a|] == a && t[|a|..] == b;
    assert data[at..at + |a|] == t[..|a|];
    assert data[at + |a|..at + |a| + |b|] == t[|a|..];
  }

  lemma TakeAt(data: Text, at: nat, t: Text)
    requires At(data, at, t)
    ensures Take(data, at, |t|) == Some(t)
  {
  }

  lemma LrcStep(l: bv8, a: Text, b: Text)
    ensures Xor(Xor(l, Lrc(a)), Lrc(b)) == Xor(l, Lrc(a + b))
  {
    hide Xor;
    hide Lrc;
    LrcConcat(a, b);
    XorLaws(l, Lrc(a), Lrc(b));
  }

  lemma LrcNothing(l: bv8)
    ensures Xor(l, Lrc([])) == l
  {
    hide Xor;
    XorLaws(l, 0, 0);
  }

  // ----- one field -----

  lemma PrefixFits(def: FieldDef, n: nat)
    requires !def.Fixed? && n <= LongestField(def)
    ensures n < TenTo(PrefixDigits(def))
  {
    assert TenTo(2) == 100;
    assert TenTo(3) == 1000;
    assert TenTo(6) == 1_000_000 by { assert TenTo(4) == 10_000; assert TenTo(5) == 100_000; }
  }

  /** A field may have every length that its prefix can tell, but none. */
  lemma LongestIs(id: nat)
    requires id < 128 && !Def(id).Fixed?
    ensures LongestField(Def(id)) == TenTo(PrefixDigits(Def(id))) - 1
  {
    hide Def;
    assert TenTo(2) == 100;
    assert TenTo(3) == 1000;
    assert TenTo(6) == 1_000_000 by { assert TenTo(4) == 10_000; assert TenTo(5) == 100_000; }
  }

  lemma CleanKeepsText(t: Text)
    requires 0 !in t
    ensures 0 !in Clean(t) && CString(Clean(t)) == Clean(t)
  {
    var c := Clean(t);
    forall i | 0 <= i < |c|
      ensures c[i] != 0
    {
      assert t[i] in t;
    }
    CStringId(c);
  }

  /** Setting a field that is already present changes its text and nothing else. */
  lemma SetPresent(m: Message, id: nat, t: Text)
    requires 2 <= id <= 126 && m.Has(id) && GoodHeader(m.header) && t != [] && CString(t) == t
    ensures Set(m, id, t) == (m.(fields := m.fields[id := t]), true)
  {
    assert m.header[id - 1 := true] == m.header;
    assert id > 64 ==> m.header[0 := true] == m.header;
  }

  lemma ReadContentsBack(data: Text, b: Inbox, id: nat, t: Text)
    requires 2 <= id <= 126 && b.at <= |data| && b.m.Has(id) && GoodHeader(b.m.header)
    requires FieldFits(id, t) && At(data, b.at, t)
    ensures ReadContents(data, b, id, |t|) ==
            Inbox(b.at + |t|, Xor(b.lrc, Lrc(Clean(t))), b.m.(fields := b.m.fields[id := Clean(t)]), true)
  {
    hide Def;
    hide Lrc;
    hide Xor;
    hide Set;
    hide CString;
    TakeAt(data, b.at, t);
    CleanKeepsText(t);
    SetPresent(b.m, id, Clean(t));
  }

  lemma ReadFieldBack(data: Text, b: Inbox, id: nat, t: Text)
    requires 2 <= id <= 126 && b.at <= |data| && b.m.Has(id) && GoodHeader(b.m.header)
    requires FieldFull(id, t) && At(data, b.at, FieldText(id, t))
    ensures ReadField(data, b, id) ==
            Inbox(b.at + |FieldText(id, t)|, Xor(b.lrc, Lrc(FieldText(id, Clean(t)))),
                  b.m.(fields := b.m.fields[id := Clean(t)]), true)
  {
    hide Def;
    hide Lrc;
    hide Xor;
    hide ReadContents;
    hide Atoi;
    hide TenTo;
    hide Precision;
    hide Clean;
    hide Take;
    hide At;
    hide GoodHeader;
    var def := Def(id);
    if def.Fixed? {
      ReadContentsBack(data, b, id, t);
    } else {
      var prefix := Precision(|t|, PrefixDigits(def));
      PrefixFits(def, |t|);
      AtoiOfPrecision(|t|, PrefixDigits(def));
      AtSplit(data, b.at, prefix, t);
      TakeAt(data, b.at, prefix);
      var counted := b.(at := b.at + |prefix|, lrc := Xor(b.lrc, Lrc(prefix)));
      ReadContentsBack(data, counted, id, t);
      LrcStep(b.lrc, prefix, Clean(t));
    }
  }

  // ----- all fields -----

  lemma PresentFits(w: Message, id: nat)
    requires Full(w) && 2 <= id <= 126 && w.Has(id)
    ensures FieldFull(id, w.Field(id)) && id in w.fields && GoodHeader(w.header)
  {
    hide Def;
    hide GoodHeader;
    assert FieldFull(id, w.Field(id));
  }

  lemma CleanFieldsText(w: Message, id: nat)
    requires 2 <= id <= 126
    requires w.Has(id) ==> id in w.fields
    ensures w.Has(id) ==> FieldsText(CleanMessage(w), id) ==
                          FieldText(id, Clean(w.Field(id))) + FieldsText(CleanMessage(w), id + 1)
    ensures !w.Has(id) ==> FieldsText(CleanMessage(w), id) == FieldsText(CleanMessage(w), id + 1)
  {
    hide Def;
    hide FieldText;
    hide Clean;
    assert CleanMessage(w).Has(id) == w.Has(id);
  }

  lemma SkippedField(w: Message, id: nat)
    requires 2 <= id <= 126 && !w.Has(id)
    ensures FieldsText(w, id) == FieldsText(w, id + 1)
  {
    hide FieldText;
  }

  lemma {:induction false} ReadFieldsBack(data: Text, b: Inbox, id: nat, w: Message)
    requires 2 <= id <= 127 && b.at <= |data| && b.good
    requires Full(w) && b.m.header == w.header
    requires At(data, b.at, FieldsText(w, id))
    ensures ReadFields(data, b, id).good && ReadFields(data, b, id).at == b.at + |FieldsText(w, id)|
    ensures ReadFields(data, b, id).lrc == Xor(b.lrc, Lrc(FieldsText(CleanMessage(w), id)))
    ensures ReadFields(data, b, id).m.header == w.header && ReadFields(data, b, id).m.mtype == b.m.mtype
    ensures forall k | id <= k <= 126 && w.Has(k) :: ReadFields(data, b, id).m.Field(k) == Clean(w.Field(k))
    ensures forall k | 0 <= k < id :: ReadFields(data, b, id).m.Field(k) == b.m.Field(k)
    decreases 127 - id
  {
    hide Def;
    hide Lrc;
    hide Xor;
    hide ReadField;
    hide FieldText;
    hide Full;
    hide FieldFull;
    hide GoodHeader;
    hide Clean;
    hide CleanMessage;
    hide At;
    if id == 127 {
      LrcNothing(b.lrc);
    } else if w.Has(id) {
      var t := w.Field(id);
      PresentFits(w, id);
      AtSplit(data, b.at, FieldText(id, t), FieldsText(w, id + 1));
      ReadFieldBack(data, b, id, t);
      var next := ReadField(data, b, id);
      ReadFieldsBack(data, next, id + 1, w);
      CleanFieldsText(w, id);
      LrcStep(b.lrc, FieldText(id, Clean(t)), FieldsText(CleanMessage(w), id + 1));
    } else {
      SkippedField(w, id);
      CleanFieldsText(w, id);
      ReadFieldsBack(data, b, id + 1, w);
    }
  }

  // ----- the whole message -----

  lemma PrintTypeBack(mtype: int)
    requires 0 <= mtype <= 999
    ensures |PrintType(mtype)| == 4 && Atoi(PrintType(mtype)) == mtype
  {
    hide Atoi;
    hide Precision;
    assert TenTo(4) == 10_000;
    AtoiOfPrecision(mtype, 4);
  }

  /** Both halves of a bitmap, or the one that is sent. */
  lemma ReadHeaderBack(data: Text, b: Inbox, w: Message)
    requires b.at <= |data| && GoodHeader(w.header) && At(data, b.at, HeaderText(w))
    ensures var r := ReadBitmap(data, b, 1);
      && r.good
      && r.m.header[0] == w.header[0]
      && (!w.header[0] ==> r == Inbox(b.at + 16, Xor(b.lrc, Lrc(HeaderText(w))), b.m.(header := w.header), true))
      && (w.header[0] ==> ReadBitmap(data, r, 2) ==
                          Inbox(b.at + 32, Xor(b.lrc, Lrc(HeaderText(w))), b.m.(header := w.header), true))
  {
    hide Lrc;
    hide Xor;
    hide SetHeader;
    hide HexDigit;
    var h := w.header;
    var first := HexDigits(h, 16);
    FirstHalfBack(b.m.header, h);
    var half := SetHeader(b.m.header, first, 1);
    if h[0] {
      var both := HexDigits(h, 32);
      var second := both[16..];
      assert both == first + second;
      AtSplit(data, b.at, first, second);
      TakeAt(data, b.at, first);
      TakeAt(data, b.at + 16, second);
      SecondHalfBack(half, h);
      LrcStep(b.lrc, first, second);
    } else {
      TakeAt(data, b.at, first);
      assert half == h;
    }
  }

  lemma HeaderLength(w: Message)
    ensures |HeaderText(w)| == if w.header[0] then 32 else 16
  {
  }

  lemma CleanPlainText(w: Message)
    ensures PlainText(CleanMessage(w)) == PrintType(w.mtype) + HeaderText(w) + FieldsText(CleanMessage(w), 2)
  {
    hide FieldsText;
    hide HexDigits;
    assert HeaderText(CleanMessage(w)) == HeaderText(w);
  }

  lemma CleanIsSame(w: Message, r: Message)
    requires Full(w) && r.mtype == w.mtype && r.header == w.header
    requires forall k | 2 <= k <= 126 && w.Has(k) :: r.Field(k) == Clean(w.Field(k))
    ensures SameMessage(r, CleanMessage(w))
  {
    hide Def;
    hide Clean;
    hide FieldFull;
    forall id | 2 <= id <= 126 && r.Has(id)
      ensures r.Field(id) == CleanMessage(w).Field(id)
    {
      assert w.Has(id);
      PresentFits(w, id);
    }
  }

  lemma ReadMessageBack(data: Text, at: nat, m: Message, w: Message)
    requires at <= |data| && Full(w) && At(data, at, PlainText(w))
    ensures var r := ReadMessage(data, at, m);
      && r.good
      && r.at == at + |PlainText(w)|
      && r.lrc == Lrc(PlainText(CleanMessage(w)))
      && SameMessage(r.m, CleanMessage(w))
  {
    hide Lrc;
    hide Xor;
    hide Atoi;
    hide PrintType;
    hide HeaderText;
    hide FieldsText;
    hide ReadBitmap;
    hide ReadFields;
    hide At;
    hide GoodHeader;
    hide FieldFull;
    var mtype, header, fields := PrintType(w.mtype), HeaderText(w), FieldsText(w, 2);
    PrintTypeBack(w.mtype);
    AtSplit(data, at, mtype + header, fields);
    AtSplit(data, at, mtype, header);
    TakeAt(data, at, mtype);
    var b := Inbox(at + 4, Lrc(mtype), m.(mtype := w.mtype), true);
    ReadHeaderBack(data, b, w);
    var c := Inbox(at + 4 + |header|, Xor(Lrc(mtype), Lrc(header)), b.m.(header := w.header), true);
    HeaderLength(w);
    ReadFieldsBack(data, c, 2, w);
    CleanPlainText(w);
    LrcConcat(mtype, header);
    LrcConcat(mtype + header, FieldsText(CleanMessage(w), 2));
    CleanIsSame(w, ReadFields(data, c, 2).m);
  }
}
