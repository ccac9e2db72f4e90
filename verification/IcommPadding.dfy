/** Messages as programs build them: fields are set one by one, short fixed fields are padded on the
    way out, and the receiver gets them padded and with the four characters replaced. */
module IcommPadding {
  import opened ByteStrings
  import opened Decimals
  import opened IcommText
  import opened IcommMessage
  import opened IcommRead
  import opened IcommFrame
  import opened IcommReplacement
  import opened IcommRoundTrip
  import opened IcommNormalForm
  import opened Options

  // ----- setting a field -----

  /** A text that fits becomes the field, the message still fits, and all other fields are as they
      were; a field above 64 announces the second half of the bitmap. */
  lemma SetKeeps(m: Message, id: nat, value: Text)
    requires Fits(m) && 2 <= id <= 126 && FieldFits(id, CString(value))
    ensures var n := Set(m, id, value).0;
      && Set(m, id, value).1
      && Fits(n) && n.mtype == m.mtype
      && n.Has(id) && n.Field(id) == CString(value)
      && (n.header[0] <==> m.header[0] || id > 64)
      && forall k | 2 <= k <= 126 && k != id :: n.Has(k) == m.Has(k) && n.Field(k) == m.Field(k)
  {
    hide Def;
    hide FieldFits;
    hide CString;
    var n := Set(m, id, value).0;
    NotEmpty(id, CString(value));
    forall k | 2 <= k <= 126 && n.Has(k)
      ensures FieldFits(k, n.Field(k))
    {
      if k != id { assert m.Has(k) && n.Field(k) == m.Field(k); }
    }
  }

  lemma NotEmpty(id: nat, t: Text)
    requires id < 128 && FieldFits(id, t)
    ensures t != []
  {
    hide Def;
  }

  /** An id out of range or a text that is empty before its NUL changes nothing. */
  lemma SetRefusesIff(m: Message, id: int, value: Text)
    ensures !Set(m, id, value).1 <==> id < 1 || id > 127 || value == [] || value[0] == 0
    ensures !Set(m, id, value).1 ==> Set(m, id, value).0 == m
  {
  }

  // ----- a frame of any message that fits -----

  lemma {:induction false} CountConcat(a: Text, b: Text, c: Byte)
    ensures Count(a + b, c) == Count(a, c) + Count(b, c)
  {
    if b == [] {
      assert a + b == a;
    } else {
      assert (a + b)[..|a + b| - 1] == a + b[..|b| - 1];
      CountConcat(a, b[..|b| - 1], c);
    }
  }

  lemma {:induction false} CountOther(t: Text, c: Byte)
    requires c !in t
    ensures Count(t, c) == 0
  {
    if t != [] { CountOther(t[..|t| - 1], c); }
  }

  lemma PaddingCounts(f: Format, m: Message, id: nat, p: Text, c: Byte)
    requires id < 128 && PaddedAs(f, m, id, p) && Forbidden(c) && !Forbidden(f.fill)
    ensures Count(p, c) == Count(m.Field(id), c)
  {
    hide Def;
    var t := m.Field(id);
    if Def(id).Fixed? {
      hide Forbidden;
      FillIsPlain(f, m, id);
      if Def(id).alpha || LeftAt(f, m, id) {
        var rest := p[|t|..];
        assert p == t + rest;
        CountConcat(t, rest, c);
        CountOther(rest, c);
      } else {
        var rest := p[..|p| - |t|];
        assert p == rest + t;
        CountConcat(rest, t, c);
        CountOther(rest, c);
      }
    }
  }

  lemma FillIsPlain(f: Format, m: Message, id: nat)
    requires id < 128 && !Forbidden(f.fill)
    ensures !Forbidden(FillAt(f, m, id)) && !Forbidden(48)
  {
    hide Def;
    hide FixedBefore;
  }

  lemma {:induction false} PaddingCountsAll(f: Format, m: Message, w: Message, id: nat, c: Byte)
    requires 2 <= id && w.header == m.header && Forbidden(c) && !Forbidden(f.fill)
    requires forall k | 2 <= k <= 126 && m.Has(k) :: PaddedAs(f, m, k, w.Field(k))
    ensures CountFrom(w, id, c) == CountFrom(m, id, c)
    decreases 127 - id
  {
    hide PaddedAs;
    hide Forbidden;
    if id < 127 {
      if m.Has(id) { PaddingCounts(f, m, id, w.Field(id), c); }
      PaddingCountsAll(f, m, w, id + 1, c);
    }
  }

  lemma PaddingIsEven(m: Message, w: Message)
    requires w.header == m.header
    requires forall k | 2 <= k <= 126 && m.Has(k) :: PaddedAs(FRESH, m, k, w.Field(k))
    ensures EvenReplaced(w) <==> EvenReplaced(m)
  {
    hide PaddedAs;
    hide CountFrom;
    PaddingCountsAll(FRESH, m, w, 2, BACKSLASH);
    PaddingCountsAll(FRESH, m, w, 2, SEMICOLON);
    PaddingCountsAll(FRESH, m, w, 2, DOUBLE_QUOTE);
    PaddingCountsAll(FRESH, m, w, 2, SINGLE_QUOTE);
  }

  /** Any message whose fields fit, sent as a frame: it is accepted exactly when each of the four
      replaced characters occurs an even number of times, and the receiver gets the same type and
      bitmap and every field padded to its width, with the four characters replaced. */
  lemma FrameArrivesPadded(pre: Text, m: Message, post: Text, before: Message) returns (w: Message)
    requires Fits(m)
    ensures var r := ReadFrame(pre + Frame(m) + post, |pre|, before);
      && (r.rc == 1 <==> EvenReplaced(m))
      && (r.rc == 1 || r.rc == -1)
      && r.at == |pre| + |Frame(m)|
      && r.m.mtype == m.mtype && r.m.header == m.header
      && forall k | 2 <= k <= 126 && m.Has(k) :: PaddedAs(FRESH, m, k, w.Field(k)) && r.m.Field(k) == Clean(w.Field(k))
  {
    hide ReadFrame;
    hide Full;
    hide Fits;
    hide Print;
    hide PlainText;
    hide CheckByte;
    hide PaddedAs;
    hide EvenReplaced;
    w := PrintsWidened(FRESH, m);
    FramedReads(pre, w, CheckByte(PlainText(w)), post, before);
    CheckKeptIff(w);
    SameCheck(PlainText(w), PlainText(CleanMessage(w)));
    PaddingIsEven(m, w);
    var r := ReadFrame(pre + Frame(m) + post, |pre|, before);
    forall k | 2 <= k <= 126 && m.Has(k)
      ensures r.m.Field(k) == Clean(w.Field(k))
    {
      FieldArrives(w, r.m, k);
    }
  }

  lemma FieldArrives(w: Message, r: Message, k: nat)
    requires Full(w) && SameMessage(r, CleanMessage(w)) && 2 <= k <= 126 && w.Has(k)
    ensures r.Field(k) == Clean(w.Field(k))
  {
    hide Def;
    PresentFits(w, k);
    assert r.Has(k);
  }

  /** A type of more than three digits makes the whole message print as nothing. */
  lemma PrintsNothingIff(f: Format, m: Message)
    ensures Print(f, m).0 == [] <==> m.mtype > 999
  {
    hide HexDigits;
    hide PrintFields;
    HeaderLength(m);
  }

  // ----- a message byte by byte -----

  /** Type 200 with fields 2, 9, 11, 44, 48 and 49. */
  function Sample(): Message {
    Message(200, Empty()[1 := true][8 := true][10 := true][43 := true][47 := true][48 := true],
            map[2 := [55], 9 := [51], 11 := [52, 50], 44 := [65, 66], 48 := [88], 49 := [49]])
  }

  lemma {:induction false} PrintSkips(f: Format, m: Message, i: nat, j: nat, end: nat)
    requires i <= j <= end <= 128 && forall k | i <= k < j :: !m.header[k]
    ensures PrintFields(f, m, i, end) == PrintFields(f, m, j, end)
    decreases j - i
  {
    hide PrintField;
    if i < j { PrintSkips(f, m, i + 1, j, end); }
  }

  lemma SampleField(f: Format, i: nat, next: nat)
    requires i < 64 && Sample().header[i] && i < next <= 64 && forall k | i < k < next :: !Sample().header[k]
    ensures var (t, g) := PrintField(f, i + 1, Sample().Field(i + 1));
      var rest := PrintFields(g, Sample(), next, 64).0;
      PrintFields(f, Sample(), i, 64).0 == t + rest
  {
    hide PrintField;
    var m := Sample();
    PrintSkips(PrintField(f, i + 1, m.Field(i + 1)).1, m, i + 1, next, 64);
  }

  /** The fields of the sample: "017", "00000003", "000042", "AB" and 23 zeros, which the numeric
      field before left as the fill, "001X", and "100", behind an alpha field. */
  function SampleText(): Text {
    [48, 49, 55] + ([48, 48, 48, 48, 48, 48, 48, 51] + ([48, 48, 48, 48, 52, 50]
    + ([65, 66] + Fill(48, 23) + ([48, 48, 49, 88] + [49, 48, 48]))))
  }

  /** The sample prints as "0200", "40A0000000118000" and its fields. */
  lemma SamplePrints()
    ensures Print(FRESH, Sample()).0 ==
      [48, 50, 48, 48] + [52, 48, 65, 48, 48, 48, 48, 48, 48, 48, 49, 49, 56, 48, 48, 48] + SampleText()
  {
    SampleHeader();
    SampleType();
    SampleShape();
    SampleFields();
    hide PrintType;
    hide HexDigits;
    hide Sample;
    hide SampleText;
    hide PrintFields;
  }

  lemma SampleShape()
    ensures Sample().mtype == 200 && !Sample().header[0]
  {
  }

  lemma SampleType()
    ensures PrintType(200) == [48, 50, 48, 48]
  {
    assert TenTo(4) == 10_000;
    assert FixedDigits(200, 4) == FixedDigits(20, 3) + [48];
    assert FixedDigits(20, 3) == FixedDigits(2, 2) + [48];
    assert FixedDigits(2, 2) == FixedDigits(0, 1) + [50];
    assert FixedDigits(0, 1) == [48];
  }

  lemma SampleHeader()
    ensures HexDigits(Sample().header, 16) == [52, 48, 65, 48, 48, 48, 48, 48, 48, 48, 49, 49, 56, 48, 48, 48]
  {
    var h := Sample().header;
    var t: Text := [52, 48, 65, 48, 48, 48, 48, 48, 48, 48, 49, 49, 56, 48, 48, 48];
    assert forall p | 0 <= p < 128 :: h[p] <==> p in {1, 8, 10, 43, 47, 48};
    forall k | 0 <= k < 16
      ensures HexDigits(h, 16)[k] == t[k]
    {
      assert k in {0, 2, 10, 11, 12} || t[k] == 48;
    }
  }

  lemma SampleBits()
    ensures var m := Sample();
      && (forall p | 0 <= p < 128 :: m.header[p] <==> p in {1, 8, 10, 43, 47, 48})
      && m.Field(2) == [55] && m.Field(9) == [51] && m.Field(11) == [52, 50]
      && m.Field(44) == [65, 66] && m.Field(48) == [88] && m.Field(49) == [49]
  {
  }

  lemma SampleFields()
    ensures PrintFields(FRESH, Sample(), 1, 64).0 == SampleText()
  {
    hide PrintField;
    hide PrintFields;
    hide Fill;
    SampleBits();
    hide Sample;
    ShortSeven();
    SampleField(FRESH, 1, 8);
    NumericFirst();
    SampleField(FRESH, 8, 10);
    NumericStan();
    SampleField(Format(48, false), 10, 43);
    AlphaName();
    SampleField(Format(48, false), 43, 47);
    LongField();
    SampleField(Format(SPACE, true), 47, 48);
    NumericBehind();
    SampleField(Format(SPACE, true), 48, 64);
    NothingLeft(Format(48, true), Sample());
    assert [49, 48, 48] + [] == [49, 48, 48];
  }

  lemma NothingLeft(f: Format, m: Message)
    ensures PrintFields(f, m, 64, 64).0 == []
  {
  }

  lemma One(w: nat)
    requires w == 2 || w == 3
    ensures Precision(1, w) == if w == 2 then [48, 49] else [48, 48, 49]
  {
    assert TenTo(1) == 10 && TenTo(2) == 100 && TenTo(3) == 1000;
    var d1, d2 := FixedDigits(0, 1), FixedDigits(0, 2);
    assert d1 == [48];
    assert d2 == d1 + [48];
    assert FixedDigits(1, 2) == d1 + [49];
    assert FixedDigits(1, 3) == d2 + [49];
  }

  lemma ShortSeven()
    ensures PrintField(FRESH, 2, [55]) == ([48, 49, 55], FRESH)
  {
    hide Precision;
    One(2);
    assert Def(2) == Short && |[55]| == 1;
    assert [48, 49] + [55] == [48, 49, 55];
  }

  lemma LongField()
    ensures PrintField(Format(SPACE, true), 48, [88]) == ([48, 48, 49, 88], Format(SPACE, true))
  {
    hide Precision;
    One(3);
    assert Def(48) == Long && |[88]| == 1;
    assert [48, 48, 49] + [88] == [48, 48, 49, 88];
  }

  lemma NumericFirst()
    ensures PrintField(FRESH, 9, [51]) == ([48, 48, 48, 48, 48, 48, 48, 51], Format(48, false))
  {
    assert Fill(48, 7) + [51] == [48, 48, 48, 48, 48, 48, 48, 51];
  }

  lemma NumericStan()
    ensures PrintField(Format(48, false), 11, [52, 50]) == ([48, 48, 48, 48, 52, 50], Format(48, false))
  {
    assert Fill(48, 4) + [52, 50] == [48, 48, 48, 48, 52, 50];
  }

  lemma AlphaName()
    ensures PrintField(Format(48, false), 44, [65, 66]) == ([65, 66] + Fill(48, 23), Format(SPACE, true))
  {
  }

  lemma NumericBehind()
    ensures PrintField(Format(SPACE, true), 49, [49]) == ([49, 48, 48], Format(48, true))
  {
    assert [49] + Fill(48, 2) == [49, 48, 48];
  }
}
