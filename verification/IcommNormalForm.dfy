/** Printing has a normal form: what a string is parsed to prints as that string, whatever
    padding went into it. */
module IcommNormalForm {
  import opened ByteStrings
  import opened Decimals
  import opened IcommText
  import opened IcommMessage
  import opened IcommRead
  import opened IcommFrame
  import opened IcommRoundTrip
  import opened Options

  // ----- parsing a printed message -----

  lemma SubstrAt(text: Text, at: nat, t: Text)
    requires At(text, at, t)
    ensures Substr(text, at, |t|) == Some(t)
  {
  }

  lemma ParseFieldBack(text: Text, at: nat, m: Message, id: nat, t: Text)
    requires 2 <= id <= 126 && m.Has(id) && GoodHeader(m.header)
    requires FieldFull(id, t) && At(text, at, FieldText(id, t))
    ensures ParseField(text, at, m, id) == Some((m.(fields := m.fields[id := t]), |FieldText(id, t)|))
  {
    hide Def;
    hide Atoi;
    hide Precision;
    hide Set;
    hide CString;
    hide TenTo;
    hide Substr;
    hide At;
    hide GoodHeader;
    var def := Def(id);
    CStringId(t);
    SetPresent(m, id, t);
    if def.Fixed? {
      SubstrAt(text, at, t);
    } else {
      var prefix := Precision(|t|, PrefixDigits(def));
      PrefixFits(def, |t|);
      AtoiOfPrecision(|t|, PrefixDigits(def));
      AtSplit(text, at, prefix, t);
      SubstrAt(text, at, prefix);
      SubstrAt(text, at + |prefix|, t);
    }
  }

  lemma {:induction false} ParseFieldsBack(text: Text, at: nat, m: Message, id: nat, w: Message) returns (r: Message)
    requires 2 <= id <= 127 && Full(w) && m.header == w.header && m.mtype == w.mtype
    requires At(text, at, FieldsText(w, id))
    ensures ParseFields(text, at, m, id) == Some(r)
    ensures r.header == w.header && r.mtype == w.mtype
    ensures forall k | id <= k <= 126 && w.Has(k) :: r.Field(k) == w.Field(k)
    ensures forall k | 0 <= k < id :: r.Field(k) == m.Field(k)
    decreases 127 - id
  {
    hide Def;
    hide ParseField;
    hide FieldText;
    hide Full;
    hide FieldFull;
    hide GoodHeader;
    hide At;
    if id == 127 {
      r := m;
    } else if w.Has(id) {
      var t := w.Field(id);
      PresentFits(w, id);
      AtSplit(text, at, FieldText(id, t), FieldsText(w, id + 1));
      ParseFieldBack(text, at, m, id, t);
      r := ParseFieldsBack(text, at + |FieldText(id, t)|, m.(fields := m.fields[id := t]), id + 1, w);
    } else {
      SkippedField(w, id);
      r := ParseFieldsBack(text, at, m, id + 1, w);
    }
  }

  lemma ParseMessageBack(w: Message, m: Message) returns (r: Message)
    requires Full(w)
    ensures ParseMessage(PlainText(w), m) == Some(r) && SameMessage(r, w)
  {
    hide Atoi;
    hide PrintType;
    hide HexDigit;
    hide FieldsText;
    hide ParseFields;
    hide SetHeader;
    hide GoodHeader;
    hide FieldFull;
    var mtype, header, fields := PrintType(w.mtype), HeaderText(w), FieldsText(w, 2);
    var text := mtype + header + fields;
    assert PlainText(w) == text;
    PrintTypeBack(w.mtype);
    assert At(text, 0, text);
    AtSplit(text, 0, mtype + header, fields);
    AtSplit(text, 0, mtype, header);
    SubstrAt(text, 0, mtype);
    ParseHeaderBack(text, m, w);
    r := ParseFieldsBack(text, 4 + |header|, m.(mtype := w.mtype, header := w.header), 2, w);
  }

  lemma ParseHeaderBack(text: Text, m: Message, w: Message)
    requires GoodHeader(w.header) && At(text, 4, HeaderText(w))
    ensures Substr(text, 4, 16).Some?
    ensures var half := SetHeader(m.header, Substr(text, 4, 16).value, 1);
      && half[0] == w.header[0]
      && (!w.header[0] ==> half == w.header)
      && (w.header[0] ==> Substr(text, 20, 16).Some? && SetHeader(half, Substr(text, 20, 16).value, 2) == w.header)
  {
    hide SetHeader;
    hide HexDigit;
    var h := w.header;
    var first := HexDigits(h, 16);
    FirstHalfBack(m.header, h);
    if h[0] {
      var both := HexDigits(h, 32);
      var second := both[16..];
      assert both == first + second;
      AtSplit(text, 4, first, second);
      SubstrAt(text, 4, first);
      SubstrAt(text, 20, second);
      SecondHalfBack(SetHeader(m.header, first, 1), h);
    } else {
      SubstrAt(text, 4, first);
      assert SetHeader(m.header, first, 1) == h;
    }
  }

  // ----- padding -----

  /** What a field holds once it was printed and read. */
  function Padded(f: Format, id: nat, t: Text): Text
    requires id < 128
  {
    if Def(id).Fixed? then PrintField(f, id, t).0 else t
  }

  /** The message as it is printed from bit i on: fixed fields padded with the fill and the
      alignment that the stream has when their turn comes. */
  function Widened(f: Format, m: Message, i: nat, end: nat): Message
    requires end <= 128
    decreases end - i
  {
    if i >= end then m
    else if m.header[i] && i + 1 <= 127 then
      var t := m.Field(i + 1);
      Widened(PrintField(f, i + 1, t).1, m.(fields := m.fields[i + 1 := Padded(f, i + 1, t)]), i + 1, end)
    else Widened(f, m, i + 1, end)
  }

  lemma PaddedIsFull(f: Format, id: nat, t: Text)
    requires id < 128 && FieldFits(id, t) && f.fill != 0
    ensures FieldFull(id, Padded(f, id, t))
    ensures PrintField(f, id, t).0 == FieldText(id, Padded(f, id, t))
    ensures PrintField(f, id, t).1.fill != 0
  {
    hide Def;
    var def := Def(id);
    if def.Fixed? {
      var g := if def.alpha then f.(left := true) else f.(fill := 48);
      PadKeeps(g, t, def.size);
    }
  }

  lemma PadKeeps(f: Format, t: Text, width: nat)
    requires 0 !in t && f.fill != 0
    ensures 0 !in Pad(f, t, width)
  {
  }

  // ----- what padding does to a field -----

  predicate AlphaField(id: nat)
    requires id < 128
  {
    Def(id).Fixed? && Def(id).alpha
  }

  /** A fixed alpha field among those before id. */
  predicate AlphaBefore(m: Message, id: nat)
    requires id <= 128
  {
    exists j | 2 <= j < id :: m.Has(j) && AlphaField(j)
  }

  /** The fixed field that comes last before id. */
  function FixedBefore(m: Message, id: nat): (j: Option<nat>)
    requires id <= 128
    ensures j.Some? ==> 2 <= j.value < id && m.Has(j.value) && Def(j.value).Fixed?
    ensures forall k | (if j.Some? then j.value + 1 else 2) <= k < id :: m.Has(k) ==> !Def(k).Fixed?
  {
    if id <= 2 then None
    else if m.Has(id - 1) && Def(id - 1).Fixed? then Some(id - 1)
    else FixedBefore(m, id - 1)
  }

  /** The fill character of the stream when field id has its turn: a zero after a numeric field, a
      space after an alpha field, and at first what it was. */
  function FillAt(f: Format, m: Message, id: nat): Byte
    requires id <= 128
  {
    match FixedBefore(m, id)
    case None => f.fill
    case Some(j) => if Def(j).alpha then SPACE else 48
  }

  /** The stream puts text in front of its padding as soon as it has printed an alpha field. */
  predicate LeftAt(f: Format, m: Message, id: nat)
    requires id <= 128
  {
    f.left || AlphaBefore(m, id)
  }

  /** p is the field as it was, except that a fixed field has its width, which zeros fill up, or
      in an alpha field the stream's fill: behind the text in an alpha field and everywhere after
      one, else in front of it. */
  predicate PaddedAs(f: Format, m: Message, id: nat, p: Text)
    requires id < 128
  {
    var t, def := m.Field(id), Def(id);
    if !def.Fixed? then p == t
    else
      var c := if def.alpha then FillAt(f, m, id) else 48;
      && |t| <= |p| == def.size
      && if def.alpha || LeftAt(f, m, id) then t <= p && forall i | |t| <= i < |p| :: p[i] == c
         else p[|p| - |t|..] == t && forall i | 0 <= i < |p| - |t| :: p[i] == c
  }

  /** The stream's format when the bits before i are printed. */
  predicate FormatAt(f: Format, m: Message, i: nat, g: Format)
    requires i < 128
  {
    g.fill == FillAt(f, m, i + 1) && (g.left <==> LeftAt(f, m, i + 1))
  }

  lemma PadIs(f: Format, t: Text, width: nat)
    requires |t| <= width
    ensures var p := Pad(f, t, width);
      && |p| == width
      && (f.left ==> t <= p && forall i | |t| <= i < width :: p[i] == f.fill)
      && (!f.left ==> p[width - |t|..] == t && forall i | 0 <= i < width - |t| :: p[i] == f.fill)
  {
  }

  lemma PadsField(f: Format, m: Message, i: nat, g: Format)
    requires 1 <= i <= 125 && m.header[i] && FieldFits(i + 1, m.Field(i + 1)) && FormatAt(f, m, i, g)
    ensures PaddedAs(f, m, i + 1, Padded(g, i + 1, m.Field(i + 1)))
  {
    hide FillAt;
    hide LeftAt;
    hide Def;
    hide Pad;
    var def, t := Def(i + 1), m.Field(i + 1);
    if def.Fixed? {
      PadIs(if def.alpha then g.(left := true) else g.(fill := 48), t, def.size);
    }
  }

  lemma NextFormat(f: Format, m: Message, i: nat, g: Format)
    requires 1 <= i <= 126 && FormatAt(f, m, i, g)
    ensures FormatAt(f, m, i + 1, if m.header[i] then PrintField(g, i + 1, m.Field(i + 1)).1 else g)
  {
    hide Def;
    assert m.Has(i + 1) <==> m.header[i];
    assert AlphaBefore(m, i + 2) <==>
      AlphaBefore(m, i + 1) || (m.Has(i + 1) && AlphaField(i + 1));
  }

  /** Every field is printed padded, with the fill and the alignment that the fields before it left
      behind. */
  lemma {:induction false} WidenedPads(f: Format, m: Message, g: Format, n: Message, i: nat, end: nat)
    requires Fits(m) && 1 <= i <= end && (end == 128 || (end == 64 && !m.header[0]))
    requires n.header == m.header && (forall k | i < k <= 126 :: n.Field(k) == m.Field(k))
    requires i < 128 ==> FormatAt(f, m, i, g)
    ensures forall k | 0 <= k <= i :: Widened(g, n, i, end).Field(k) == n.Field(k)
    ensures forall k | i < k <= 126 && m.Has(k) :: PaddedAs(f, m, k, Widened(g, n, i, end).Field(k))
    decreases end - i
  {
    hide Def;
    hide FormatAt;
    hide PaddedAs;
    hide PrintField;
    hide Padded;
    hide FieldFits;
    hide FillAt;
    hide LeftAt;
    if i == end {
      NothingPresent(m, end);
    } else if i >= 126 {
      assert !m.header[i];
      if i < 127 { NextFormat(f, m, i, g); }
      WidenedPads(f, m, g, n, i + 1, end);
    } else {
      NextFormat(f, m, i, g);
      if m.header[i] {
        assert m.Has(i + 1);
        var t := m.Field(i + 1);
        PadsField(f, m, i, g);
        WidenedPads(f, m, PrintField(g, i + 1, t).1, n.(fields := n.fields[i + 1 := Padded(g, i + 1, t)]), i + 1, end);
      } else {
        WidenedPads(f, m, g, n, i + 1, end);
      }
    }
  }

  lemma FirstFormat(f: Format, m: Message)
    ensures FormatAt(f, m, 1, f)
  {
    hide Def;
  }

  lemma {:induction false} WidenedPrints(f: Format, m: Message, i: nat, end: nat)
    requires Fits(m) && 1 <= i <= end && (end == 128 || (end == 64 && !m.header[0])) && f.fill != 0
    ensures var w := Widened(f, m, i, end);
      && w.mtype == m.mtype && w.header == m.header
      && (forall k | 0 <= k <= i :: w.Field(k) == m.Field(k))
      && (forall k | i < k <= 126 && m.Has(k) :: FieldFull(k, w.Field(k)))
      && PrintFields(f, m, i, end).0 == FieldsText(w, i + 1)
    decreases end - i
  {
    hide Def;
    hide PrintField;
    hide FieldText;
    hide FieldFull;
    hide FieldFits;
    hide Padded;
    var w := Widened(f, m, i, end);
    if i == end {
      NothingAbove(m, i + 1);
      NothingPresent(m, end);
    } else if i >= 126 {
      assert !m.header[i];
      WidenedPrints(f, m, i + 1, end);
    } else if m.header[i] {
      assert m.Has(i + 1);
      var t := m.Field(i + 1);
      PaddedIsFull(f, i + 1, t);
      FullFits(i + 1, Padded(f, i + 1, t));
      var n := m.(fields := m.fields[i + 1 := Padded(f, i + 1, t)]);
      StillFits(m, i + 1, Padded(f, i + 1, t));
      var g := PrintField(f, i + 1, t).1;
      WidenedPrints(g, n, i + 1, end);
      LaterFields(g, m, i + 1, Padded(f, i + 1, t), i + 1, end);
      assert w.Field(i + 1) == Padded(f, i + 1, t);
    } else {
      WidenedPrints(f, m, i + 1, end);
      SkippedField(w, i + 1);
    }
  }

  lemma FullFits(id: nat, t: Text)
    requires id < 128 && FieldFull(id, t)
    ensures FieldFits(id, t)
  {
  }

  lemma NothingPresent(m: Message, end: nat)
    requires GoodHeader(m.header) && (end == 128 || (end == 64 && !m.header[0]))
    ensures forall k | end < k <= 126 :: !m.Has(k)
  {
  }

  lemma StillFits(m: Message, id: nat, t: Text)
    requires Fits(m) && 2 <= id <= 126 && FieldFits(id, t)
    ensures Fits(m.(fields := m.fields[id := t]))
  {
    hide Def;
    hide FieldFits;
    var n := m.(fields := m.fields[id := t]);
    forall k | 2 <= k <= 126 && n.Has(k)
      ensures FieldFits(k, n.Field(k))
    {
      assert m.Has(k);
    }
  }

  /** Printing the fields after one of them does not look at it. */
  lemma {:induction false} LaterFields(f: Format, m: Message, id: nat, t: Text, i: nat, end: nat)
    requires id <= i && end <= 128
    ensures PrintFields(f, m.(fields := m.fields[id := t]), i, end) == PrintFields(f, m, i, end)
    decreases end - i
  {
    hide PrintField;
    var n := m.(fields := m.fields[id := t]);
    if i < end {
      assert n.Field(i + 1) == m.Field(i + 1);
      if m.header[i] && i + 1 <= 127 {
        LaterFields(PrintField(f, i + 1, m.Field(i + 1)).1, m, id, t, i + 1, end);
      } else {
        LaterFields(f, m, id, t, i + 1, end);
      }
    }
  }

  /** Every message whose fields fit prints as a full message of the same type and bitmap. */
  lemma PrintsWidened(f: Format, m: Message) returns (w: Message)
    requires Fits(m) && f.fill != 0
    ensures Full(w) && w.mtype == m.mtype && w.header == m.header
    ensures Print(f, m).0 == PlainText(w)
    ensures forall k | 2 <= k <= 126 && m.Has(k) :: PaddedAs(f, m, k, w.Field(k))
  {
    hide PaddedAs;
    hide FormatAt;
    FirstFormat(f, m);
    WidenedPads(f, m, f, m, 1, if m.header[0] then 128 else 64);
    hide Def;
    hide FieldFull;
    hide FieldFits;
    hide HexDigits;
    hide FieldsText;
    hide PrintFields;
    hide Widened;
    var end := if m.header[0] then 128 else 64;
    WidenedPrints(f, m, 1, end);
    w := Widened(f, m, 1, end);
  }

  /** Reading what was printed keeps the type and the set of fields, and every field padded to its
      width; printing that again, on a stream in any format, gives the same text. */
  lemma NormalForm(f: Format, m: Message, before: Message, g: Format) returns (r: Message)
    requires Fits(m) && f.fill != 0
    ensures ParseMessage(Print(f, m).0, before) == Some(r)
    ensures r.mtype == m.mtype && r.header == m.header
    ensures Print(g, r).0 == Print(f, m).0
    ensures forall k | 2 <= k <= 126 && m.Has(k) :: PaddedAs(f, m, k, r.Field(k))
  {
    hide PaddedAs;
    hide Print;
    hide Fits;
    hide ParseMessage;
    hide PlainText;
    hide FieldFull;
    hide GoodHeader;
    var w := PrintsWidened(f, m);
    r := ParseMessageBack(w, before);
    SameText(r, w);
    SameFull(r, w);
    FullPrints(g, r);
  }

  lemma SameFull(r: Message, w: Message)
    requires SameMessage(r, w) && Full(w)
    ensures Full(r)
  {
    hide FieldFull;
    hide GoodHeader;
    forall id | 2 <= id <= 126 && r.Has(id)
      ensures FieldFull(id, r.Field(id))
    {
      assert w.Has(id);
    }
  }

  lemma SameFieldFull(w: Message, m: Message)
    requires Full(w) && Fits(m) && SameMessage(CleanMessage(w), m)
    ensures Full(m)
  {
    hide Def;
    hide Clean;
    hide GoodHeader;
    forall id | 2 <= id <= 126 && m.Has(id)
      ensures FieldFull(id, m.Field(id))
    {
      assert CleanMessage(w).Has(id) && w.Has(id);
      PresentFits(w, id);
      assert m.Field(id) == Clean(w.Field(id));
      assert FieldFits(id, m.Field(id));
    }
  }

  /** Of the messages whose fields fit, exactly those arrive as they were sent whose fixed fields
      have their full width and whose fields hold no character that reading replaces. */
  lemma ArrivesIff(pre: Text, m: Message, post: Text, before: Message)
    requires Fits(m)
    ensures var r := ReadFrame(pre + Frame(m) + post, |pre|, before);
      r.rc == 1 && SameMessage(r.m, m) <==> Full(m) && Plain(m)
  {
    hide ReadFrame;
    hide Full;
    hide Fits;
    hide Plain;
    hide Print;
    hide PlainText;
    hide CleanMessage;
    hide CheckByte;
    if Full(m) {
      FrameArrivesIff(pre, m, post, before);
    } else {
      var w := PrintsWidened(FRESH, m);
      FramedReads(pre, w, CheckByte(PlainText(w)), post, before);
      var r := ReadFrame(pre + Frame(m) + post, |pre|, before);
      if SameMessage(r.m, m) {
        SameFieldFull(w, m);
      }
    }
  }
}
