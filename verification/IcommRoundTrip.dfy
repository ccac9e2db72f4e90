/** Frames come back as they were sent, a changed byte is noticed, and printing has a normal
    form. */
module IcommRoundTrip {
  import opened ByteStrings
  import opened IcommText
  import opened IcommMessage
  import opened IcommRead
  import opened IcommFrame
  import opened IcommReplacement
  import opened Options

  /** A stream as it is created: it fills with spaces and adjusts to the right. */
  const FRESH: Format := Format(SPACE, false)

  function CheckByte(text: Text): Byte {
    Octet(Xor(Lrc(text), Bits(ETX)))
  }

  function Framed(text: Text, check: Byte): Text {
    [STX] + text + [ETX, check]
  }

  /** What is sent for a message. */
  function Frame(m: Message): Text {
    Framed(Print(FRESH, m).0, CheckByte(Print(FRESH, m).0))
  }

  // ----- printing without padding -----

  lemma FieldPrintsPlain(f: Format, id: nat, t: Text)
    requires id < 128 && FieldFull(id, t)
    ensures PrintField(f, id, t).0 == FieldText(id, t)
  {
    hide Def;
  }

  lemma {:induction false} FieldsPrintPlain(f: Format, w: Message, i: nat, end: nat)
    requires Full(w) && 1 <= i <= end && (end == 128 || (end == 64 && !w.header[0]))
    ensures PrintFields(f, w, i, end).0 == FieldsText(w, i + 1)
    decreases end - i
  {
    hide Def;
    hide PrintField;
    hide FieldText;
    hide FieldFull;
    if i == end {
      NothingAbove(w, i + 1);
    } else if i >= 126 {
      assert !w.header[i];
      FieldsPrintPlain(f, w, i + 1, end);
    } else if w.header[i] {
      PresentFits(w, i + 1);
      FieldPrintsPlain(f, i + 1, w.Field(i + 1));
      FieldsPrintPlain(PrintField(f, i + 1, w.Field(i + 1)).1, w, i + 1, end);
    } else {
      SkippedField(w, i + 1);
      FieldsPrintPlain(f, w, i + 1, end);
    }
  }

  lemma {:induction false} NothingAbove(w: Message, id: nat)
    requires GoodHeader(w.header) && 1 <= id && (id >= 127 || (id >= 65 && !w.header[0]))
    ensures FieldsText(w, id) == []
    decreases 127 - id
  {
    hide FieldText;
    if id < 127 { NothingAbove(w, id + 1); }
  }

  /** A message whose fixed fields have their full width is printed the same way whatever the
      stream's format was. */
  lemma FullPrints(f: Format, w: Message)
    requires Full(w)
    ensures Print(f, w).0 == PlainText(w)
  {
    hide PrintFields;
    hide FieldsText;
    hide FieldFull;
    hide HexDigits;
    FieldsPrintPlain(f, w, 1, if w.header[0] then 128 else 64);
  }

  // ----- frames -----

  lemma AtFrame(pre: Text, text: Text, check: Byte, post: Text)
    ensures var data := pre + Framed(text, check) + post;
      At(data, |pre|, [STX]) && At(data, |pre| + 1, text) && At(data, |pre| + 1 + |text|, [ETX])
      && At(data, |pre| + 2 + |text|, [check])
  {
    var rest := [STX] + (text + ([ETX] + ([check] + post)));
    FramedParts(pre, text, check, post);
    AtSuffix(pre, rest);
    hide At;
    var data := pre + rest;
    AtSplit(data, |pre|, [STX], text + ([ETX] + ([check] + post)));
    AtSplit(data, |pre| + 1, text, [ETX] + ([check] + post));
    AtSplit(data, |pre| + 1 + |text|, [ETX], [check] + post);
    AtSplit(data, |pre| + 2 + |text|, [check], post);
  }

  lemma AtSuffix(pre: Text, rest: Text)
    ensures At(pre + rest, |pre|, rest)
  {
  }

  lemma FramedParts(pre: Text, text: Text, check: Byte, post: Text)
    ensures pre + Framed(text, check) + post == pre + ([STX] + (text + ([ETX] + ([check] + post))))
  {
    assert Framed(text, check) + post == [STX] + (text + ([ETX] + ([check] + post)));
  }

  /** A frame around any full message is read to its end and decoded after replacement; only the
      check byte decides about the result. */
  lemma FramedReads(pre: Text, w: Message, check: Byte, post: Text, before: Message)
    requires Full(w)
    ensures var r := ReadFrame(pre + Framed(PlainText(w), check) + post, |pre|, before);
      && r.rc == (if check == CheckByte(PlainText(CleanMessage(w))) then 1 else -1)
      && r.at == |pre| + |Framed(PlainText(w), check)|
      && SameMessage(r.m, CleanMessage(w))
  {
    hide Lrc;
    hide Xor;
    hide Bits;
    hide Octet;
    hide PlainText;
    hide Full;
    hide ReadMessage;
    hide CleanMessage;
    hide SameMessage;
    var text := PlainText(w);
    var data := pre + Framed(text, check) + post;
    AtFrame(pre, text, check, post);
    TakeAt(data, |pre|, [STX]);
    ReadMessageBack(data, |pre| + 1, before, w);
    TakeAt(data, |pre| + 1 + |text|, [ETX]);
    TakeAt(data, |pre| + 2 + |text|, [check]);
    CheckIs(check, Xor(Lrc(PlainText(CleanMessage(w))), Bits(ETX)));
  }

  lemma CheckIs(check: Byte, v: bv8)
    ensures Bits(check) == v <==> check == Octet(v)
  {
    OctetBits(v);
    BitsDiffer(check, Octet(v));
  }

  lemma SameCheck(a: Text, b: Text)
    ensures CheckByte(a) == CheckByte(b) <==> Lrc(a) == Lrc(b)
  {
    hide Lrc;
    hide Xor;
    hide Bits;
    XorLaws(Bits(ETX), Lrc(a), Lrc(b));
    XorLaws(Lrc(a), Bits(ETX), 0);
    XorLaws(Lrc(b), Bits(ETX), 0);
    OctetBits(Xor(Lrc(a), Bits(ETX)));
    OctetBits(Xor(Lrc(b), Bits(ETX)));
  }

  /** A frame is accepted exactly when each of the four characters that reading replaces occurs an
      even number of times in its fields, and refused otherwise; in both cases the fields arrive
      after replacement. */
  lemma FrameReadsIff(pre: Text, m: Message, post: Text, before: Message)
    requires Full(m)
    ensures var r := ReadFrame(pre + Frame(m) + post, |pre|, before);
      && (r.rc == 1 <==> EvenReplaced(m))
      && (r.rc == 1 || r.rc == -1)
      && r.at == |pre| + |Frame(m)|
      && SameMessage(r.m, CleanMessage(m))
  {
    hide CheckByte;
    hide ReadFrame;
    hide PlainText;
    hide Full;
    hide Print;
    hide SameMessage;
    hide EvenReplaced;
    FullPrints(FRESH, m);
    FramedReads(pre, m, CheckByte(PlainText(m)), post, before);
    SameCheck(PlainText(m), PlainText(CleanMessage(m)));
    CheckKeptIff(m);
  }

  /** No field that is present holds a character that reading replaces. */
  predicate Plain(m: Message) {
    forall id | 2 <= id <= 126 && m.Has(id) :: NoneForbidden(m.Field(id))
  }

  predicate NoneForbidden(t: Text) {
    forall i | 0 <= i < |t| :: !Forbidden(t[i])
  }

  lemma CleanPlain(m: Message)
    requires Full(m) && Plain(m)
    ensures SameMessage(CleanMessage(m), m)
  {
    hide Def;
    hide FieldFull;
    forall id | 2 <= id <= 126 && m.Has(id)
      ensures CleanMessage(m).Field(id) == m.Field(id)
    {
      PresentFits(m, id);
      assert NoneForbidden(m.Field(id));
      assert Clean(m.Field(id)) == m.Field(id);
    }
  }

  lemma {:induction false} SameFieldsText(a: Message, b: Message, id: nat)
    requires SameMessage(a, b) && 2 <= id
    ensures FieldsText(a, id) == FieldsText(b, id)
    decreases 127 - id
  {
    hide FieldText;
    if id < 127 {
      assert a.Has(id) == b.Has(id);
      SameFieldsText(a, b, id + 1);
    }
  }

  lemma SameText(a: Message, b: Message)
    requires SameMessage(a, b)
    ensures PlainText(a) == PlainText(b)
  {
    SameFieldsText(a, b, 2);
  }

  lemma PlainByte(m: Message, id: nat, k: nat)
    requires Plain(m) && 2 <= id <= 126 && m.Has(id) && k < |m.Field(id)|
    ensures !Forbidden(m.Field(id)[k])
  {
    assert NoneForbidden(m.Field(id));
  }

  lemma SamePlain(m: Message)
    requires Full(m) && SameMessage(CleanMessage(m), m)
    ensures Plain(m)
  {
    hide Def;
    hide FieldFull;
    forall id | 2 <= id <= 126 && m.Has(id)
      ensures NoneForbidden(m.Field(id))
    {
      PresentFits(m, id);
      assert CleanMessage(m).Has(id);
      assert Clean(m.Field(id)) == m.Field(id);
      forall i | 0 <= i < |m.Field(id)|
        ensures !Forbidden(m.Field(id)[i])
      {
        assert Clean(m.Field(id))[i] == CleanByte(m.Field(id)[i]);
      }
    }
  }

  /** What is sent arrives, as the same type, bitmap and fields with the stream left behind the
      frame, exactly when no field that is present holds a character that reading replaces. */
  lemma FrameArrivesIff(pre: Text, m: Message, post: Text, before: Message)
    requires Full(m)
    ensures var r := ReadFrame(pre + Frame(m) + post, |pre|, before);
      && (r.rc == 1 && SameMessage(r.m, m) <==> Plain(m))
      && r.at == |pre| + |Frame(m)|
  {
    hide ReadFrame;
    hide Full;
    hide Plain;
    hide Frame;
    hide CleanMessage;
    hide EvenReplaced;
    FrameReadsIff(pre, m, post, before);
    if Plain(m) {
      CleanPlain(m);
      PlainIsEven(m);
    } else if SameMessage(CleanMessage(m), m) {
      SamePlain(m);
    }
  }

  lemma PlainIsEven(m: Message)
    requires Full(m) && Plain(m)
    ensures EvenReplaced(m)
  {
    hide EvenReplaced;
    CleanPlain(m);
    SameText(CleanMessage(m), m);
    CheckKeptIff(m);
  }

  /** What is sent arrives: same type, same bitmap, same fields, and the stream is left behind the
      frame. */
  lemma FrameRoundTrip(pre: Text, m: Message, post: Text, before: Message)
    requires Full(m) && Plain(m)
    ensures var r := ReadFrame(pre + Frame(m) + post, |pre|, before);
      r.rc == 1 && r.at == |pre| + |Frame(m)| && SameMessage(r.m, m)
  {
    hide ReadFrame;
    hide Frame;
    FrameArrivesIff(pre, m, post, before);
  }

  // ----- messages that do not arrive -----

  /** A message whose only field is the second, a short one. */
  function OneField(t: Text): Message {
    Message(0, Empty()[1 := true], map[2 := t])
  }

  lemma OneFieldFull(t: Text)
    requires 1 <= |t| <= 99 && 0 !in t
    ensures Full(OneField(t)) && OneField(t).Has(2) && OneField(t).Field(2) == t
    ensures forall id | 2 < id <= 126 :: !OneField(t).Has(id)
    ensures Plain(OneField(t)) <==> NoneForbidden(t)
  {
    var m := OneField(t);
    assert forall p | 0 <= p < 128 :: m.header[p] <==> p == 1;
    assert FieldFull(2, t);
    forall id | 2 <= id <= 126 && m.Has(id)
      ensures id == 2
    {
    }
  }

  lemma {:induction false} NothingCounted(t: Text, id: nat, c: Byte)
    requires 2 < id && forall k | 2 < k <= 126 :: !OneField(t).Has(k)
    ensures CountFrom(OneField(t), id, c) == 0
    decreases 127 - id
  {
    hide OneField;
    if id < 127 { NothingCounted(t, id + 1, c); }
  }

  lemma OneFieldCount(t: Text, c: Byte)
    requires 1 <= |t| <= 99 && 0 !in t
    ensures CountFrom(OneField(t), 2, c) == Count(t, c)
  {
    hide Full;
    hide Plain;
    OneFieldFull(t);
    hide OneField;
    NothingCounted(t, 3, c);
  }

  lemma CountPair(x: Byte, c: Byte)
    ensures Count([x], c) == (if x == c then 1 else 0) && Count([x, x], c) == if x == c then 2 else 0
  {
    assert [x][..0] == [] && [x, x][..1] == [x];
  }

  /** A field of two semicolons is accepted, and arrives as two spaces. */
  lemma TwoSemicolons(pre: Text, post: Text, before: Message)
    ensures var m := OneField([SEMICOLON, SEMICOLON]);
      var r := ReadFrame(pre + Frame(m) + post, |pre|, before);
      Full(m) && r.rc == 1 && r.m.Field(2) == [SPACE, SPACE] && m.Field(2) == [SEMICOLON, SEMICOLON]
  {
    var t := [SEMICOLON, SEMICOLON];
    var m := OneField(t);
    hide Full;
    hide Plain;
    hide ReadFrame;
    hide Frame;
    OneFieldFull(t);
    OneFieldCount(t, BACKSLASH);
    OneFieldCount(t, SEMICOLON);
    OneFieldCount(t, DOUBLE_QUOTE);
    OneFieldCount(t, SINGLE_QUOTE);
    CountPair(SEMICOLON, BACKSLASH);
    CountPair(SEMICOLON, SEMICOLON);
    CountPair(SEMICOLON, DOUBLE_QUOTE);
    CountPair(SEMICOLON, SINGLE_QUOTE);
    FrameReadsIff(pre, m, post, before);
    assert Clean(t) == [SPACE, SPACE];
    assert CleanMessage(m).Field(2) == Clean(t);
  }

  /** A field of one semicolon makes the receiver refuse the frame. */
  lemma OneSemicolon(pre: Text, post: Text, before: Message)
    ensures var m := OneField([SEMICOLON]);
      Full(m) && ReadFrame(pre + Frame(m) + post, |pre|, before).rc == -1
  {
    var t := [SEMICOLON];
    hide Full;
    hide Plain;
    hide ReadFrame;
    hide Frame;
    OneFieldFull(t);
    OneFieldCount(t, SEMICOLON);
    CountPair(SEMICOLON, SEMICOLON);
    FrameReadsIff(pre, OneField(t), post, before);
  }

  function Frames(ms: seq<Message>): Text {
    if ms == [] then [] else Frame(ms[0]) + Frames(ms[1..])
  }

  /** n frames in a row, read into the same message object. */
  function ReadMany(data: Text, at: nat, m: Message, n: nat): (rs: seq<Outcome>)
    requires at <= |data|
    ensures |rs| == n
    decreases n
  {
    if n == 0 then []
    else
      var r := ReadFrame(data, at, m);
      [r] + ReadMany(data, r.at, r.m, n - 1)
  }

  /** A stream of frames is read frame by frame, each as it was sent, whatever fields the messages
      before it left behind. */
  lemma {:induction false} StreamRoundTrip(pre: Text, ms: seq<Message>, post: Text, before: Message)
    requires forall m | m in ms :: Full(m) && Plain(m)
    ensures var rs := ReadMany(pre + Frames(ms) + post, |pre|, before, |ms|);
      forall i | 0 <= i < |ms| :: rs[i].rc == 1 && SameMessage(rs[i].m, ms[i])
    decreases |ms|
  {
    hide ReadFrame;
    hide Full;
    hide Plain;
    hide Frame;
    hide SameMessage;
    if ms != [] {
      var frame, rest := Frame(ms[0]), Frames(ms[1..]);
      var data := pre + Frames(ms) + post;
      Regrouped(pre, frame, rest, post);
      hide Frames;
      assert ms[0] in ms && forall m | m in ms[1..] :: m in ms;
      FrameRoundTrip(pre, ms[0], rest + post, before);
      var r := ReadFrame(data, |pre|, before);
      StreamRoundTrip(pre + frame, ms[1..], post, r.m);
      var later := ReadMany(data, r.at, r.m, |ms| - 1);
      assert ReadMany(data, |pre|, before, |ms|) == [r] + later;
      hide ReadMany;
      forall i | 0 <= i < |ms|
        ensures ([r] + later)[i].rc == 1 && SameMessage(([r] + later)[i].m, ms[i])
      {
        if i > 0 { assert ms[i] == ms[1..][i - 1]; }
      }
    }
  }

  lemma Regrouped(pre: Text, a: Text, b: Text, post: Text)
    ensures pre + (a + b) + post == pre + a + (b + post) == (pre + a) + b + post
    ensures |pre + a| == |pre| + |a|
  {
  }

  // ----- one changed byte -----

  function Changed(m: Message, id: nat, k: nat, c: Byte): Message
    requires k < |m.Field(id)|
  {
    m.(fields := m.fields[id := m.Field(id)[k := c]])
  }

  /** Where the contents of field id start in the text of the fields from id from on. */
  function Offset(m: Message, from: nat, id: nat): nat
    requires 2 <= from <= id <= 126
    decreases id - from
  {
    if from == id then PrefixDigits(Def(id))
    else (if m.Has(from) then |FieldText(from, m.Field(from))| else 0) + Offset(m, from + 1, id)
  }

  lemma FieldChanges(id: nat, t: Text, k: nat, c: Byte)
    requires id < 128 && k < |t| && FieldFits(id, t)
    ensures |FieldText(id, t)| == PrefixDigits(Def(id)) + |t|
    ensures FieldText(id, t)[PrefixDigits(Def(id)) + k] == t[k]
    ensures FieldText(id, t[k := c]) == FieldText(id, t)[PrefixDigits(Def(id)) + k := c]
  {
    hide Def;
    var def := Def(id);
    if !def.Fixed? {
      hide Precision;
      PrefixFits(def, |t|);
    }
  }

  lemma {:induction false} FieldsUnchanged(m: Message, from: nat, id: nat, k: nat, c: Byte)
    requires 2 <= id < from && k < |m.Field(id)|
    ensures FieldsText(Changed(m, id, k, c), from) == FieldsText(m, from)
    decreases 127 - from
  {
    hide FieldText;
    if from < 127 {
      assert Changed(m, id, k, c).Has(from) == m.Has(from);
      assert Changed(m, id, k, c).Field(from) == m.Field(from);
      FieldsUnchanged(m, from + 1, id, k, c);
    }
  }

  lemma UpdateFront(a: Text, b: Text, k: nat, c: Byte)
    requires k < |a|
    ensures (a + b)[k := c] == a[k := c] + b && (a + b)[k] == a[k]
  {
  }

  lemma UpdateBehind(a: Text, b: Text, k: nat, c: Byte)
    requires k < |b|
    ensures (a + b)[|a| + k := c] == a + b[k := c] && (a + b)[|a| + k] == b[k]
  {
  }

  lemma {:induction false} FieldsChange(m: Message, from: nat, id: nat, k: nat, c: Byte)
    requires 2 <= from <= id <= 126 && m.Has(id) && k < |m.Field(id)| && FieldFits(id, m.Field(id))
    ensures Offset(m, from, id) + k < |FieldsText(m, from)|
    ensures FieldsText(m, from)[Offset(m, from, id) + k] == m.Field(id)[k]
    ensures FieldsText(Changed(m, id, k, c), from) == FieldsText(m, from)[Offset(m, from, id) + k := c]
    decreases id - from
  {
    hide FieldsText;
    hide FieldFits;
    hide Changed;
    hide Offset;
    if from == id {
      ChangesHere(m, id, k, c);
    } else {
      FieldsChange(m, from + 1, id, k, c);
      ChangesLater(m, from, id, k, c);
    }
  }

  lemma ChangedFacts(m: Message, id: nat, k: nat, c: Byte, j: nat)
    requires k < |m.Field(id)|
    ensures Changed(m, id, k, c).Has(j) == m.Has(j)
    ensures Changed(m, id, k, c).Field(j) == if j == id then m.Field(id)[k := c] else m.Field(j)
  {
  }

  lemma ChangesHere(m: Message, id: nat, k: nat, c: Byte)
    requires 2 <= id <= 126 && m.Has(id) && k < |m.Field(id)| && FieldFits(id, m.Field(id))
    ensures Offset(m, id, id) + k < |FieldsText(m, id)|
    ensures FieldsText(m, id)[Offset(m, id, id) + k] == m.Field(id)[k]
    ensures FieldsText(Changed(m, id, k, c), id) == FieldsText(m, id)[Offset(m, id, id) + k := c]
  {
    hide Def;
    hide FieldText;
    ChangedFacts(m, id, k, c, id);
    FieldsUnchanged(m, id + 1, id, k, c);
    FieldsCons(m, id);
    FieldsCons(Changed(m, id, k, c), id);
    FieldChanges(id, m.Field(id), k, c);
    hide Changed;
    hide FieldsText;
    hide FieldFits;
    UpdateFront(FieldText(id, m.Field(id)), FieldsText(m, id + 1), Offset(m, id, id) + k, c);
  }

  lemma ChangesLater(m: Message, from: nat, id: nat, k: nat, c: Byte)
    requires 2 <= from < id <= 126 && k < |m.Field(id)|
    requires Offset(m, from + 1, id) + k < |FieldsText(m, from + 1)|
    requires FieldsText(m, from + 1)[Offset(m, from + 1, id) + k] == m.Field(id)[k]
    requires FieldsText(Changed(m, id, k, c), from + 1) == FieldsText(m, from + 1)[Offset(m, from + 1, id) + k := c]
    ensures Offset(m, from, id) + k < |FieldsText(m, from)|
    ensures FieldsText(m, from)[Offset(m, from, id) + k] == m.Field(id)[k]
    ensures FieldsText(Changed(m, id, k, c), from) == FieldsText(m, from)[Offset(m, from, id) + k := c]
  {
    hide Def;
    hide FieldText;
    ChangedFacts(m, id, k, c, from);
    FieldsCons(m, from);
    FieldsCons(Changed(m, id, k, c), from);
    hide Changed;
    hide FieldsText;
    if m.Has(from) {
      UpdateBehind(FieldText(from, m.Field(from)), FieldsText(m, from + 1), Offset(m, from + 1, id) + k, c);
    }
  }

  lemma FieldsCons(m: Message, id: nat)
    requires 2 <= id <= 126
    ensures m.Has(id) ==> FieldsText(m, id) == FieldText(id, m.Field(id)) + FieldsText(m, id + 1)
    ensures !m.Has(id) ==> FieldsText(m, id) == FieldsText(m, id + 1)
  {
    hide FieldText;
  }

  /** Where byte k of field id stands in the printed message. */
  function Place(m: Message, id: nat, k: nat): nat
    requires 2 <= id <= 126
  {
    |PrintType(m.mtype) + HeaderText(m)| + Offset(m, 2, id) + k
  }

  lemma TextChanges(m: Message, id: nat, k: nat, c: Byte)
    requires 2 <= id <= 126 && m.Has(id) && k < |m.Field(id)| && FieldFits(id, m.Field(id))
    ensures Place(m, id, k) < |PlainText(m)| && PlainText(m)[Place(m, id, k)] == m.Field(id)[k]
    ensures PlainText(Changed(m, id, k, c)) == PlainText(m)[Place(m, id, k) := c]
  {
    hide FieldsText;
    hide PrintType;
    hide HexDigits;
    hide FieldFits;
    hide Offset;
    FieldsChange(m, 2, id, k, c);
    assert HeaderText(Changed(m, id, k, c)) == HeaderText(m);
  }

  lemma ChangedFull(m: Message, id: nat, k: nat, c: Byte)
    requires Full(m) && 2 <= id <= 126 && m.Has(id) && k < |m.Field(id)| && c != 0
    ensures Full(Changed(m, id, k, c))
  {
    hide Def;
    hide GoodHeader;
    var n := Changed(m, id, k, c);
    PresentFits(m, id);
    forall f | 2 <= f <= 126 && n.Has(f)
      ensures FieldFull(f, n.Field(f))
    {
      PresentFits(m, f);
      if f == id { UpdatedText(m.Field(id), k, c); }
    }
  }

  lemma UpdatedText(t: Text, k: nat, c: Byte)
    requires k < |t| && 0 !in t && c != 0
    ensures 0 !in t[k := c]
  {
  }

  /** Replacement turns a changed plain message into the message changed by what c is read as. */
  lemma CleanChanged(m: Message, id: nat, k: nat, c: Byte)
    requires Full(m) && Plain(m) && 2 <= id <= 126 && m.Has(id) && k < |m.Field(id)| && c != 0
    ensures SameMessage(CleanMessage(Changed(m, id, k, c)), Changed(m, id, k, CleanByte(c)))
  {
    hide Def;
    hide FieldFull;
    var n := Changed(m, id, k, c);
    ChangedFull(m, id, k, c);
    forall f | 2 <= f <= 126 && n.Has(f)
      ensures CleanMessage(n).Field(f) == Changed(m, id, k, CleanByte(c)).Field(f)
    {
      PresentFits(n, f);
      assert m.Has(f) && NoneForbidden(m.Field(f));
      if f == id {
        assert Clean(m.Field(id)[k := c]) == m.Field(id)[k := CleanByte(c)];
      } else {
        assert n.Field(f) == m.Field(f);
        assert Clean(m.Field(f)) == m.Field(f);
      }
    }
  }

  /** One byte of the contents of one field is changed on the way. The frame is still accepted
      exactly when the new byte is the old one, or a space became one of the characters that are
      read as a space; then the message is decoded as it was sent. Otherwise it is refused. */
  lemma ChangedByteIff(pre: Text, m: Message, post: Text, before: Message, id: nat, k: nat, c: Byte)
    requires Full(m) && Plain(m) && 2 <= id <= 126 && m.Has(id) && k < |m.Field(id)| && c != 0
    ensures 1 + Place(m, id, k) < |Frame(m)| && Frame(m)[1 + Place(m, id, k)] == m.Field(id)[k]
    ensures var r := ReadFrame(pre + Frame(m)[1 + Place(m, id, k) := c] + post, |pre|, before);
      && (r.rc == 1 <==> c == m.Field(id)[k] || (m.Field(id)[k] == SPACE && Forbidden(c)))
      && (r.rc == 1 || r.rc == -1)
      && (r.rc == 1 ==> SameMessage(r.m, m))
  {
    hide ReadFrame;
    hide Full;
    hide FieldFull;
    hide FieldFits;
    hide Lrc;
    hide PlainText;
    hide CleanMessage;
    hide Print;
    hide CheckByte;
    hide Place;
    hide Plain;
    hide SameMessage;
    var n := Changed(m, id, k, c);
    var d := CleanByte(c);
    var text := PlainText(m);
    var check := CheckByte(text);
    PresentFits(m, id);
    FieldFullFits(id, m.Field(id));
    FullPrints(FRESH, m);
    TextChanges(m, id, k, c);
    assert Frame(m)[1 + Place(m, id, k) := c] == Framed(PlainText(n), check);
    ChangedFull(m, id, k, c);
    FramedReads(pre, n, check, post, before);
    CleanChanged(m, id, k, c);
    SameText(CleanMessage(n), Changed(m, id, k, d));
    TextChanges(m, id, k, d);
    LrcChange(text, Place(m, id, k), d);
    SameCheck(text, PlainText(CleanMessage(n)));
    PlainByte(m, id, k);
    if d == m.Field(id)[k] {
      ChangedBack(m, id, k);
      SameTrans(ReadFrame(pre + Framed(PlainText(n), check) + post, |pre|, before).m,
                CleanMessage(n), Changed(m, id, k, d));
    }
  }

  lemma FieldFullFits(id: nat, t: Text)
    requires id < 128 && FieldFull(id, t)
    ensures FieldFits(id, t)
  {
  }

  lemma ChangedBack(m: Message, id: nat, k: nat)
    requires k < |m.Field(id)|
    ensures Changed(m, id, k, m.Field(id)[k]) == m
  {
    assert m.Field(id)[k := m.Field(id)[k]] == m.Field(id);
  }

  lemma SameTrans(a: Message, b: Message, c: Message)
    requires SameMessage(a, b) && SameMessage(b, c)
    ensures SameMessage(a, c)
  {
  }

  /** A frame changed on the way that is accepted all the same: the space in its only field became
      a semicolon. */
  lemma SpaceBecomesSemicolon(pre: Text, post: Text, before: Message)
    ensures var m := OneField([SPACE]);
      var p := 1 + Place(m, 2, 0);
      && p < |Frame(m)|
      && Frame(m)[p := SEMICOLON] != Frame(m)
      && ReadFrame(pre + Frame(m)[p := SEMICOLON] + post, |pre|, before).rc == 1
  {
    var m := OneField([SPACE]);
    hide Full;
    hide Plain;
    hide ReadFrame;
    hide Frame;
    hide Place;
    OneFieldFull([SPACE]);
    ChangedByteIff(pre, m, post, before, 2, 0, SEMICOLON);
    var p := 1 + Place(m, 2, 0);
    assert Frame(m)[p := SEMICOLON][p] == SEMICOLON;
  }
}
