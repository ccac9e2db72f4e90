/** What the result of reading a frame says about the bytes that were read. */
module IcommResults {
  import opened ByteStrings
  import opened IcommText
  import opened IcommMessage
  import opened IcommRead
  import opened IcommFrame
  import opened IcommRoundTrip
  import opened Options

  // ----- accepted frames -----

  /** c is what the check byte counts of the bytes from to to - 1: each as it came or, within a
      field, after replacement. */
  predicate Counts(data: Text, from: nat, to: nat, c: Text) {
    from <= to <= |data| && |c| == to - from
    && forall i | 0 <= i < |c| :: c[i] == data[from + i] || c[i] == CleanByte(data[from + i])
  }

  lemma CountsMore(data: Text, from: nat, mid: nat, to: nat, c: Text, d: Text)
    requires Counts(data, from, mid, c) && Counts(data, mid, to, d)
    ensures Counts(data, from, to, c + d)
  {
    hide CleanByte;
    forall i | 0 <= i < |c + d|
      ensures (c + d)[i] == data[from + i] || (c + d)[i] == CleanByte(data[from + i])
    {
      if i >= |c| { assert (c + d)[i] == d[i - |c|]; }
    }
  }

  /** The bytes between two places were counted, or the stream ended. */
  predicate Counted(data: Text, b: Inbox, r: Inbox, c: Text) {
    r.at == |data| || (Counts(data, b.at, r.at, c) && r.lrc == Xor(b.lrc, Lrc(c)))
  }

  lemma CountedMore(data: Text, b: Inbox, mid: Inbox, r: Inbox, c: Text, d: Text)
    requires Counted(data, b, mid, c) && Counted(data, mid, r, d) && mid.at <= r.at <= |data|
    ensures Counted(data, b, r, c + d)
  {
    hide Lrc;
    hide Xor;
    hide Counts;
    if r.at != |data| {
      CountsMore(data, b.at, mid.at, r.at, c, d);
      LrcStep(b.lrc, c, d);
    }
  }

  lemma CountedNone(data: Text, b: Inbox)
    requires b.at <= |data|
    ensures Counted(data, b, b, [])
  {
    hide Xor;
    LrcNothing(b.lrc);
  }

  lemma ContentsCounted(data: Text, b: Inbox, id: nat, len: int) returns (c: Text)
    requires id < 128 && b.at <= |data|
    ensures Counted(data, b, ReadContents(data, b, id, len), c)
  {
    hide Lrc;
    hide Xor;
    hide Set;
    hide CleanByte;
    if len < 0 {
      c := [];
      CountedNone(data, b.(good := false));
    } else {
      var t := Take(data, b.at, len);
      c := if t == None then [] else Clean(t.value);
    }
  }

  lemma FieldCounted(data: Text, b: Inbox, id: nat) returns (c: Text)
    requires id < 128 && b.at <= |data|
    ensures Counted(data, b, ReadField(data, b, id), c)
  {
    hide Def;
    hide Lrc;
    hide Xor;
    hide Atoi;
    hide ReadContents;
    var def := Def(id);
    if def.Fixed? {
      c := ContentsCounted(data, b, id, def.size);
    } else {
      var t := Take(data, b.at, PrefixDigits(def));
      if t == None {
        c := [];
      } else {
        var len := Atoi(t.value);
        var mid := b.(at := b.at + |t.value|, lrc := Xor(b.lrc, Lrc(t.value)));
        var d := ContentsCounted(data, mid, id, if len > LongestField(def) then LongestField(def) else len);
        assert Counted(data, b, mid, t.value);
        CountedMore(data, b, mid, ReadField(data, b, id), t.value, d);
        c := t.value + d;
      }
    }
  }

  lemma {:induction false} FieldsCounted(data: Text, b: Inbox, id: nat) returns (c: Text)
    requires b.at <= |data|
    ensures Counted(data, b, ReadFields(data, b, id), c)
    decreases 127 - id
  {
    hide ReadField;
    hide Counted;
    if id >= 127 || !b.good {
      c := [];
      CountedNone(data, b);
    } else if b.m.Has(id) {
      var mid := ReadField(data, b, id);
      c := FieldCounted(data, b, id);
      var d := FieldsCounted(data, mid, id + 1);
      CountedMore(data, b, mid, ReadFields(data, b, id), c, d);
      c := c + d;
    } else {
      c := FieldsCounted(data, b, id + 1);
    }
  }

  lemma BitmapCounted(data: Text, b: Inbox, which: int) returns (c: Text)
    requires b.at <= |data| && (which == 1 || which == 2)
    ensures Counted(data, b, ReadBitmap(data, b, which), c)
  {
    hide SetHeader;
    hide Lrc;
    hide Xor;
    var t := Take(data, b.at, 16);
    c := if t == None then [] else t.value;
  }

  lemma MessageCounted(data: Text, at: nat, m: Message) returns (c: Text)
    requires at <= |data|
    ensures Counted(data, Inbox(at, 0, m, true), ReadMessage(data, at, m), c)
  {
    hide Atoi;
    hide Lrc;
    hide Xor;
    hide ReadBitmap;
    hide ReadFields;
    var start := Inbox(at, 0, m, true);
    var t := Take(data, at, 4);
    if t == None {
      c := [];
    } else {
      var typed := Inbox(at + 4, Lrc(t.value), m.(mtype := Atoi(t.value)), true);
      XorLaws(Lrc(t.value), 0, 0);
      assert Counted(data, start, typed, t.value);
      var b := ReadBitmap(data, typed, 1);
      var d := BitmapCounted(data, typed, 1);
      hide Counted;
      CountedMore(data, start, typed, b, t.value, d);
      c := t.value + d;
      var e := b;
      if b.good && b.m.header[0] {
        e := ReadBitmap(data, b, 2);
        var d2 := BitmapCounted(data, b, 2);
        CountedMore(data, start, b, e, c, d2);
        c := c + d2;
      }
      if e.good {
        var d3 := FieldsCounted(data, e, 2);
        CountedMore(data, start, e, ReadFields(data, e, 2), c, d3);
        c := c + d3;
      }
    }
  }

  /** A frame is accepted only if it starts with STX and ends with ETX and, as its check byte, the
      xor of ETX and what lies between, counted after replacement. */
  lemma AcceptedFrame(data: Text, at: nat, m: Message) returns (c: Text)
    requires at <= |data| && ReadFrame(data, at, m).rc == 1
    ensures var end := ReadFrame(data, at, m).at;
      && at + 3 <= end <= |data|
      && data[at] == STX && data[end - 2] == ETX
      && Counts(data, at + 1, end - 2, c)
      && Bits(data[end - 1]) == Xor(Lrc(c), Bits(ETX))
  {
    hide Lrc;
    hide Xor;
    hide Bits;
    hide ReadMessage;
    c := MessageCounted(data, at + 1, m);
    XorLaws(Lrc(c), 0, 0);
  }

  // ----- frames that are not in order -----

  /** A byte that is not STX is passed over, and told apart by result 2. */
  lemma PassedOverIff(data: Text, at: nat, m: Message)
    requires at <= |data|
    ensures ReadFrame(data, at, m).rc == 2 <==> at < |data| && data[at] != STX
    ensures ReadFrame(data, at, m).rc == 2 ==> ReadFrame(data, at, m) == Outcome(2, at + 1, m)
  {
    hide ReadMessage;
    hide Lrc;
    hide Xor;
    hide Bits;
  }

  /** Something else than ETX behind the message. */
  lemma WrongEnd(pre: Text, w: Message, x: Byte, post: Text, before: Message)
    requires Full(w) && x != ETX
    ensures ReadFrame(pre + ([STX] + PlainText(w) + [x]) + post, |pre|, before).rc == 0
  {
    var text := PlainText(w);
    var data := pre + ([STX] + text + [x]) + post;
    EndAt(pre, text, x, post);
    hide PlainText;
    hide Full;
    hide ReadMessage;
    hide SameMessage;
    hide CleanMessage;
    TakeAt(data, |pre|, [STX]);
    ReadMessageBack(data, |pre| + 1, before, w);
    TakeAt(data, |pre| + 1 + |text|, [x]);
  }

  lemma EndAt(pre: Text, text: Text, x: Byte, post: Text)
    ensures var data := pre + ([STX] + text + [x]) + post;
      At(data, |pre|, [STX]) && At(data, |pre| + 1, text) && At(data, |pre| + 1 + |text|, [x])
  {
    var rest := [STX] + (text + ([x] + post));
    assert pre + ([STX] + text + [x]) + post == pre + rest;
    AtSuffix(pre, rest);
    hide At;
    AtSplit(pre + rest, |pre|, [STX], text + ([x] + post));
    AtSplit(pre + rest, |pre| + 1, text, [x] + post);
    AtSplit(pre + rest, |pre| + 1 + |text|, [x], post);
  }

  /** r was read from the first k bytes, s from all: the same, or the bytes ran out. */
  predicate SameOrCut(r: Inbox, s: Inbox, k: nat) {
    (r == s && s.at <= k) || (!r.good && r.at == k)
  }

  lemma TakeCut(data: Text, k: nat, at: nat, n: nat)
    requires at <= k <= |data|
    ensures at + n <= k ==> Take(data[..k], at, n) == Take(data, at, n)
    ensures at + n > k ==> Take(data[..k], at, n) == None && Past(data[..k], at, n) == k
  {
    if at + n <= k { assert data[..k][at..at + n] == data[at..at + n]; }
  }

  lemma ContentsCut(data: Text, k: nat, b: Inbox, id: nat, len: int)
    requires id < 128 && b.at <= k <= |data|
    ensures SameOrCut(ReadContents(data[..k], b, id, len), ReadContents(data, b, id, len), k)
  {
    hide Lrc;
    hide Xor;
    hide Set;
    hide Clean;
    hide Take;
    if len >= 0 {
      TakeCut(data, k, b.at, len);
      TakeLength(data, b.at, len);
    }
  }

  lemma TakeLength(data: Text, at: nat, n: nat)
    ensures Take(data, at, n).Some? ==> |Take(data, at, n).value| == n && at + n <= |data|
    ensures Take(data, at, n) == None <==> at + n > |data|
  {
  }

  lemma FieldCut(data: Text, k: nat, b: Inbox, id: nat)
    requires id < 128 && b.at <= k <= |data|
    ensures SameOrCut(ReadField(data[..k], b, id), ReadField(data, b, id), k)
  {
    hide Def;
    hide Lrc;
    hide Xor;
    hide Atoi;
    hide ReadContents;
    hide Take;
    hide Past;
    var def := Def(id);
    if def.Fixed? {
      ContentsCut(data, k, b, id, def.size);
    } else {
      TakeCut(data, k, b.at, PrefixDigits(def));
      TakeLength(data, b.at, PrefixDigits(def));
      var t := Take(data, b.at, PrefixDigits(def));
      if b.at + PrefixDigits(def) <= k {
        var len := Atoi(t.value);
        var mid := b.(at := b.at + |t.value|, lrc := Xor(b.lrc, Lrc(t.value)));
        ContentsCut(data, k, mid, id, if len > LongestField(def) then LongestField(def) else len);
      }
    }
  }

  lemma {:induction false} FieldsCut(data: Text, k: nat, b: Inbox, id: nat)
    requires b.at <= k <= |data|
    ensures SameOrCut(ReadFields(data[..k], b, id), ReadFields(data, b, id), k)
    decreases 127 - id
  {
    hide ReadField;
    if id < 127 && b.good {
      if b.m.Has(id) {
        FieldCut(data, k, b, id);
        var next := ReadField(data[..k], b, id);
        if next == ReadField(data, b, id) && next.at <= k { FieldsCut(data, k, next, id + 1); }
      } else {
        FieldsCut(data, k, b, id + 1);
      }
    }
  }

  lemma BitmapCut(data: Text, k: nat, b: Inbox, which: int)
    requires b.at <= k <= |data| && (which == 1 || which == 2)
    ensures SameOrCut(ReadBitmap(data[..k], b, which), ReadBitmap(data, b, which), k)
  {
    hide SetHeader;
    hide Lrc;
    hide Xor;
    hide Take;
    TakeCut(data, k, b.at, 16);
    TakeLength(data, b.at, 16);
  }

  lemma MessageCut(data: Text, k: nat, at: nat, m: Message)
    requires at <= k <= |data|
    ensures SameOrCut(ReadMessage(data[..k], at, m), ReadMessage(data, at, m), k)
  {
    hide Atoi;
    hide Lrc;
    hide Take;
    hide Past;
    hide ReadBitmap;
    hide ReadFields;
    TakeCut(data, k, at, 4);
    TakeLength(data, at, 4);
    var t := Take(data, at, 4);
    if at + 4 <= k {
      var typed := Inbox(at + 4, Lrc(t.value), m.(mtype := Atoi(t.value)), true);
      BitmapCut(data, k, typed, 1);
      var b := ReadBitmap(data[..k], typed, 1);
      if b == ReadBitmap(data, typed, 1) && b.at <= k {
        BitmapCut(data, k, b, 2);
        var c := if b.good && b.m.header[0] then ReadBitmap(data[..k], b, 2) else b;
        if c.at <= k { FieldsCut(data, k, c, 2); }
      }
    }
  }

  lemma NoCheckByte(data: Text, at: nat, before: Message, end: nat)
    requires at < |data| && data[at] == STX && end == ReadMessage(data, at + 1, before).at
    requires end == |data| || (end + 1 == |data| && data[end] == ETX)
    ensures ReadFrame(data, at, before).rc == 0 && ReadFrame(data, at, before).at == |data|
  {
    hide ReadMessage;
    hide Lrc;
    hide Xor;
    hide Bits;
  }

  lemma CutInside(data: Text, at: nat, w: Message, check: Byte, cut: nat, before: Message)
    requires Full(w) && At(data, at, [STX]) && At(data, at + 1, PlainText(w))
    requires At(data, at + 1 + |PlainText(w)|, [ETX]) && At(data, at + 2 + |PlainText(w)|, [check])
    requires at < cut <= at + 2 + |PlainText(w)|
    ensures ReadFrame(data[..cut], at, before).rc == 0 && ReadFrame(data[..cut], at, before).at == cut
  {
    hide PlainText;
    hide Full;
    hide ReadMessage;
    hide SameMessage;
    hide CleanMessage;
    hide ReadFrame;
    var end := at + 1 + |PlainText(w)|;
    CutPlaces(data, cut, at, end, check);
    hide At;
    ReadMessageBack(data, at + 1, before, w);
    MessageCut(data, cut, at + 1, before);
    NoCheckByte(data[..cut], at, before, ReadMessage(data[..cut], at + 1, before).at);
  }

  /** A frame that is cut short is never accepted: the read ends with 0 at the end of the stream, or
      with -1 if nothing of the frame is there. */
  lemma CutFrame(pre: Text, w: Message, check: Byte, k: nat, before: Message)
    requires Full(w) && k < |Framed(PlainText(w), check)|
    ensures var r := ReadFrame(pre + Framed(PlainText(w), check)[..k], |pre|, before);
      r.rc == (if k == 0 then -1 else 0) && r.at == |pre| + k
  {
    hide PlainText;
    hide Full;
    hide At;
    hide ReadFrame;
    var text := PlainText(w);
    var frame := Framed(text, check);
    FrameLength(text, check);
    hide Framed;
    AtFrame(pre, text, check, []);
    assert pre + frame + [] == pre + frame;
    CutText(pre, frame, k);
    if k > 0 {
      CutInside(pre + frame, |pre|, w, check, |pre| + k, before);
    } else {
      NothingThere((pre + frame)[..|pre|], before);
    }
  }

  lemma FrameLength(text: Text, check: Byte)
    ensures |Framed(text, check)| == |text| + 3
  {
  }

  lemma CutText(pre: Text, frame: Text, k: nat)
    requires k <= |frame|
    ensures pre + frame[..k] == (pre + frame)[..|pre| + k]
  {
  }

  lemma NothingThere(data: Text, before: Message)
    ensures ReadFrame(data, |data|, before).rc == -1 && ReadFrame(data, |data|, before).at == |data|
  {
    hide ReadMessage;
  }

  lemma CutPlaces(data: Text, cut: nat, at: nat, end: nat, check: Byte)
    requires At(data, at, [STX]) && At(data, end, [ETX]) && At(data, end + 1, [check])
    requires at < cut <= end + 1 && at < end
    ensures data[..cut][at] == STX
    ensures end < cut ==> end + 1 == cut && data[..cut][end] == ETX
  {
    assert data[at..at + 1][0] == data[at];
    assert data[end..end + 1][0] == data[end];
  }

  // ----- strings that are too short -----

  lemma {:induction false} NoFields(text: Text, at: nat, m: Message, id: nat)
    requires 1 <= id && forall p | 0 <= p < 128 :: !m.header[p]
    ensures ParseFields(text, at, m, id) == Some(m)
    decreases 127 - id
  {
    hide ParseField;
    if id < 127 { NoFields(text, at, m, id + 1); }
  }

  /** A string without a type throws; one whose bitmap is not whole gives the type and no field. */
  lemma ParseShort(text: Text, m: Message)
    requires |text| < 20
    ensures |text| < 4 ==> ParseMessage(text, m) == None
    ensures |text| >= 4 ==> ParseMessage(text, m) == Some(m.(mtype := Atoi(text[..4]), header := Empty()))
  {
    hide Atoi;
    hide ParseFields;
    if |text| >= 4 {
      assert Substr(text, 0, 4) == Some(text[..4]);
      assert |CString(Substr(text, 4, 16).value)| <= |text| - 4 < 16;
      NoFields(text, 20, m.(mtype := Atoi(text[..4]), header := Empty()), 2);
    }
  }
}
