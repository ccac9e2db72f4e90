/** The protocol code as it runs: the socket's read loop, the message object, its output stream
    and the frame that is sent. */
module IcommClient {
  import opened ByteStrings
  import opened Decimals
  import opened IcommText
  import opened IcommMessage
  import opened IcommRead
  import opened IcommRoundTrip
  import opened Options

  /** A connection: the bytes the peer sends before it closes, and how many are ready whenever
      the socket is polled. */
  class SocketIO {
    const data: Text
    const ready: nat -> nat
    var at: nat
    var polls: nat

    ghost predicate Valid()
      reads this
    {
      at <= |data| && forall k :: ready(k) >= 1
    }

    constructor (data: Text, ready: nat -> nat)
      requires forall k :: ready(k) >= 1
      ensures Valid() && this.data == data && at == 0
    {
      this.data, this.ready, at, polls := data, ready, 0, 0;
    }

    /** Reads until len bytes are there or the peer has closed, then replaces what must not be
        stored. */
    method DoRead(buf: array<Byte>, len: nat, checkInput: bool) returns (rc: int)
      requires Valid() && len < buf.Length && forall i | len <= i < buf.Length :: buf[i] == 0
      modifies this`at, this`polls, buf
      ensures Valid() && at == Past(data, old(at), len)
      ensures rc == if old(at) + len <= |data| then len else -1
      ensures rc >= 0 ==> buf[..len] == if checkInput then Clean(data[old(at)..at]) else data[old(at)..at]
      ensures forall i | len <= i < buf.Length :: buf[i] == 0
    {
      var total, tries := 0, 0;
      buf[0] := 0;
      while total != len && tries < len + 25
        invariant Valid() && 0 <= total <= len && at == old(at) + total && tries <= len + 25
        invariant at <= |data| && len < buf.Length
        invariant buf[..total] == data[old(at)..at]
        invariant forall i | len <= i < buf.Length :: buf[i] == 0
        invariant total >= tries || at == |data|
        decreases len + 25 - tries
      {
        tries := tries + 1;
        var n := ready(polls);
        polls := polls + 1;
        if n > len - total {
          n := len - total;
        }
        if n > |data| - at {
          n := |data| - at;
        }
        assert data[old(at)..at + n] == data[old(at)..at] + data[at..at + n];
        CopyIn(buf, total, n);
        total := total + n;
      }
      if total != len {
        return -1;
      }
      if checkInput {
        Replace(buf, len, data[old(at)..at]);
      }
      rc := total;
    }

    /** The next n bytes go to buf from offset from on. */
    method CopyIn(buf: array<Byte>, from: nat, n: nat)
      requires at + n <= |data| && from + n < buf.Length
      modifies this`at, buf
      ensures at == old(at) + n
      ensures buf[..from + n] == old(buf[..from]) + data[old(at)..at]
      ensures forall i | from + n <= i < buf.Length :: buf[i] == old(buf[i])
    {
      var i := 0;
      while i < n
        invariant i <= n && at == old(at)
        invariant buf[..from + i] == old(buf[..from]) + data[at..at + i]
        invariant forall k | from + i <= k < buf.Length :: buf[k] == old(buf[k])
      {
        buf[from + i] := data[at + i];
        i := i + 1;
      }
      at := at + n;
    }
  }

  method Replace(buf: array<Byte>, len: nat, ghost text: Text)
    requires len < buf.Length && buf[..len] == text && buf[len] == 0
    modifies buf
    ensures buf[..len] == Clean(text)
    ensures forall i | len <= i < buf.Length :: buf[i] == old(buf[i])
  {
    assert forall k | 0 <= k < len :: buf[k] == buf[..len][k];
    var i := 0;
    while i <= len
      invariant i <= len + 1
      invariant forall k | 0 <= k < i && k < len :: buf[k] == CleanByte(text[k])
      invariant forall k | i <= k < len :: buf[k] == text[k]
      invariant forall k | len <= k < buf.Length :: buf[k] == old(buf[k])
    {
      if buf[i] == 92 || buf[i] == 59 || buf[i] == 34 || buf[i] == 39 {
        buf[i] := SPACE;
      }
      i := i + 1;
    }
    assert forall k | 0 <= k < len :: buf[..len][k] == Clean(text)[k];
  }

  /** What C string functions see of a zero-terminated buffer is what they see of its text. */
  lemma {:induction false} CStringZeros(t: Text, z: Text)
    requires z != [] && z[0] == 0
    ensures CString(t + z) == CString(t)
  {
    if t != [] && t[0] != 0 {
      assert (t + z)[1..] == t[1..] + z;
      CStringZeros(t[1..], z);
    }
  }

  lemma CStringOfBuffer(buf: array<Byte>, len: nat)
    requires len < buf.Length && forall i | len <= i < buf.Length :: buf[i] == 0
    ensures CString(buf[..]) == CString(buf[..len])
    ensures Atoi(buf[..]) == Atoi(buf[..len])
  {
    hide CString;
    assert buf[..] == buf[..len] + buf[len..];
    CStringZeros(buf[..len], buf[len..]);
  }

  /** An output stream: the text so far, and the settings that stay until they are changed. The
      width is used up by one write. */
  class OutStream {
    var text: Text
    var fill: Byte
    var left: bool
    var width: nat

    ghost function Settings(): Format
      reads this
    {
      Format(fill, left)
    }

    constructor ()
      ensures text == [] && Settings() == FRESH && width == 0
    {
      text, fill, left, width := [], SPACE, false, 0;
    }

    method Write(t: Text)
      modifies this
      ensures text == old(text) + Pad(Settings(), t, old(width))
      ensures Settings() == old(Settings()) && width == 0
    {
      var n := if |t| < width then width - |t| else 0;
      var padding := Fill(fill, n);
      if left {
        text := text + t + padding;
      } else {
        text := text + padding + t;
      }
      width := 0;
    }
  }

  class Icomm {
    var header: Bitmap
    var fields: map<int, Text>
    var messageType: int
    var lrc: bv8
    var passChar: Byte

    ghost function View(): Message
      reads this
    {
      Message(messageType, header, fields)
    }

    constructor ()
      ensures View() == Message(0, Empty(), map[])
    {
      header, fields, messageType, lrc, passChar := Empty(), map[], 0, 0, 0;
    }

    method SetField(id: int, value: Text) returns (ok: bool)
      modifies this`header, this`fields
      ensures (View(), ok) == Set(old(View()), id, value)
    {
      if id < 1 || id > 127 {
        return false;
      }
      var text := CString(value);
      if |text| == 0 {
        return false;
      }
      fields := fields[id := text];
      header := header[id - 1 := true];
      if id > 64 {
        header := header[0 := true];
      }
      ok := true;
    }

    method AddToLRC(buf: array<Byte>, len: nat)
      requires len <= buf.Length
      modifies this`lrc
      ensures lrc == Xor(old(lrc), Lrc(buf[..len]))
    {
      hide Xor;
      hide Bits;
      var i := 0;
      XorLaws(lrc, 0, 0);
      while i < len
        invariant i <= len && lrc == Xor(old(lrc), Lrc(buf[..i]))
      {
        assert buf[..i + 1][..i] == buf[..i];
        XorLaws(old(lrc), Lrc(buf[..i]), Bits(buf[i]));
        lrc := Xor(lrc, Bits(buf[i]));
        i := i + 1;
      }
    }

    method TakeHeader(buf: array<Byte>, which: int)
      requires which == 1 || which == 2
      modifies this`header
      ensures header == SetHeader(old(header), buf[..], which)
    {
      hide HexValue;
      hide AddDigit;
      if which == 1 {
        header := Empty();
      }
      if which == 2 {
        header := header[0 := true];
      }
      var text := CString(buf[..]);
      if |text| != 16 {
        return;
      }
      ghost var start := header;
      var base := if which == 2 then 64 else 0;
      var j, i := base, 0;
      while i < 16
        invariant i <= 16 && j == base + 4 * i
        invariant AddDigits(header, text, i, base) == AddDigits(start, text, 0, base)
      {
        var v := HexValue(text[i]);
        if v == 16 {
          return;
        }
        header := AddDigit(header, j, v);
        i, j := i + 1, j + 4;
      }
    }

    // ----- reading -----

    ghost function Box(socket: SocketIO, good: bool): Inbox
      reads this, socket
    {
      Inbox(socket.at, lrc, View(), good)
    }

    /** The contents of a field into a buffer of its own, through the checked read. */
    method ReadContents(socket: SocketIO, id: nat, len: int) returns (good: bool)
      requires socket.Valid() && id < 128
      modifies this, socket
      ensures socket.Valid()
      ensures Box(socket, good) == IcommRead.ReadContents(socket.data, old(Box(socket, true)), id, len)
    {
      hide Xor;
      hide Lrc;
      hide Set;
      hide Clean;
      hide CString;
      if len < 0 {
        return false;
      }
      var buf := new Byte[len + 1](_ => 0);
      var rc := socket.DoRead(buf, len, true);
      if rc != len {
        return false;
      }
      AddToLRC(buf, len);
      CStringOfBuffer(buf, len);
      SetSees(View(), id, buf[..], buf[..len]);
      good := SetField(id, buf[..]);
    }

    method ReadField(socket: SocketIO, id: nat) returns (good: bool)
      requires socket.Valid() && id < 128
      modifies this, socket
      ensures socket.Valid()
      ensures Box(socket, good) == IcommRead.ReadField(socket.data, old(Box(socket, true)), id)
    {
      hide Xor;
      hide Lrc;
      hide Def;
      hide Atoi;
      hide CString;
      hide IcommRead.ReadContents;
      var def := Def(id);
      if def.Fixed? {
        good := ReadContents(socket, id, def.size);
        return;
      }
      var digits := PrefixDigits(def);
      var lbuf := new Byte[digits + 2](_ => 0);
      var rc := socket.DoRead(lbuf, digits, false);
      if rc != digits {
        return false;
      }
      AddToLRC(lbuf, digits);
      CStringOfBuffer(lbuf, digits);
      var s := Atoi(lbuf[..]);
      if s > LongestField(def) {
        s := LongestField(def);
      }
      good := ReadContents(socket, id, s);
    }

    method ReadHalf(socket: SocketIO, which: int) returns (good: bool)
      requires socket.Valid() && (which == 1 || which == 2)
      modifies this, socket
      ensures socket.Valid()
      ensures Box(socket, good) == ReadBitmap(socket.data, old(Box(socket, true)), which)
    {
      hide Xor;
      hide Lrc;
      hide CString;
      hide AddDigits;
      var buf := new Byte[17](_ => 0);
      var rc := socket.DoRead(buf, 16, false);
      if rc != 16 {
        return false;
      }
      AddToLRC(buf, 16);
      CStringOfBuffer(buf, 16);
      TakeHeader(buf, which);
      good := true;
    }

    /** Type, bitmap and fields, stopping at the first field that cannot be read. */
    method Read2(socket: SocketIO) returns (ghost good: bool)
      requires socket.Valid()
      modifies this, socket
      ensures socket.Valid()
      ensures Box(socket, good) == ReadMessage(socket.data, old(socket.at), old(View()))
    {
      hide Xor;
      hide Lrc;
      hide Atoi;
      hide CString;
      hide ReadBitmap;
      hide IcommRead.ReadField;
      good := false;
      lrc := 0;
      passChar := 0;
      var buf := new Byte[17](_ => 0);
      var rc := socket.DoRead(buf, 4, false);
      if rc != 4 {
        return;
      }
      AddToLRC(buf, 4);
      LrcFromZero(buf[..4]);
      CStringOfBuffer(buf, 4);
      messageType := Atoi(buf[..]);
      var ok := ReadHalf(socket, 1);
      if !ok {
        return;
      }
      if header[0] {
        ok := ReadHalf(socket, 2);
        if !ok {
          return;
        }
      }
      ok := ReadFieldsFrom(socket);
      good := ok;
    }

    method ReadFieldsFrom(socket: SocketIO) returns (ok: bool)
      requires socket.Valid()
      modifies this, socket
      ensures socket.Valid()
      ensures Box(socket, ok) == ReadFields(socket.data, old(Box(socket, true)), 2)
    {
      hide IcommRead.ReadField;
      ok := true;
      var i := 2;
      while i < 127 && ok
        invariant 2 <= i <= 127 && socket.Valid()
        invariant ReadFields(socket.data, Box(socket, ok), i) == ReadFields(socket.data, old(Box(socket, true)), 2)
      {
        if header[i - 1] {
          ok := ReadField(socket, i);
        }
        i := i + 1;
      }
    }

    /** One frame from the socket. */
    method Read(socket: SocketIO) returns (rc: int)
      requires socket.Valid()
      modifies this, socket
      ensures socket.Valid()
      ensures Outcome(rc, socket.at, View()) == ReadFrame(socket.data, old(socket.at), old(View()))
      ensures rc == 2 ==> passChar == socket.data[old(socket.at)]
    {
      hide Xor;
      hide Lrc;
      hide Bits;
      hide ReadMessage;
      lrc := 0;
      passChar := 0;
      var buf := new Byte[17](_ => 0);
      var len1 := socket.DoRead(buf, 1, false);
      if len1 != 1 {
        return len1;
      }
      assert buf[0] == buf[..1][0] == socket.data[old(socket.at)];
      if buf[0] != STX {
        passChar := buf[0];
        return 2;
      }
      ghost var good := Read2(socket);
      label Gathered:
      var end := new Byte[17](_ => 0);
      len1 := socket.DoRead(end, 1, false);
      if len1 == 1 {
        assert end[0] == end[..1][0] == socket.data[old@Gathered(socket.at)];
      }
      if len1 != 1 || end[0] != ETX {
        return 0;
      }
      AddToLRC(end, 1);
      LrcByte(ETX);
      assert end[..1] == [ETX];
      var inlrc := new Byte[2](_ => 0);
      len1 := socket.DoRead(inlrc, 1, false);
      if len1 != 1 {
        return 0;
      }
      assert inlrc[0] == inlrc[..1][0];
      if Bits(inlrc[0]) != lrc {
        return -1;
      }
      rc := 1;
    }

    /** A message from a string; false stands for the exception of substr. */
    method Parse(text: Text) returns (ok: bool)
      modifies this
      ensures ok <==> ParseMessage(text, old(View())).Some?
      ensures ok ==> ParseMessage(text, old(View())) == Some(View())
    {
      hide Atoi;
      hide SetHeader;
      hide ParseField;
      lrc := 0;
      passChar := 0;
      var mtype, first := Substr(text, 0, 4), Substr(text, 4, 16);
      if mtype == None || first == None {
        return false;
      }
      messageType := Atoi(mtype.value);
      header := SetHeader(header, first.value, 1);
      var pos: nat := 20;
      if header[0] {
        var second := Substr(text, pos, 16);
        if second == None {
          return false;
        }
        pos := pos + 16;
        header := SetHeader(header, second.value, 2);
      }
      ghost var start, from := View(), pos;
      var i := 2;
      while i < 127
        invariant 2 <= i <= 127
        invariant ParseFields(text, pos, View(), i) == ParseFields(text, from, start, 2)
      {
        if header[i - 1] {
          var r := ParseField(text, pos, Message(messageType, header, fields), i);
          if r == None {
            return false;
          }
          ParseFieldKeepsType(text, pos, View(), i);
          header, fields := r.value.0.header, r.value.0.fields;
          assert View() == r.value.0;
          pos := pos + r.value.1;
        }
        i := i + 1;
      }
      ok := true;
    }

    // ----- printing -----

    method PrintField(o: OutStream, id: nat)
      requires id < 128 && o.width == 0
      modifies o
      ensures o.width == 0
      ensures var (t, f) := IcommMessage.PrintField(old(o.Settings()), id, View().Field(id));
        o.text == old(o.text) + t && o.Settings() == f
    {
      hide Def;
      hide Precision;
      var def := Def(id);
      var field := if id in fields then fields[id] else [];
      if def.Fixed? {
        o.width := def.size;
        if !def.alpha {
          o.fill := 48;
          o.Write(field);
        } else {
          o.left := true;
          o.Write(field);
          o.fill := SPACE;
        }
      } else {
        var buf := Precision(|field|, PrefixDigits(def));
        o.Write(buf);
        o.Write(field);
        assert old(o.text) + buf + field == old(o.text) + (buf + field);
      }
    }

    method PrintBitmap(o: OutStream)
      requires o.width == 0
      modifies o
      ensures o.width == 0 && o.Settings() == old(o.Settings())
      ensures o.text == old(o.text) + HexDigits(header, if header[0] then 32 else 16)
    {
      hide HexDigit;
      var digits := if header[0] then 32 else 16;
      var k := 0;
      while k < digits
        invariant 0 <= k <= digits && o.width == 0 && o.Settings() == old(o.Settings())
        invariant o.text == old(o.text) + HexDigits(header, k)
      {
        o.Write([HexDigit(header[4 * k], header[4 * k + 1], header[4 * k + 2], header[4 * k + 3])]);
        k := k + 1;
      }
    }

    method PrintAll(o: OutStream)
      requires o.width == 0
      modifies o
      ensures var (t, f) := PrintFields(old(o.Settings()), View(), 1, if header[0] then 128 else 64);
        o.text == old(o.text) + t && o.Settings() == f
    {
      hide IcommMessage.PrintField;
      hide PrintFields;
      var s := if header[0] then 128 else 64;
      ghost var (all, last) := PrintFields(o.Settings(), View(), 1, s);
      var i := 1;
      while i < s
        invariant 1 <= i <= s && o.width == 0
        invariant o.text + PrintFields(o.Settings(), View(), i, s).0 == old(o.text) + all
        invariant PrintFields(o.Settings(), View(), i, s).1 == last
      {
        FieldsStep(o.Settings(), View(), i, s);
        if header[i] && i + 1 <= 127 {
          ghost var t := IcommMessage.PrintField(o.Settings(), i + 1, View().Field(i + 1)).0;
          ghost var before, rest := o.text, PrintFields(o.Settings(), View(), i, s).0;
          PrintField(o, i + 1);
          ghost var after := PrintFields(o.Settings(), View(), i + 1, s).0;
          assert before + t + after == before + (t + after);
        }
        i := i + 1;
      }
      FieldsEnd(o.Settings(), View(), s);
    }

    method Print(o: OutStream)
      requires o.width == 0
      modifies o
      ensures var (t, f) := IcommMessage.Print(old(o.Settings()), View());
        o.text == old(o.text) + t && o.Settings() == f
    {
      hide PrintFields;
      hide HexDigits;
      hide PrintType;
      hide Pad;
      if messageType > 999 {
        return;
      }
      PadNothing(o.Settings(), PrintType(messageType));
      o.Write(PrintType(messageType));
      PrintBitmap(o);
      PrintAll(o);
    }
  }

  lemma FieldsStep(f: Format, m: Message, i: nat, end: nat)
    requires i < end <= 128
    ensures m.header[i] && i + 1 <= 127 ==>
      var (t, g) := PrintField(f, i + 1, m.Field(i + 1));
      PrintFields(f, m, i, end) == (t + PrintFields(g, m, i + 1, end).0, PrintFields(g, m, i + 1, end).1)
    ensures !(m.header[i] && i + 1 <= 127) ==> PrintFields(f, m, i, end) == PrintFields(f, m, i + 1, end)
  {
    hide PrintField;
  }

  lemma FieldsEnd(f: Format, m: Message, end: nat)
    requires end <= 128
    ensures PrintFields(f, m, end, end) == ([], f)
  {
  }

  lemma PadNothing(f: Format, t: Text)
    ensures Pad(f, t, 0) == t
  {
  }

  lemma SetSees(m: Message, id: int, a: Text, b: Text)
    requires CString(a) == CString(b)
    ensures Set(m, id, a) == Set(m, id, b)
  {
  }

  lemma LrcFromZero(t: Text)
    ensures Xor(0, Lrc(t)) == Lrc(t)
  {
    XorLaws(Lrc(t), 0, 0);
  }

  lemma ParseFieldKeepsType(text: Text, at: nat, m: Message, id: nat)
    requires id < 127
    ensures ParseField(text, at, m, id).Some? ==> ParseField(text, at, m, id).value.0.mtype == m.mtype
  {
    hide Def;
    hide Atoi;
  }

  /** The check byte over buf[1..len + 1]. */
  method GatherCheck(buf: array<Byte>, len: nat, ghost text: Text) returns (lrc: bv8)
    requires len + 1 <= buf.Length && buf[1..1 + len] == text
    ensures lrc == Xor(Lrc(text), Bits(ETX))
  {
    hide Xor;
    hide Bits;
    lrc := 0;
    var i := 1;
    while i < len + 1
      invariant 1 <= i <= len + 1
      invariant lrc == Lrc(text[..i - 1])
    {
      assert buf[i] == buf[1..1 + len][i - 1] == text[i - 1];
      assert text[..i][..i - 1] == text[..i - 1];
      lrc := Xor(lrc, Bits(buf[i]));
      i := i + 1;
    }
    assert text[..len] == text;
    lrc := Xor(lrc, Bits(ETX));
  }

  lemma FramedIs(b: Text, text: Text, check: Byte)
    requires |b| == |text| + 3 && b[0] == STX && b[1..1 + |text|] == text
    requires b[|text| + 1] == ETX && b[|text| + 2] == check
    ensures b == Framed(text, check)
  {
    assert b == [b[0]] + b[1..1 + |text|] + [b[|text| + 1], b[|text| + 2]];
  }

  /** The frame that is written for a message. */
  method Send(hostOut: Icomm) returns (buf: array<Byte>)
    ensures fresh(buf) && buf[..] == Frame(hostOut.View())
  {
    hide Xor;
    hide Bits;
    hide Lrc;
    hide IcommMessage.Print;
    var o := new OutStream();
    hostOut.Print(o);
    var text := o.text;
    assert text == IcommMessage.Print(FRESH, hostOut.View()).0;
    var len := |text|;
    buf := new Byte[len + 3](i requires 0 <= i < len + 3 =>
      if i == 0 then STX else if i <= len then text[i - 1] else 0);
    assert buf[1..1 + len] == text;
    var lrc := GatherCheck(buf, len, text);
    label Gathered:
    buf[len + 1] := ETX;
    buf[len + 2] := Octet(lrc);
    assert buf[1..1 + len] == old@Gathered(buf[1..1 + len]);
    FramedIs(buf[..], text, Octet(lrc));
  }
}
