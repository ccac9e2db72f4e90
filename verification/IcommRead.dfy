/** Reading a message: from a byte stream, with the check byte gathered piece by piece, and from
    a string. */
module IcommRead {
  import opened ByteStrings
  import opened Decimals
  import opened IcommText
  import opened IcommMessage
  import opened Options

  // ----- a byte stream -----

  /** The next n bytes from offset at, if the stream has them before it ends. */
  function Take(data: Text, at: nat, n: nat): Option<Text> {
    if at + n <= |data| then Some(data[at..at + n]) else None
  }

  function Past(data: Text, at: nat, n: nat): (next: nat)
    requires at <= |data|
    ensures at <= next <= |data|
  {
    if at + n <= |data| then at + n else |data|
  }

  /** A message in the middle of being read; good is false once a field could not be read. */
  datatype Inbox = Inbox(at: nat, lrc: bv8, m: Message, good: bool)

  /** The contents of a field: what is stored, and what the check byte counts, is the text after
      replacement. A negative length is no length. */
  function ReadContents(data: Text, b: Inbox, id: nat, len: int): (r: Inbox)
    requires id < 128 && b.at <= |data|
    ensures b.at <= r.at <= |data|
  {
    if len < 0 then b.(good := false)
    else
      var t := Take(data, b.at, len);
      if t == None then b.(at := Past(data, b.at, len), good := false)
      else
        var text := Clean(t.value);
        var (m, good) := Set(b.m, id, text);
        Inbox(b.at + len, Xor(b.lrc, Lrc(text)), m, good)
  }

  function ReadField(data: Text, b: Inbox, id: nat): (r: Inbox)
    requires id < 128 && b.at <= |data|
    ensures b.at <= r.at <= |data|
  {
    var def := Def(id);
    if def.Fixed? then ReadContents(data, b, id, def.size)
    else
      var t := Take(data, b.at, PrefixDigits(def));
      if t == None then b.(at := Past(data, b.at, PrefixDigits(def)), good := false)
      else
        var len := Atoi(t.value);
        var counted := b.(at := b.at + |t.value|, lrc := Xor(b.lrc, Lrc(t.value)));
        ReadContents(data, counted, id, if len > LongestField(def) then LongestField(def) else len)
  }

  /** The fields from id on, up to the first that cannot be read; 127 is never read. */
  function ReadFields(data: Text, b: Inbox, id: nat): (r: Inbox)
    requires b.at <= |data|
    ensures b.at <= r.at <= |data|
    decreases 127 - id
  {
    if id >= 127 || !b.good then b
    else ReadFields(data, if b.m.Has(id) then ReadField(data, b, id) else b, id + 1)
  }

  /** Half of the bitmap; a stream that ends here ends the message. */
  function ReadBitmap(data: Text, b: Inbox, which: int): (r: Inbox)
    requires b.at <= |data| && (which == 1 || which == 2)
    ensures b.at <= r.at <= |data|
  {
    var t := Take(data, b.at, 16);
    if t == None then b.(at := Past(data, b.at, 16), good := false)
    else Inbox(b.at + 16, Xor(b.lrc, Lrc(t.value)), b.m.(header := SetHeader(b.m.header, t.value, which)), true)
  }

  /** Type, bitmap and fields. */
  function ReadMessage(data: Text, at: nat, m: Message): (r: Inbox)
    requires at <= |data|
    ensures at <= r.at <= |data|
  {
    var t := Take(data, at, 4);
    if t == None then Inbox(Past(data, at, 4), 0, m, false)
    else
      var b := ReadBitmap(data, Inbox(at + 4, Lrc(t.value), m.(mtype := Atoi(t.value)), true), 1);
      var c := if b.good && b.m.header[0] then ReadBitmap(data, b, 2) else b;
      if c.good then ReadFields(data, c, 2) else c
  }

  /** The result code of a read, where it leaves the stream, and the message as it is then. */
  datatype Outcome = Outcome(rc: int, at: nat, m: Message)

  /** One frame. The result of reading the message is not looked at: only ETX and the check byte
      decide. */
  function ReadFrame(data: Text, at: nat, m: Message): (r: Outcome)
    requires at <= |data|
    ensures at <= r.at <= |data|
  {
    var stx := Take(data, at, 1);
    if stx == None then Outcome(-1, |data|, m)
    else if stx.value[0] != STX then Outcome(2, at + 1, m)
    else
      var b := ReadMessage(data, at + 1, m);
      var etx := Take(data, b.at, 1);
      if etx == None || etx.value[0] != ETX then Outcome(0, Past(data, b.at, 1), b.m)
      else
        var check := Take(data, b.at + 1, 1);
        if check == None then Outcome(0, |data|, b.m)
        else if Bits(check.value[0]) != Xor(b.lrc, Bits(ETX)) then Outcome(-1, b.at + 2, b.m)
        else Outcome(1, b.at + 2, b.m)
  }

  // ----- a string -----

  /** substr: None is the exception it throws. */
  function Substr(text: Text, at: nat, n: nat): Option<Text> {
    if at > |text| then None
    else Some(if at + n <= |text| then text[at..at + n] else text[at..])
  }

  /** The message with the field read, and how many bytes the field took. */
  function ParseField(text: Text, at: nat, m: Message, id: nat): Option<(Message, nat)>
    requires id < 127
  {
    var def := Def(id);
    if def.Fixed? then
      var t := Substr(text, at, def.size);
      if t == None then None else Some((Set(m, id, t.value).0, def.size))
    else
      var prefix := Substr(text, at, PrefixDigits(def));
      if prefix == None || Atoi(prefix.value) < 0 then None
      else
        var len := if Atoi(prefix.value) > LongestField(def) then LongestField(def) else Atoi(prefix.value);
        var t := Substr(text, at + PrefixDigits(def), len);
        if t == None then None else Some((Set(m, id, t.value).0, len + PrefixDigits(def)))
  }

  function ParseFields(text: Text, at: nat, m: Message, id: nat): Option<Message>
    decreases 127 - id
  {
    if id >= 127 then Some(m)
    else if !m.Has(id) then ParseFields(text, at, m, id + 1)
    else
      var r := ParseField(text, at, m, id);
      if r == None then None else ParseFields(text, at + r.value.1, r.value.0, id + 1)
  }

  function ParseMessage(text: Text, m: Message): Option<Message> {
    var mtype := Substr(text, 0, 4);
    var first := Substr(text, 4, 16);
    if mtype == None || first == None then None
    else
      var m1 := m.(mtype := Atoi(mtype.value), header := SetHeader(m.header, first.value, 1));
      if !m1.header[0] then ParseFields(text, 20, m1, 2)
      else
        var second := Substr(text, 20, 16);
        if second == None then None
        else ParseFields(text, 36, m1.(header := SetHeader(m1.header, second.value, 2)), 2)
  }
}
