/** Reading one string: the escapes are decoded in place, into the part of the buffer that has
    been read already. */
module JsonUnescape {
  import opened ByteStrings
  import opened JsonText
  import opened JsonNumber
  import opened JsonHeap

  /** Four hexadecimal digits after the 'u' at offset s. */
  method ReadHexQuad(buf: array<Byte>, s0: nat, ghost u: Text) returns (ok: bool, c: int)
    requires Holds(buf, s0, u) && |u| >= 2 && u[0] == BACKSLASH && u[1] == 117
    ensures ok <==> |u| >= 6 && (forall i :: 2 <= i < 6 ==> IsHex(u[i]))
    ensures ok ==> c == HexQuad(u)
  {
    c := 0;
    var i := 0;
    ghost var v := 0;
    while i < 4
      invariant 0 <= i <= 4 && i + 2 <= |u|
      invariant forall k :: 2 <= k < i + 2 ==> IsHex(u[k])
      invariant i == 0 ==> c == 0
      invariant i == 1 ==> c == HexValue(u[2])
      invariant i == 2 ==> c == HexValue(u[2]) * 16 + HexValue(u[3])
      invariant i == 3 ==> c == (HexValue(u[2]) * 16 + HexValue(u[3])) * 16 + HexValue(u[4])
      invariant i == 4 ==> c == HexQuad(u)
    {
      assert buf[s0 + 2 + i] == Peek(u, i + 2);
      if !IsHex(buf[s0 + 2 + i]) {
        return false, 0;
      }
      c := c * 16 + HexValue(buf[s0 + 2 + i]);
      i := i + 1;
    }
    ok := true;
  }

  /** The UTF-8 form of c, written from offset `to` on. */
  method WriteUtf8(buf: array<Byte>, to: nat, c: int) returns (end: nat)
    requires 0 <= c < 0x1_0000 && to + 3 <= buf.Length
    modifies buf
    ensures end == to + |Utf8(c)| && buf[to..end] == Utf8(c)
    ensures forall j :: 0 <= j < buf.Length && !(to <= j < end) ==> buf[j] == old(buf[j])
  {
    if c < 0x80 {
      buf[to] := c;
      end := to + 1;
    } else if c < 0x800 {
      buf[to] := 0xC0 + c / 64;
      buf[to + 1] := 0x80 + c % 64;
      end := to + 2;
    } else {
      buf[to] := 0xE0 + c / 4096;
      buf[to + 1] := 0x80 + (c / 64) % 64;
      buf[to + 2] := 0x80 + c % 64;
      end := to + 3;
    }
  }

  /** The escape at offset s, decoded to offset `to`. */
  method ReadEscape(buf: array<Byte>, to: nat, s: nat, ghost u: Text) returns (ok: bool, to': nat, s': nat)
    requires Holds(buf, s, u) && u != [] && u[0] == BACKSLASH && to <= s
    modifies buf
    ensures ok <==> DecodeEscape(u).Escaped?
    ensures ok ==> to' == to + |DecodeEscape(u).bytes| && s' == s + DecodeEscape(u).len && to' <= s' <= s + |u|
    ensures ok ==> buf[to..to'] == DecodeEscape(u).bytes
    ensures forall j :: 0 <= j < to ==> buf[j] == old(buf[j])
    ensures ok ==> forall j :: to' <= j < buf.Length ==> buf[j] == old(buf[j])
  {
    ok, to', s' := true, to + 1, s + 2;
    assert buf[s + 1] == Peek(u, 1);
    var c := buf[s + 1];
    if c == BACKSLASH || c == QUOTE || c == SLASH {
      buf[to] := c;
    } else if c == 98 {
      buf[to] := 8;
    } else if c == 102 {
      buf[to] := 12;
    } else if c == 110 {
      buf[to] := 10;
    } else if c == 114 {
      buf[to] := 13;
    } else if c == 116 {
      buf[to] := 9;
    } else if c == 117 {
      var code;
      ok, code := ReadHexQuad(buf, s, u);
      if ok {
        to' := WriteUtf8(buf, to, code);
        s' := s + 6;
      }
    } else {
      ok := false;
    }
  }

  lemma ScanEscape(u: Text)
    requires u != [] && u[0] == BACKSLASH
    ensures var e := DecodeEscape(u);
            if e.Escaped? then ScanString(u) == ScanString(u[e.len..]).After(e.bytes, e.len) else ScanString(u).BadScan?
  {
  }

  lemma ScanPlain(u: Text)
    requires u != [] && u[0] != BACKSLASH
    ensures if u[0] < SPACE || u[0] == DELETE then ScanString(u).BadScan?
            else if u[0] == QUOTE then ScanString(u) == Scanned([], 1, true)
            else ScanString(u) == ScanString(u[1..]).After([u[0]], 1)
  {
  }

  /** The scan of u has got to offset i and left `out` behind. */
  ghost predicate ScannedTo(u: Text, i: nat, out: Text)
    requires i <= |u|
  {
    ScanString(u) == ScanString(u[i..]).After(out, i)
  }

  /** One more piece decoded: b, from the n characters at offset i. */
  lemma ScanOn(u: Text, i: nat, out: Text, b: Text, n: nat)
    requires i + n <= |u| && ScannedTo(u, i, out)
    requires ScanString(u[i..]) == ScanString(u[i..][n..]).After(b, n)
    ensures ScannedTo(u, i + n, out + b)
  {
    hide ScanString;
    assert u[i..][n..] == u[i + n..];
    AfterAfter(ScanString(u[i + n..]), b, n, out, i);
  }

  lemma EscapeOn(u: Text, i: nat, out: Text)
    requires i < |u| && u[i] == BACKSLASH && ScannedTo(u, i, out)
    ensures var e := DecodeEscape(u[i..]);
            if e.Escaped? then ScannedTo(u, i + e.len, out + e.bytes) else ScanString(u).BadScan?
  {
    hide ScanString;
    hide DecodeEscape;
    var e := DecodeEscape(u[i..]);
    ScanEscape(u[i..]);
    if e.Escaped? {
      ScanOn(u, i, out, e.bytes, e.len);
    }
  }

  lemma PlainOn(u: Text, i: nat, out: Text)
    requires i < |u| && u[i] != BACKSLASH && ScannedTo(u, i, out)
    ensures if u[i] < SPACE || u[i] == DELETE then ScanString(u).BadScan?
            else if u[i] == QUOTE then ScanString(u) == Scanned(out, i + 1, true)
            else ScannedTo(u, i + 1, out + [u[i]])
  {
    hide ScanString;
    ScanPlain(u[i..]);
    if u[i] >= SPACE && u[i] != DELETE && u[i] != QUOTE {
      ScanOn(u, i, out, [u[i]], 1);
    }
    assert out + [] == out;
  }

  method EscapeStep(buf: array<Byte>, ghost at: nat, it: nat, s: nat, ghost u: Text) returns (ok: bool, it': nat, s': nat)
    requires at <= it <= s < at + |u| < buf.Length && buf[at + |u|] == 0 && u[s - at] == BACKSLASH
    requires forall j :: s <= j < at + |u| ==> buf[j] == u[j - at]
    requires ScannedTo(u, s - at, buf[at..it])
    modifies buf
    ensures ok ==> it <= it' <= s' <= at + |u| && s < s' && ScannedTo(u, s' - at, buf[at..it'])
    ensures !ok ==> ScanString(u).BadScan?
    ensures forall j :: 0 <= j < it ==> buf[j] == old(buf[j])
    ensures ok ==> forall j :: it' <= j < buf.Length ==> buf[j] == old(buf[j])
  {
    hide ScannedTo;
    hide ScanString;
    hide DecodeEscape;
    ghost var i, out := s - at, buf[at..it];
    ghost var e := DecodeEscape(u[i..]);
    EscapeOn(u, i, out);
    ok, it', s' := ReadEscape(buf, it, s, u[i..]);
    if ok {
      assert buf[at..it] == out;
      assert buf[at..it'] == buf[at..it] + buf[it..it'];
    }
  }

  /** Reads the string that starts at offset `at`. */
  method ReadString(buf: array<Byte>, at: nat, ghost u: Text) returns (ok: bool, s: nat)
    requires Holds(buf, at, u) && 0 !in u
    modifies buf
    ensures ok <==> ScanString(u).Scanned?
    ensures ok ==> s == at + ScanString(u).len && CStringAt(buf[..], at, StringValue(u, ScanString(u)))
    ensures ok ==> Left(buf, at, ScanString(u))
    ensures forall j :: 0 <= j < at ==> buf[j] == old(buf[j])
    ensures ok ==> forall j :: s <= j < buf.Length ==> buf[j] == old(buf[j])
  {
    hide ScannedTo;
    hide ScanString;
    hide DecodeEscape;
    hide StringValue;
    hide CStringAt;
    var it := at;
    s := at;
    StartScan(u);
    assert buf[at..it] == [];
    while buf[s] != 0
      invariant at <= it <= s <= at + |u|
      invariant forall j :: 0 <= j < at || it <= j < buf.Length ==> buf[j] == old(buf[j])
      invariant ScannedTo(u, s - at, buf[at..it])
      decreases at + |u| - s
    {
      var c := buf[s];
      ghost var i, out := s - at, buf[at..it];
      assert c == u[i];
      if c == BACKSLASH {
        ok, it, s := EscapeStep(buf, at, it, s, u);
        if !ok {
          return;
        }
      } else {
        PlainOn(u, i, out);
        if c < SPACE || c == DELETE {
          ok := false;
          return;
        }
        s := s + 1;
        if c == QUOTE {
          buf[it] := 0;
          ok := true;
          assert buf[at..it] == out;
          Terminated(buf[..], at, it, u, i + 1, out);
          return;
        }
        buf[it] := c;
        it := it + 1;
        assert buf[at..it] == out + [c];
      }
    }
    ok := true;
    EndScan(u, buf[at..it]);
    Unclosed(buf[..], at, it, u, buf[at..it]);
  }

  lemma StartScan(u: Text)
    ensures ScannedTo(u, 0, [])
  {
    assert u[0..] == u;
    var r := ScanString(u);
    if r.Scanned? { assert [] + r.bytes == r.bytes; }
  }

  lemma EndScan(u: Text, out: Text)
    requires ScannedTo(u, |u|, out)
    ensures ScanString(u) == Scanned(out, |u|, false)
  {
    hide ScanString;
    ScanNothing();
    assert u[|u|..] == [];
    assert out + [] == out;
  }

  lemma ScanNothing()
    ensures ScanString([]) == Scanned([], 0, false)
  {
  }

  lemma Unclosed(mem: Text, at: nat, end: nat, u: Text, b: Text)
    requires at <= end <= at + |u| < |mem| && mem[at + |u|] == 0 && b == mem[at..end]
    requires forall j :: end <= j < at + |u| ==> mem[j] == u[j - at]
    ensures CStringAt(mem, at, StringValue(u, Scanned(b, |u|, false)))
  {
    assert mem[at..at + |u|] == b + u[|b|..];
    var s := CString(b + u[|b|..]);
    assert mem[at..at + |s|] == mem[at..at + |u|][..|s|];
  }

  /** What the scan left in the buffer: the unescaped characters and, after a closing quote, a
      terminating NUL. */
  predicate Left(buf: array<Byte>, at: nat, r: Scan)
    requires r.Scanned?
    reads buf
  {
    at + |r.bytes| < buf.Length && buf[at..at + |r.bytes|] == r.bytes && (r.closed ==> buf[at + |r.bytes|] == 0)
  }

  lemma Terminated(mem: Text, at: nat, end: nat, u: Text, len: nat, b: Text)
    requires at <= end < |mem| && mem[end] == 0 && end - at <= |u| && b == mem[at..end]
    ensures CStringAt(mem, at, StringValue(u, Scanned(b, len, true)))
  {
    var s := CString(b);
    assert mem[at..at + |s|] == b[..|s|];
  }
}
