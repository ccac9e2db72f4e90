/** dumpString and dumpValue: the printer, run over the parser's own structures. */
module JsonDump {
  import opened ByteStrings
  import opened JsonText
  import opened JsonTokens
  import opened JsonHeap
  import opened JsonPrint
  import opened JsonRoundTrip

  lemma {:induction false} EscapeSnoc(s: Text, c: Byte)
    ensures EscapeText(s + [c]) == EscapeText(s) + EscapeChar(c)
  {
    hide EscapeChar;
    if s == [] {
      assert s + [c] == [c] && [c][1..] == [];
    } else {
      EscapeSnoc(s[1..], c);
      assert (s + [c])[1..] == s[1..] + [c];
      assert EscapeChar(s[0]) + (EscapeText(s[1..]) + EscapeChar(c)) == EscapeChar(s[0]) + EscapeText(s[1..]) + EscapeChar(c);
    }
  }

  /** Prints the string that starts at offset `at` and ends before the next NUL. */
  method DumpString(buf: array<Byte>, at: nat, ghost s: Text) returns (out: Text)
    requires CStringAt(buf[..], at, s)
    ensures out == PrintString(s)
  {
    hide EscapeText;
    out := [QUOTE];
    var i := at;
    assert buf[at..at + |s|] == s;
    NoNul(buf[..], at, s);
    assert s[..0] == [];
    EmptyEscape();
    while buf[i] != 0
      invariant at <= i <= at + |s| && out == [QUOTE] + EscapeText(s[..i - at])
      decreases at + |s| - i
    {
      assert buf[i] == s[i - at];
      EscapeSnoc(s[..i - at], buf[i]);
      assert s[..i - at] + [buf[i]] == s[..i + 1 - at];
      out := out + EscapeChar(buf[i]);
      i := i + 1;
    }
    assert s[..i - at] == s;
    out := out + [QUOTE];
  }

  lemma NoNul(mem: Text, at: nat, s: Text)
    requires CStringAt(mem, at, s)
    ensures forall j {:trigger mem[j]} :: at <= j < at + |s| ==> mem[j] != 0
  {
    assert forall j {:trigger mem[j]} :: at <= j < at + |s| ==> mem[j] == mem[at..at + |s|][j - at];
  }

  lemma EmptyEscape()
    ensures EscapeText([]) == []
  {
  }

  /** Key, colon and value of one member. */
  method DumpMember(buf: array<Byte>, n: JsonNode, tag: Tag, indent: nat, ghost x: Member, ghost nodes: set<JsonNode>) returns (out: Text)
    requires DenotesMember(n, tag, x, nodes, buf[..])
    ensures out == PrintMember(tag, x, indent)
    decreases x, 1
  {
    out := Spaces(indent);
    if tag == ObjectTag {
      var key := DumpString(buf, n.key.value, x.key);
      out := out + (key + [COLON, SPACE]);
    }
    var value := DumpValue(buf, n.value, indent, x.value, nodes);
    out := out + value;
  }

  lemma NextMember(tag: Tag, ms: seq<Member>, k: nat, indent: nat, out: Text, all: Text)
    requires k < |ms| && all == out + PrintMembers(tag, ms[k..], indent)
    ensures all == (out + PrintMember(tag, ms[k], indent) + LineEnd(k + 1 < |ms|)) + PrintMembers(tag, ms[k + 1..], indent)
  {
    hide PrintMember;
    var rest := ms[k..];
    assert rest[0] == ms[k] && rest[1..] == ms[k + 1..];
    var m, l, t := PrintMember(tag, ms[k], indent), LineEnd(k + 1 < |ms|), PrintMembers(tag, rest[1..], indent);
    assert PrintMembers(tag, rest, indent) == m + l + t;
    assert out + (m + l + t) == (out + m + l) + t;
  }

  /** The list at a node is the first member, then the list at the next node. */
  lemma FirstNode(i: JsonNode, tag: Tag, ms: seq<Member>, k: nat, nodes: set<JsonNode>, mem: Text)
    requires k <= |ms| && DenotesAll(i, tag, ms[k..], nodes, mem)
    ensures k < |ms| && DenotesMember(i, tag, ms[k], nodes, mem)
    ensures DenotesAll(i.next, tag, ms[k + 1..], nodes, mem) && (i.next != null <==> k + 1 < |ms|)
  {
    hide DenotesMember;
    assert ms[k..][0] == ms[k] && ms[k..][1..] == ms[k + 1..];
  }

  method DumpMembers(buf: array<Byte>, head: JsonNode?, tag: Tag, indent: nat, ghost ms: seq<Member>, ghost nodes: set<JsonNode>) returns (out: Text)
    requires DenotesAll(head, tag, ms, nodes, buf[..])
    ensures out == PrintMembers(tag, ms, indent)
    decreases ms, 2
  {
    hide PrintMembers;
    hide PrintMember;
    hide LineEnd;
    hide DenotesMember;
    hide DenotesAll;
    out := [];
    var i := head;
    ghost var k, all := 0, PrintMembers(tag, ms, indent);
    assert ms[0..] == ms;
    while i != null
      invariant k <= |ms| && DenotesAll(i, tag, ms[k..], nodes, buf[..])
      invariant all == out + PrintMembers(tag, ms[k..], indent)
      decreases |ms| - k
    {
      FirstNode(i, tag, ms, k, nodes, buf[..]);
      NextMember(tag, ms, k, indent, out, all);
      var member := DumpMember(buf, i, tag, indent, ms[k], nodes);
      out := out + member + LineEnd(i.next != null);
      i := i.next;
      k := k + 1;
    }
    LastMember(tag, ms[k..], indent, nodes, buf[..]);
  }

  lemma LastMember(tag: Tag, ms: seq<Member>, indent: nat, nodes: set<JsonNode>, mem: Text)
    requires DenotesAll(null, tag, ms, nodes, mem)
    ensures PrintMembers(tag, ms, indent) == []
  {
  }

  /** dumpValue, with its output collected. */
  method DumpValue(buf: array<Byte>, o: JsonValue, indent: nat, ghost v: Value, ghost nodes: set<JsonNode>) returns (out: Text)
    requires Denotes(o, v, nodes, buf[..])
    ensures out == Print(v, indent)
    decreases v, 3
  {
    match o
    case VNumber(r) => out := PrintNumber(r);
    case VString(at) => out := DumpString(buf, at, v.s);
    case VTrue => out := [116] + RUE;
    case VFalse => out := [102] + ALSE;
    case VNull => out := [110] + ULL;
    case VList(tag, head) =>
      if head == null {
        out := [OpeningOf(tag), ClosingOf(tag)];
      } else {
        var members := DumpMembers(buf, head, tag, indent + SHIFT_WIDTH, v.members, nodes);
        out := [OpeningOf(tag), NEWLINE] + members + Spaces(indent) + [ClosingOf(tag)];
      }
  }
}
