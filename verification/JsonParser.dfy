/** jsonParse: one loop over the buffer, three stack arrays, nodes linked on the heap. Proved to
    run the stack machine and to leave behind a structure that denotes the machine's value. */
module JsonParser {
  import opened ByteStrings
  import opened JsonText
  import opened JsonNumber
  import opened JsonTokens
  import opened Options
  import opened JsonGrammar
  import opened JsonHeap
  import opened JsonUnescape

  /** A token as found in the buffer. */
  datatype Found =
    | Scalar(o: JsonValue)
    | Opening(tag: Tag)
    | Closing(tag: Tag)
    | ColonMark
    | CommaMark
    | Bad(e: Errno)

  /** How one turn of the loop ends. */
  datatype Status = Going | Finished(o: JsonValue) | Stopped(e: Errno)

  /** Entry i of the stack arrays is the machine's frame f; ring holds the nodes linked so far. */
  ghost predicate FrameHeld(i: nat, f: Frame, ring: seq<JsonNode>, tail: JsonNode?, tag: Tag, key: Option<nat>,
                            closed: set<JsonNode>, mem: Text)
    reads ring, closed
  {
    && tag == f.tag && tail == Last(ring)
    && Ring(ring, i) && RingMembers(ring, f.tag, f.members, closed, mem)
    && (f.key.None? <==> key.None?) && (f.key.Some? ==> f.tag == ObjectTag && CStringAt(mem, key.value, f.key.value))
  }

  lemma FrameStays(i: nat, f: Frame, ring: seq<JsonNode>, tail: JsonNode?, tag: Tag, key: Option<nat>,
                   closed: set<JsonNode>, mem: Text, closed': set<JsonNode>, mem': Text)
    requires FrameHeld(i, f, ring, tail, tag, key, closed, mem)
    requires closed <= closed' && mem <= mem'
    ensures FrameHeld(i, f, ring, tail, tag, key, closed', mem')
  {
    hide CStringAt;
    if f.key.Some? { CStringStays(mem, mem', key.value, f.key.value); }
    forall j | 0 <= j < |ring| ensures DenotesMember(ring[j], f.tag, f.members[j], closed', mem') {
      MemberStays(ring[j], f.tag, f.members[j], closed, mem, closed', mem');
    }
  }

  lemma AttachStep(m: Machine, v: Value)
    requires m.frames != [] && (m.Top().tag == ObjectTag ==> m.Top().key.Some?)
    ensures var f := m.Top();
            var x := Member(if f.key.Some? then f.key.value else [], v);
            Deliver(m, v) == if m.supply == 0 then Failed(AllocationFailure)
                             else Running(Machine(m.Below() + [Frame(f.tag, None, f.members + [x])], m.separator, m.supply - 1))
  {
  }

  class Parse {
    const buf: array<Byte>
    const tails: array<JsonNode?>
    const tags: array<Tag>
    const keys: array<Option<nat>>
    var s: nat
    var pos: int
    var separator: bool
    var supply: nat
    ghost const text: Text
    ghost var frames: seq<Frame>
    ghost var rings: seq<seq<JsonNode>>
    ghost var closed: set<JsonNode>
    ghost var nodes: set<JsonNode>

    constructor (buf: array<Byte>, ghost text: Text, supply: nat)
      requires Holds(buf, 0, text) && 0 !in text
      ensures this.buf == buf && this.text == text && fresh(tails) && fresh(tags) && fresh(keys)
      ensures Input() && Stack() && Quiet() && s == 0 && Abstract() == Start(supply) && nodes == {}
    {
      this.buf := buf;
      this.text := text;
      tails := new JsonNode?[STACK_SIZE](_ => null);
      tags := new Tag[STACK_SIZE](_ => ArrayTag);
      keys := new Option<nat>[STACK_SIZE](_ => None);
      s, pos, separator := 0, -1, true;
      this.supply := supply;
      frames, rings, closed, nodes := [], [], {}, {};
    }

    ghost function Abstract(): Machine
      reads this`frames, this`separator, this`supply
    {
      Machine(frames, separator, supply)
    }

    /** What is unread is still the input text. */
    ghost predicate Input()
      reads this`s, buf
    {
      && 0 !in text && s <= |text| < buf.Length
      && forall j :: s <= j <= |text| ==> buf[j] == Peek(text, j)
    }

    /** The part of the buffer that finished strings live in. */
    ghost function Mem(): Text
      requires |text| < buf.Length && s <= |text|
      reads this`s, buf
    {
      buf[..if s < |text| then s else |text| + 1]
    }

    ghost predicate Shape()
      reads this`pos, this`frames, this`rings
    {
      && tails.Length == tags.Length == keys.Length == STACK_SIZE
      && tails as object != tags && tails as object != keys && tags as object != keys
      && buf as object != tails && buf as object != tags && buf as object != keys
      && |frames| == |rings| == pos + 1 && pos < STACK_SIZE
    }

    /** Outside all containers the last token was none. */
    ghost predicate Quiet()
      reads this`pos, this`separator
    {
      pos == -1 ==> separator
    }

    /** Open containers share no node with each other or with closed values. */
    ghost predicate Separate()
      reads this`rings, this`closed, this`nodes
    {
      closed <= nodes && forall i :: 0 <= i < |rings| ==> Apart(rings[i])
    }

    ghost predicate Apart(ring: seq<JsonNode>)
      reads this`closed, this`nodes
    {
      forall x :: x in ring ==> x in nodes && x !in closed
    }

    ghost predicate Held(i: nat, mem: Text)
      requires Shape() && Separate() && i < |rings|
      reads this`pos, this`frames, this`rings, this`closed, this`nodes, tails, tags, keys, nodes
    {
      FrameHeld(i, frames[i], rings[i], tails[i], tags[i], keys[i], closed, mem)
    }

    ghost predicate Stack()
      reads this`s, this`pos, this`frames, this`rings, this`closed, this`nodes, buf, tails, tags, keys, nodes
    {
      && |text| < buf.Length && s <= |text|
      && Shape() && Separate()
      && forall i :: 0 <= i < |rings| ==> Held(i, Mem())
    }

    /** How the machine's step shows in the parser. */
    ghost predicate Says(r: Status, step: Result)
      requires |text| < buf.Length && s <= |text|
      reads this, buf, closed
    {
      match step
      case Running(m) => r.Going? && Abstract() == m
      case Done(v) => r.Finished? && closed <= nodes && Denotes(r.o, v, closed, Mem())
      case Failed(e) => r == Stopped(e)
      case Overran => false
    }

    lemma FrameFacts(i: nat, mem: Text)
      requires Shape() && Separate() && i < |rings| && Held(i, mem)
      ensures tags[i] == frames[i].tag && tails[i] == Last(rings[i]) && (frames[i].key.None? <==> keys[i].None?)
      ensures |rings[i]| == |frames[i].members|
      ensures frames[i].key.Some? ==> frames[i].tag == ObjectTag && CStringAt(mem, keys[i].value, frames[i].key.value)
      ensures Ring(rings[i], i) && RingMembers(rings[i], frames[i].tag, frames[i].members, closed, mem)
    {
    }

    /** '[' and '{' */
    method Push(tag: Tag) returns (r: Status)
      requires Stack()
      modifies this`pos, this`separator, this`frames, this`rings, tails, tags, keys
      ensures Stack() && Says(r, Step(old(Abstract()), Open(tag)))
    {
      hide FrameHeld;
      hide CStringAt;
      hide Ring;
      hide RingMembers;
      hide Denotes;
      StepOpen(Abstract(), tag);
      hide Step;
      if pos + 1 == STACK_SIZE {
        return Stopped(StackOverflow);
      }
      ghost var mem := Mem();
      pos := pos + 1;
      tails[pos] := null;
      tags[pos] := tag;
      keys[pos] := None;
      separator := true;
      frames, rings := frames + [Frame(tag, None, [])], rings + [[]];
      assert rings[pos] == [];
      EmptyHeld(pos, tag, mem);
      forall i | 0 <= i < pos ensures Held(i, mem) {
        assert old(Held(i, mem));
      }
      r := Going;
    }

    static lemma StepOpen(m: Machine, tag: Tag)
      ensures Step(m, Open(tag)) == if |m.frames| == STACK_SIZE then Failed(StackOverflow)
                                    else Running(m.(frames := m.frames + [Frame(tag, None, [])], separator := true))
    {
    }

    lemma EmptyHeld(i: nat, tag: Tag, mem: Text)
      ensures FrameHeld(i, Frame(tag, None, []), [], null, tag, None, closed, mem)
    {
    }

    /** ':' and ',' */
    method Punctuate(colon: bool) returns (r: Status)
      requires Stack() && Quiet()
      modifies this`separator
      ensures Stack() && Says(r, Step(old(Abstract()), if colon then Colon else Comma))
    {
      hide FrameHeld;
      hide Ring;
      hide RingMembers;
      hide CStringAt;
      ghost var mem := Mem();
      if separator {
        return Stopped(UnexpectedCharacter);
      }
      FrameFacts(pos, mem);
      if keys[pos].None? == colon {
        return Stopped(UnexpectedCharacter);
      }
      separator := true;
      r := Going;
    }

    /** The ghost view of the innermost container, brought up to date. */
    ghost method ReplaceTop(f: Frame, ring: seq<JsonNode>, mem: Text)
      requires |text| < buf.Length && s <= |text| && mem == Mem()
      requires Shape() && Separate() && pos >= 0
      requires forall i :: 0 <= i < pos ==> Held(i, mem)
      requires FrameHeld(pos, f, ring, tails[pos], tags[pos], keys[pos], closed, mem)
      requires forall x :: x in ring ==> x !in closed
      modifies this`frames, this`rings, this`nodes
      ensures frames == old(frames)[..pos] + [f] && nodes == old(nodes) + set x | x in ring
      ensures Stack()
    {
      hide FrameHeld;
      frames := frames[..pos] + [f];
      rings := rings[..pos] + [ring];
      nodes := nodes + set x | x in ring;
      assert rings[pos] == ring;
      forall i | 0 <= i < pos ensures Held(i, mem) {
        assert old(Held(i, mem));
      }
    }

    lemma NewKey(i: nat, f: Frame, ring: seq<JsonNode>, tail: JsonNode?, tag: Tag, at: nat, key: Text, mem: Text)
      requires FrameHeld(i, f, ring, tail, tag, None, closed, mem) && f.tag == ObjectTag && CStringAt(mem, at, key)
      ensures FrameHeld(i, f.(key := Some(key)), ring, tail, tag, Some(at), closed, mem)
    {
    }

    static lemma DeliverKey(m: Machine, v: Value)
      requires m.frames != [] && m.Top().tag == ObjectTag && m.Top().key.None?
      ensures v.String? ==>
        Deliver(m, v) == Running(m.(frames := m.frames[..|m.frames| - 1] + [m.Top().(key := Some(v.s))]))
      ensures !v.String? ==> Deliver(m, v) == Failed(UnquotedKey)
    {
    }

    lemma TopApart()
      requires Shape() && Separate() && pos >= 0
      ensures forall x :: x in rings[pos] ==> x in nodes && x !in closed
    {
      assert Apart(rings[pos]);
    }

    lemma StringOrNot(o: JsonValue, v: Value, mem: Text)
      requires Denotes(o, v, closed, mem)
      ensures o.VString? <==> v.String?
      ensures o.VString? ==> CStringAt(mem, o.at, v.s)
    {
      hide CStringAt;
    }

    /** A string in key position. */
    method SetKey(o: JsonValue, ghost v: Value) returns (r: Status)
      requires Stack() && Denotes(o, v, closed, Mem())
      requires pos >= 0 && frames[pos].tag == ObjectTag && frames[pos].key.None?
      modifies this`frames, this`rings, this`nodes, keys
      ensures fresh(nodes - old(nodes))
      ensures Says(r, Deliver(old(Abstract()), v))
      ensures r.Going? ==> Stack()
    {
      hide FrameHeld;
      hide Ring;
      hide RingMembers;
      hide CStringAt;
      ghost var mem := Mem();
      StringOrNot(o, v, mem);
      TopApart();
      DeliverKey(Abstract(), v);
      hide Deliver;
      hide Denotes;
      hide Separate;
      if !o.VString? {
        return Stopped(UnquotedKey);
      }
      FrameFacts(pos, mem);
      assert Held(pos, mem);
      NewKey(pos, frames[pos], rings[pos], tails[pos], tags[pos], o.at, v.s, mem);
      keys[pos] := Some(o.at);
      forall i | 0 <= i < pos ensures Held(i, mem) {
        assert old(Held(i, mem));
      }
      ReplaceTop(frames[pos].(key := Some(v.s)), rings[pos], mem);
      r := Going;
    }

    /** Every node of a lower ring is another node than the last one of the top ring. */
    lemma RingsApart(i: nat, mem: Text)
      requires Shape() && Separate() && i < pos && Held(i, mem) && Held(pos, mem)
      ensures tails[pos] != null ==> tails[pos] !in rings[i] && tails[pos] !in closed
    {
      if tails[pos] != null {
        var top := rings[pos];
        assert tails[pos] == top[|top| - 1] && top[|top| - 1].level == pos;
        assert forall j :: 0 <= j < |rings[i]| ==> rings[i][j].level == i;
      }
    }

    /** The pointers of a new last member; the ghost fields follow in Attach. */
    method Link(node: JsonNode, o: JsonValue, ghost x: Member, ghost mem: Text)
      requires Shape() && Separate() && pos >= 0 && node !in nodes
      requires forall i :: 0 <= i <= pos ==> Held(i, mem)
      requires Denotes(o, x.value, closed, mem) && KeyDenotes(tags[pos], keys[pos], x.key, mem)
      modifies tails, keys, node, (if tails[pos] == null then {} else {tails[pos]})`next
      ensures FrameHeld(pos, Frame(frames[pos].tag, None, frames[pos].members + [x]), rings[pos] + [node],
                        tails[pos], tags[pos], keys[pos], closed, mem)
      ensures forall i :: 0 <= i < pos ==> Held(i, mem)
    {
      hide CStringAt;
      hide Denotes;
      hide Ring;
      hide RingMembers;
      hide KeyDenotes;
      hide Apart;
      ghost var f, ring := frames[pos], rings[pos];
      hide FrameHeld;
      NotLinked(node);
      LowerApart(mem);
      FrameFacts(pos, mem);
      label before:
      var tail := LinkNode(tails[pos], node, keys[pos], o, ring, pos, f.tag, f.members, x, closed, mem);
      tails[pos] := tail;
      keys[pos] := None;
      NewTop(pos, f, x, ring + [node], tail, tags[pos], mem);
      forall i | 0 <= i < pos ensures Held(i, mem) {
        assert old@before(Held(i, mem));
      }
    }

    lemma NotLinked(node: JsonNode)
      requires Shape() && Separate() && node !in nodes
      ensures node !in closed && forall i :: 0 <= i < |rings| ==> node !in rings[i]
    {
    }

    lemma NewTop(i: nat, f: Frame, x: Member, ring: seq<JsonNode>, tail: JsonNode?, tag: Tag, mem: Text)
      requires Ring(ring, i) && RingMembers(ring, f.tag, f.members + [x], closed, mem) && tail == Last(ring) && tag == f.tag
      ensures FrameHeld(i, Frame(f.tag, None, f.members + [x]), ring, tail, tag, None, closed, mem)
    {
    }

    lemma LowerApart(mem: Text)
      requires Shape() && Separate() && pos >= 0 && forall i :: 0 <= i <= pos ==> Held(i, mem)
      ensures forall i :: 0 <= i < pos ==> tails[pos] != null ==> tails[pos] !in rings[i]
      ensures tails[pos] != null ==> tails[pos] !in closed && tails[pos] in rings[pos]
    {
      forall i | 0 <= i < pos ensures tails[pos] != null ==> tails[pos] !in rings[i] {
        RingsApart(i, mem);
      }
      FrameFacts(pos, mem);
      if tails[pos] != null {
        assert tails[pos] == rings[pos][|rings[pos]| - 1];
      }
    }

    /** The node becomes the last member of the innermost container. */
    method Append(node: JsonNode, o: JsonValue, ghost x: Member)
      requires Stack() && pos >= 0 && node !in nodes
      requires Denotes(o, x.value, closed, Mem()) && KeyDenotes(tags[pos], keys[pos], x.key, Mem())
      modifies this`frames, this`rings, this`nodes, tails, keys, node
      modifies (if tails[pos] == null then {} else {tails[pos]})`next
      ensures Stack()
      ensures frames == old(frames[..pos] + [Frame(frames[pos].tag, None, frames[pos].members + [x])])
      ensures nodes <= old(nodes) + {node}
    {
      hide FrameHeld;
      hide CStringAt;
      hide Denotes;
      hide KeyDenotes;
      ghost var mem, f, ring := Mem(), frames[pos], rings[pos];
      LongerApart(ring, node);
      hide Apart;
      Link(node, o, x, mem);
      ReplaceTop(Frame(f.tag, None, f.members + [x]), ring + [node], mem);
    }

    lemma LongerApart(ring: seq<JsonNode>, node: JsonNode)
      requires Separate() && Apart(ring) && node !in nodes
      ensures forall x :: x in ring + [node] ==> x !in closed
    {
    }

    /** The key the next member will carry. */
    lemma PendingKey()
      requires Stack() && pos >= 0 && (frames[pos].tag == ObjectTag ==> frames[pos].key.Some?)
      ensures KeyDenotes(tags[pos], keys[pos], if frames[pos].key.Some? then frames[pos].key.value else [], Mem())
    {
      FrameFacts(pos, Mem());
    }

    /** A new node behind the last member of the innermost container. */
    method Attach(o: JsonValue, ghost v: Value) returns (r: Status)
      requires Stack() && Denotes(o, v, closed, Mem())
      requires pos >= 0 && (frames[pos].tag == ObjectTag ==> frames[pos].key.Some?)
      modifies this`supply, this`frames, this`rings, this`nodes, tails, keys
      modifies (if tails[pos] == null then {} else {tails[pos]})`next
      ensures fresh(nodes - old(nodes))
      ensures Says(r, Deliver(old(Abstract()), v))
      ensures r.Going? ==> Stack()
    {
      hide KeyDenotes;
      hide Denotes;
      hide Deliver;
      PendingKey();
      ghost var m := Abstract();
      AttachStep(m, v);
      assert Shape();
      hide Stack;
      if supply == 0 {
        return Stopped(AllocationFailure);
      }
      ghost var f := m.Top();
      ghost var x := Member(if f.key.Some? then f.key.value else [], v);
      var node := new JsonNode();
      Append(node, o, x);
      supply := supply - 1;
      r := Going;
    }

    lemma RingsDisjoint(i: nat, mem: Text)
      requires Shape() && Separate() && i < pos && Held(i, mem) && Held(pos, mem)
      ensures forall x :: x in rings[i] ==> x !in rings[pos]
    {
      assert forall j :: 0 <= j < |rings[i]| ==> rings[i][j].level == i;
      assert forall j :: 0 <= j < |rings[pos]| ==> rings[pos][j].level == pos;
    }

    /** The stack loses its top entry; the entry's nodes become part of a closed value. */
    method DropTop(ghost mem: Text)
      requires |text| < buf.Length && s <= |text| && mem == Mem()
      requires Shape() && Separate() && pos >= 0 && Apart(rings[pos])
      requires forall i :: 0 <= i < pos ==> Held(i, mem)
      requires forall i :: 0 <= i < pos ==> forall x :: x in rings[i] ==> x !in rings[pos]
      modifies this`pos, this`frames, this`rings, this`closed
      ensures frames == old(frames[..pos])
      ensures closed == old(closed + set x | x in rings[pos])
      ensures Stack()
    {
      hide FrameHeld;
      ghost var was := closed;
      closed := closed + set x | x in rings[pos];
      pos := pos - 1;
      frames, rings := frames[..pos + 1], rings[..pos + 1];
      forall i | 0 <= i < |rings| ensures Held(i, mem) {
        assert old(Held(i, mem));
        FrameStays(i, frames[i], rings[i], tails[i], tags[i], keys[i], was, mem, closed, mem);
      }
    }

    lemma AllApart(mem: Text)
      requires Shape() && Separate() && pos >= 0 && forall i :: 0 <= i <= pos ==> Held(i, mem)
      ensures forall i :: 0 <= i < pos ==> forall x :: x in rings[i] ==> x !in rings[pos]
    {
      forall i | 0 <= i < pos ensures forall x :: x in rings[i] ==> x !in rings[pos] {
        RingsDisjoint(i, mem);
      }
    }

    /** Closes the innermost container. */
    method Pop(tag: Tag) returns (o: JsonValue)
      requires Stack() && pos >= 0 && frames[pos].tag == tag
      modifies this`pos, this`frames, this`rings, this`closed, (if tails[pos] == null then {} else {tails[pos]})`next
      ensures Stack() && frames == old(frames[..pos])
      ensures Denotes(o, old(List(tag, frames[pos].members)), closed, Mem())
    {
      hide FrameHeld;
      hide Ring;
      hide RingMembers;
      hide CStringAt;
      hide Chain;
      hide Apart;
      hide Denotes;
      hide DenotesAll;
      ghost var mem, f, ring, was := Mem(), frames[pos], rings[pos], closed;
      FrameFacts(pos, mem);
      LowerApart(mem);
      AllApart(mem);
      assert forall i :: 0 <= i < pos ==> Held(i, mem);
      o := ListToValue(tag, tails[pos], ring, pos);
      forall i | 0 <= i < pos ensures Held(i, mem) {
        assert old(Held(i, mem));
      }
      assert RingMembers(ring, tag, f.members, was, mem);
      DropTop(mem);
      ChainClosed(ring, tag, f.members, was, mem);
    }

    lemma ChainClosed(ring: seq<JsonNode>, tag: Tag, ms: seq<Member>, was: set<JsonNode>, mem: Text)
      requires Chain(ring) && RingMembers(ring, tag, ms, was, mem) && closed == was + set x | x in ring
      ensures Denotes(VList(tag, if ring == [] then null else ring[0]), List(tag, ms), closed, mem)
    {
      ChainDenotes(ring, 0, tag, ms, was, closed, mem);
      assert ms[0..] == ms;
    }

    /** A value is complete. */
    method DeliverValue(o: JsonValue, ghost v: Value) returns (r: Status)
      requires Stack() && Denotes(o, v, closed, Mem())
      modifies this`separator, this`supply, this`frames, this`rings, this`nodes, tails, keys, nodes`next
      ensures fresh(nodes - old(nodes))
      ensures Says(r, Deliver(old(Abstract()).(separator := false), v))
      ensures r.Going? ==> Stack() && Quiet()
    {
      hide FrameHeld;
      hide Denotes;
      hide Stack;
      StackFacts();
      separator := false;
      if pos == -1 {
        return Finished(o);
      }
      if tags[pos] == ObjectTag && keys[pos].None? {
        r := SetKey(o, v);
      } else {
        r := Attach(o, v);
      }
    }

    lemma StackFacts()
      requires Stack()
      ensures Shape() && |text| < buf.Length && s <= |text| && closed <= nodes
      ensures pos >= 0 ==> tags[pos] == frames[pos].tag && (frames[pos].key.None? <==> keys[pos].None?)
      ensures pos >= 0 ==> frames[pos].key.Some? ==> frames[pos].tag == ObjectTag
      ensures pos >= 0 && tails[pos] != null ==> tails[pos] in nodes
    {
      if pos >= 0 {
        FrameFacts(pos, Mem());
        assert Apart(rings[pos]);
        if tails[pos] != null {
          assert tails[pos] == rings[pos][|rings[pos]| - 1];
        }
      }
    }

    /** ']' and '}' */
    method CloseContainer(tag: Tag) returns (r: Status)
      requires Stack()
      modifies this`pos, this`separator, this`supply, this`frames, this`rings, this`nodes, this`closed, tails, keys, nodes`next
      ensures fresh(nodes - old(nodes))
      ensures Says(r, Step(old(Abstract()), Close(tag)))
      ensures r.Going? ==> Stack() && Quiet()
    {
      hide FrameHeld;
      hide Denotes;
      hide Stack;
      hide Deliver;
      StackFacts();
      if pos == -1 {
        return Stopped(StackUnderflow);
      }
      if tags[pos] != tag {
        return Stopped(MismatchBracket);
      }
      if tag == ObjectTag && !keys[pos].None? {
        return Stopped(UnexpectedCharacter);
      }
      ghost var ms := frames[pos].members;
      assert old(Abstract()).Below() == frames[..pos];
      var o := Pop(tag);
      assert Abstract().(separator := false) == Machine(old(Abstract()).Below(), false, supply);
      r := DeliverValue(o, List(tag, ms));
    }

    // ----- tokens -----

    /** The parser found token x, which starts at offset `from`. */
    ghost predicate FoundIs(t: Found, x: Lexeme, from: nat)
      reads this`s, buf
    {
      match x.token
      case Junk(e) => t == Bad(e)
      case Overrun => true
      case Leaf(v) => After(from + x.len) && t.Scalar? && Denotes(t.o, v, {}, Mem())
      case Open(tag) => After(from + x.len) && t == Opening(tag)
      case Close(tag) => After(from + x.len) && t == Closing(tag)
      case Colon => After(from + x.len) && t == ColonMark
      case Comma => After(from + x.len) && t == CommaMark
    }

    ghost predicate After(at: nat)
      reads this`s, buf
    {
      s == at && Input()
    }

    method SkipSpaces()
      requires Input()
      modifies this`s
      ensures Input() && s == old(s) + SpaceRun(text[old(s)..])
    {
      hide SpaceRun;
      hide Peek;
      ghost var from := s;
      Here();
      while IsSpace(buf[s])
        invariant from <= s && Input() && buf[s] == Peek(text, s)
        invariant SpaceRun(text[from..]) == s - from + SpaceRun(text[s..])
        decreases |text| - s
      {
        OneSpace(text, s);
        s := s + 1;
        Here();
      }
      NoSpace(text, s);
    }

    lemma Here()
      requires Input()
      ensures buf[s] == Peek(text, s)
    {
    }

    static lemma OneSpace(u: Text, k: nat)
      requires k <= |u| && IsSpace(Peek(u, k))
      ensures k < |u| && SpaceRun(u[k..]) == 1 + SpaceRun(u[k + 1..])
    {
      assert u[k..][1..] == u[k + 1..];
    }

    static lemma NoSpace(u: Text, k: nat)
      requires k <= |u| && !IsSpace(Peek(u, k))
      ensures SpaceRun(u[k..]) == 0
    {
    }

    /** The rest of a literal whose first letter has been read. */
    method ReadWord(word: Text, o: JsonValue, ghost v: Scalar) returns (t: Found)
      requires Input() && 0 !in word && Denotes(o, v, {}, [])
      requires v.True? || v.False? || v.Null?
      modifies this`s
      ensures old(s) <= s <= |text|
      ensures if Spells(text[old(s)..], word) then t == Scalar(o) && After(old(s) + |word|) else t == Bad(BadIdentifier)
    {
      ghost var u := text[s..];
      var i := 0;
      while i < |word|
        invariant 0 <= i <= |word| && i <= |u| && word[..i] == u[..i]
      {
        assert buf[s + i] == Peek(u, i);
        if buf[s + i] != word[i] {
          assert |word| <= |u| ==> u[..|word|][i] != word[i];
          return Bad(BadIdentifier);
        }
        assert word[i] in word;
        i := i + 1;
      }
      assert word[..i] == word;
      assert buf[s + i] == Peek(u, i);
      if !IsDelim(buf[s + i]) {
        return Bad(BadIdentifier);
      }
      s := s + i;
      t := Scalar(o);
    }

    method ReadNumber() returns (t: Found)
      requires Input() && s < |text| && (IsDigit(buf[s]) || buf[s] == MINUS)
      modifies this`s
      ensures old(s) <= s <= |text|
      ensures FoundIs(t, NumberToken(text[old(s)..]), old(s))
    {
      hide SplitNumeral;
      hide ConvertedValue;
      ghost var u := text[s..];
      assert u[0] == buf[s];
      assert buf[s + 1] == Peek(u, 1);
      if buf[s] == MINUS && !IsDigit(buf[s + 1]) && buf[s + 1] != DOT {
        return Bad(BadNumber);
      }
      assert Holds(buf, s, u);
      var value, end := String2Double(buf, s, u);
      assert buf[end] == Peek(u, end - s);
      if !IsDelim(buf[end]) {
        return Bad(BadNumber);
      }
      s := end;
      t := Scalar(VNumber(value));
    }

    method ReadStringToken() returns (t: Found)
      requires Input() && s < |text| && buf[s] == QUOTE
      modifies this`s, buf
      ensures old(s) <= s <= |text|
      ensures FoundIs(t, StringToken(text[old(s)..]), old(s))
      ensures forall j :: 0 <= j <= old(s) ==> buf[j] == old(buf[j])
    {
      hide ScanString;
      hide StringValue;
      hide CStringAt;
      ghost var u := text[s..];
      var from := s;
      ghost var content := u[1..];
      assert content == text[s + 1..] && Holds(buf, s + 1, content);
      var ok, end := ReadString(buf, s + 1, content);
      if !ok {
        return Bad(BadString);
      }
      assert buf[end] == Peek(u, end - from) by { assert buf[end] == old(buf[end]); }
      if !IsDelim(buf[end]) {
        return Bad(BadString);
      }
      StringInside(buf[..], from + 1, content, end);
      s := end;
      t := Scalar(VString(from + 1));
    }

    /** A finished string lies within what has been read. */
    lemma StringInside(full: Text, at: nat, u: Text, end: nat)
      requires ScanString(u).Scanned? && CStringAt(full, at, StringValue(u, ScanString(u)))
      requires end == at + ScanString(u).len && at + |u| == |text| < |full|
      ensures CStringAt(full[..if end < |text| then end else |text| + 1], at, StringValue(u, ScanString(u)))
    {
      hide ScanString;
      var v := StringValue(u, ScanString(u));
      var mem := full[..if end < |text| then end else |text| + 1];
      StringValueFits(u, ScanString(u));
      hide StringValue;
      StringStays(full, mem, at, v);
    }

    static lemma StringValueFits(u: Text, r: Scan)
      requires r.Scanned? && |r.bytes| <= |u|
      ensures |StringValue(u, r)| <= if r.closed then |r.bytes| else |u|
    {
    }

    static lemma StringStays(full: Text, mem: Text, at: nat, v: Text)
      requires mem <= full && CStringAt(full, at, v) && at + |v| < |mem|
      ensures CStringAt(mem, at, v)
    {
      assert mem[at..at + |v|] == full[at..at + |v|];
    }

    /** The token whose first character is at s. */
    method TokenAt() returns (t: Found)
      requires Input() && s < |text|
      modifies this`s, buf
      ensures old(s) <= s <= |text|
      ensures FoundIs(t, TokenHere(text[old(s)..]), old(s))
      ensures forall j :: 0 <= j < old(s) ==> buf[j] == old(buf[j])
    {
      hide NumberToken;
      hide StringToken;
      hide Spells;
      ghost var u, from := text[s..], s;
      var c := buf[s];
      assert c == u[0] && text[s + 1..] == u[1..];
      if IsDigit(c) || c == MINUS {
        t := ReadNumber();
      } else if c == QUOTE {
        t := ReadStringToken();
      } else {
        s := s + 1;
        if c == 116 {
          t := ReadWord(RUE, VTrue, True);
        } else if c == 102 {
          t := ReadWord(ALSE, VFalse, False);
        } else if c == 110 {
          t := ReadWord(ULL, VNull, Null);
        } else {
          t := PunctuationAt(c);
        }
      }
    }

    function PunctuationAt(c: Byte): Found {
      if c == OPENBRACKET then Opening(ArrayTag)
      else if c == CLOSEBRACKET then Closing(ArrayTag)
      else if c == OPENBRACE then Opening(ObjectTag)
      else if c == CLOSEBRACE then Closing(ObjectTag)
      else if c == COLON then ColonMark
      else if c == COMMA then CommaMark
      else Bad(UnexpectedCharacter)
    }

    /** White space, then a token. */
    method ReadToken() returns (t: Found)
      requires Input() && s < |text| && !NextToken(text[s..]).token.Overrun?
      modifies this`s, buf
      ensures old(s) <= s <= |text|
      ensures FoundIs(t, NextToken(text[old(s)..]), old(s))
      ensures forall j :: 0 <= j < old(s) ==> buf[j] == old(buf[j])
    {
      hide TokenHere;
      ghost var u, from := text[s..], s;
      SkipSpaces();
      ghost var w := SpaceRun(u);
      assert text[s..] == u[w..];
      t := TokenAt();
    }

    // ----- the loop -----

    lemma StackGrows(mem: Text)
      requires |text| < buf.Length && s <= |text| && mem <= Mem()
      requires Shape() && Separate() && forall i :: 0 <= i < |rings| ==> Held(i, mem)
      ensures Stack()
    {
      hide FrameHeld;
      forall i | 0 <= i < |rings| ensures Held(i, Mem()) {
        assert Held(i, mem);
        FrameStays(i, frames[i], rings[i], tails[i], tags[i], keys[i], closed, mem, closed, Mem());
      }
    }

    /** What the token that was found does to the stack. */
    method Act(t: Found, ghost x: Lexeme, ghost from: nat) returns (r: Status)
      requires Stack() && Quiet() && FoundIs(t, x, from) && !x.token.Overrun?
      modifies this`pos, this`separator, this`supply, this`frames, this`rings, this`nodes, this`closed, tails, tags, keys, nodes`next
      ensures fresh(nodes - old(nodes))
      ensures Says(r, Step(old(Abstract()), x.token))
      ensures r.Going? ==> Stack() && Quiet()
    {
      hide FrameHeld;
      hide Denotes;
      hide Deliver;
      hide CloseList;
      match t
      case Scalar(o) =>
        DenotesStays(o, x.token.v, {}, Mem(), closed, Mem());
        r := DeliverValue(o, x.token.v);
      case Opening(tag) => r := Push(tag);
      case Closing(tag) => r := CloseContainer(tag);
      case ColonMark => r := Punctuate(true);
      case CommaMark => r := Punctuate(false);
      case Bad(e) => r := Stopped(e);
    }

    /** One turn of the loop; it consumes input. */
    method Turn() returns (r: Status)
      requires Input() && Stack() && Quiet() && s < |text| && !NextToken(text[s..]).token.Overrun?
      modifies this`s, this`pos, this`separator, this`supply, this`frames, this`rings, this`nodes, this`closed
      modifies buf, tails, tags, keys, nodes`next
      ensures |text| < buf.Length && s <= |text|
      ensures fresh(nodes - old(nodes))
      ensures Says(r, Step(old(Abstract()), NextToken(text[old(s)..]).token))
      ensures r.Going? ==> Input() && Stack() && Quiet()
      ensures !r.Stopped? ==> s == old(s) + NextToken(text[old(s)..]).len
    {
      hide FrameHeld;
      hide NextToken;
      hide Deliver;
      hide CloseList;
      ghost var mem, x, from := Mem(), NextToken(text[s..]), s;
      var t := ReadToken();
      assert mem <= Mem() by {
        assert forall j :: 0 <= j < from ==> Mem()[j] == mem[j];
      }
      StackGrows(mem);
      r := Act(t, x, from);
    }
  }

  lemma LexedStep(text: Text, s: nat)
    requires s < |text|
    ensures var x := NextToken(text[s..]);
            Lexed(text[s..]) == Next(text[s..], x.token, Lexed(text[s + x.len..]))
  {
    hide NextToken;
    assert text[s..][NextToken(text[s..]).len..] == text[s + NextToken(text[s..]).len..];
  }

  lemma LexedEnd(u: Text)
    requires u == []
    ensures Lexed(u) == End
  {
  }

  /** Return code, value and end pointer; the end pointer of a failed parse is not modelled. */
  datatype Parsing = OK(value: JsonValue, end: nat) | Error(e: Errno)

  /** What the outcome of the stack machine means for the caller. */
  ghost predicate Returns(p: Parsing, outcome: Outcome, length: nat, nodes: set<JsonNode>, mem: Text)
    reads nodes
  {
    match outcome
    case Parsed(v, rest) => p.OK? && p.end + |Unread(rest)| == length && Denotes(p.value, v, nodes, mem)
    case Rejected(e) => p == Error(e)
    case OutOfText => false
  }

  /** jsonParse. text is what precedes the first NUL of the buffer; supply is the number of nodes
      the allocator can hand out. */
  method JsonParse(buf: array<Byte>, ghost text: Text, supply: nat) returns (p: Parsing, ghost nodes: set<JsonNode>)
    requires Holds(buf, 0, text) && 0 !in text
    requires !Run(Lexed(text), Start(supply)).OutOfText?
    modifies buf
    ensures fresh(nodes)
    ensures Returns(p, Run(Lexed(text), Start(supply)), |text|, nodes, buf[..])
  {
    hide NextToken;
    hide Lexed;
    hide Deliver;
    hide CloseList;
    var parse := new Parse(buf, text, supply);
    ghost var outcome := Run(Lexed(text), Start(supply));
    assert text[0..] == text;
    while buf[parse.s] != 0
      invariant parse.buf == buf && parse.text == text && fresh(parse)
      invariant fresh(parse.tails) && fresh(parse.tags) && fresh(parse.keys) && fresh(parse.nodes)
      invariant parse.Input() && parse.Stack() && parse.Quiet()
      invariant Run(Lexed(text[parse.s..]), parse.Abstract()) == outcome
      decreases |text| - parse.s
    {
      LexedStep(text, parse.s);
      ghost var from, m := parse.s, parse.Abstract();
      var r := parse.Turn();
      match r
      case Going =>
      case Finished(o) =>
        assert parse.Mem() <= buf[..];
        UnreadLexed(text[parse.s..]);
        DenotesStays(o, outcome.v, parse.closed, parse.Mem(), parse.closed, buf[..]);
        return OK(o, parse.s), parse.closed;
      case Stopped(e) => return Error(e), {};
    }
    LexedEnd(text[parse.s..]);
    return Error(BreakingBad), {};
  }
}
