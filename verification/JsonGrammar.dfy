/** The stack machine that the parser runs over the tokens of a text, and the recursive grammar
    that the machine implements. */
module JsonGrammar {
  import opened ByteStrings
  import opened JsonText
  import opened JsonTokens
  import opened Options

  const STACK_SIZE: nat := 32

  // ----- the stack machine -----

  /** One open container: key is the key read last that still waits for its value. */
  datatype Frame = Frame(tag: Tag, key: Option<Text>, members: seq<Member>)

  /** separator: the last token was an opening bracket, a colon or a comma, or there was none.
      supply: how many more nodes the allocator will hand out. */
  datatype Machine = Machine(frames: seq<Frame>, separator: bool, supply: nat) {
    function Top(): Frame
      requires frames != []
    {
      frames[|frames| - 1]
    }

    function Below(): seq<Frame>
      requires frames != []
    {
      frames[..|frames| - 1]
    }

    function SetTop(f: Frame): Machine
      requires frames != []
    {
      this.(frames := Below() + [f])
    }
  }

  datatype Result = Running(m: Machine) | Done(v: Value) | Failed(e: Errno) | Overran

  function Deliver(m: Machine, v: Value): Result {
    if m.frames == [] then Done(v)
    else
      var f := m.Top();
      if f.tag == ObjectTag && f.key.None? then
        if v.String? then Running(m.SetTop(f.(key := Some(v.s)))) else Failed(UnquotedKey)
      else if m.supply == 0 then Failed(AllocationFailure)
      else
        var key := if f.key.Some? then f.key.value else [];
        Running(m.SetTop(Frame(f.tag, None, f.members + [Member(key, v)])).(supply := m.supply - 1))
  }

  function CloseList(m: Machine, tag: Tag): Result {
    if m.frames == [] then Failed(StackUnderflow)
    else
      var f := m.Top();
      if f.tag != tag then Failed(MismatchBracket)
      else if tag == ObjectTag && f.key.Some? then Failed(UnexpectedCharacter)
      else Deliver(Machine(m.Below(), false, m.supply), List(tag, f.members))
  }

  function Step(m: Machine, t: Token): Result {
    match t
    case Leaf(v) => Deliver(m.(separator := false), v)
    case Open(tag) =>
      if |m.frames| == STACK_SIZE then Failed(StackOverflow)
      else Running(m.(frames := m.frames + [Frame(tag, None, [])], separator := true))
    case Close(tag) => CloseList(m, tag)
    case Colon =>
      if m.separator || m.frames == [] || m.Top().key.None? then Failed(UnexpectedCharacter)
      else Running(m.(separator := true))
    case Comma =>
      if m.separator || m.frames == [] || m.Top().key.Some? then Failed(UnexpectedCharacter)
      else Running(m.(separator := true))
    case Junk(e) => Failed(e)
    case Overrun => Overran
  }

  /** rest: the tokens not read. */
  datatype Outcome = Parsed(v: Value, rest: Tokens) | Rejected(e: Errno) | OutOfText

  function Run(ts: Tokens, m: Machine): Outcome
    decreases ts, 0
  {
    match ts
    case End => Rejected(BreakingBad)
    case Next(_, t, tail) => Resume(tail, Step(m, t))
  }

  /** What happens to the unread tokens after a step with result r. */
  function Resume(ts: Tokens, r: Result): Outcome
    decreases ts, 1
  {
    match r
    case Running(m) => Run(ts, m)
    case Done(v) => Parsed(v, ts)
    case Failed(e) => Rejected(e)
    case Overran => OutOfText
  }

  function Start(supply: nat): Machine {
    Machine([], true, supply)
  }

  // ----- the grammar -----

  /** A value and the tokens after it. Commas between members, and the colon after a key, may be
      missing; a comma may stand before the closing bracket. */
  function ParseValue(ts: Tokens): (r: Option<(Value, Tokens)>)
    ensures r.Some? ==> r.value.1 < ts
    decreases ts, 0
  {
    match ts
    case Next(_, Leaf(v), tail) => Some((v, tail))
    case Next(_, Open(tag), tail) => AsList(tag, ParseMembers(tag, tail, true))
    case _ => None
  }

  function AsList(tag: Tag, r: Option<(seq<Member>, Tokens)>): Option<(Value, Tokens)> {
    match r
    case Some((ms, rest)) => Some((List(tag, ms), rest))
    case None => None
  }

  /** The members up to the closing bracket; separator tells whether a comma just went by. */
  function ParseMembers(tag: Tag, ts: Tokens, separator: bool): (r: Option<(seq<Member>, Tokens)>)
    ensures r.Some? ==> r.value.1 < ts
    decreases ts, 1
  {
    match ts
    case Next(_, Close(t), tail) => if t == tag then Some(([], tail)) else None
    case Next(_, Comma, tail) => if separator then None else ParseMembers(tag, tail, true)
    case Next(_, Leaf(v), tail) =>
      if tag == ArrayTag then ParseMember(tag, [], ParseValue(ts), ts)
      else if v.String? then ParseMember(tag, v.s, ParseAfterKey(tail, false), tail)
      else None
    case Next(_, Open(_), _) => if tag == ArrayTag then ParseMember(tag, [], ParseValue(ts), ts) else None
    case _ => None
  }

  /** Member `key` with its value, which was read from ts, then the other members. */
  function ParseMember(tag: Tag, key: Text, first: Option<(Value, Tokens)>, ghost ts: Tokens): (r: Option<(seq<Member>, Tokens)>)
    requires first.Some? ==> first.value.1 < ts
    ensures r.Some? ==> r.value.1 < ts
    decreases ts, 0
  {
    match first
    case Some((v, rest)) => FollowedBy(tag, Member(key, v), rest)
    case None => None
  }

  function FollowedBy(tag: Tag, x: Member, ts: Tokens): (r: Option<(seq<Member>, Tokens)>)
    ensures r.Some? ==> r.value.1 < ts
    decreases ts, 2
  {
    match ParseMembers(tag, ts, false)
    case Some((ms, rest)) => Some(([x] + ms, rest))
    case None => None
  }

  /** The value of a key; separator tells whether the colon went by. */
  function ParseAfterKey(ts: Tokens, separator: bool): (r: Option<(Value, Tokens)>)
    ensures r.Some? ==> r.value.1 < ts
    decreases ts, 1
  {
    match ts
    case Next(_, Colon, tail) => if separator then None else ParseAfterKey(tail, true)
    case _ => ParseValue(ts)
  }

  // ----- sizes -----

  function Depth(v: Value): nat
    decreases v, 0
  {
    if v.List? then 1 + DepthAll(v.members) else 0
  }

  function DepthAll(ms: seq<Member>): nat
    decreases ms, 1
  {
    if ms == [] then 0
    else
      var d, e := Depth(ms[0].value), DepthAll(ms[1..]);
      if d > e then d else e
  }

  function Nodes(v: Value): nat
    decreases v, 0
  {
    if v.List? then NodesAll(v.members) else 0
  }

  function NodesAll(ms: seq<Member>): nat
    decreases ms, 1
  {
    if ms == [] then 0 else Nodes(ms[0].value) + 1 + NodesAll(ms[1..])
  }

  // ----- the machine implements the grammar -----

  predicate StartsValue(ts: Tokens) {
    ts.Next? && (ts.token.Leaf? || ts.token.Open?)
  }

  predicate Fits(m: Machine, depth: nat, nodes: nat) {
    |m.frames| + depth <= STACK_SIZE && nodes <= m.supply
  }

  /** Where the machine stands once it has read value v and the tokens rest are left. */
  function AfterValue(m: Machine, v: Value, rest: Tokens): Outcome
    requires Nodes(v) <= m.supply
  {
    Resume(rest, Deliver(m.(separator := false, supply := m.supply - Nodes(v)), v))
  }

  lemma {:induction false} ValueRuns(ts: Tokens, m: Machine)
    requires StartsValue(ts) && |m.frames| <= STACK_SIZE
    ensures match ParseValue(ts)
            case Some((v, rest)) =>
              if Fits(m, Depth(v), Nodes(v)) then Run(ts, m) == AfterValue(m, v, rest)
              else !Run(ts, m).Parsed?
            case None => !Run(ts, m).Parsed?
    decreases ts, 0
  {
    if ts.token.Open? && |m.frames| < STACK_SIZE {
      var tag := ts.token.tag;
      var m' := m.(frames := m.frames + [Frame(tag, None, [])], separator := true);
      assert m'.Below() == m.frames;
      MembersRun(tag, ts.tail, m', []);
      var p := ParseMembers(tag, ts.tail, true);
      if p.Some? {
        assert [] + p.value.0 == p.value.0;
      }
    }
  }

  /** A container is open with the members acc; `key` is what the next member will carry. */
  predicate Collecting(m: Machine, tag: Tag, key: Text, acc: seq<Member>) {
    && 0 < |m.frames| <= STACK_SIZE
    && m.Top().tag == tag && m.Top().members == acc
    && (if tag == ArrayTag then m.Top().key.None? && key == [] else m.Top().key == Some(key))
  }

  function Extended(m: Machine, x: Member): Machine
    requires m.frames != [] && m.supply > 0
  {
    Machine(m.Below() + [Frame(m.Top().tag, None, m.Top().members + [x])], false, m.supply - 1)
  }

  /** The machine between two members of the innermost container. */
  predicate Between(m: Machine, tag: Tag, acc: seq<Member>) {
    0 < |m.frames| <= STACK_SIZE && m.Top() == Frame(tag, None, acc)
  }

  function AfterMembers(m: Machine, tag: Tag, all: seq<Member>, nodes: nat, rest: Tokens): Outcome
    requires m.frames != [] && nodes <= m.supply
  {
    Resume(rest, Deliver(Machine(m.Below(), false, m.supply - nodes), List(tag, all)))
  }

  /** What a run from m that ends in o must come to, when the grammar reads r. */
  predicate Agrees(o: Outcome, m: Machine, tag: Tag, acc: seq<Member>, r: Option<(seq<Member>, Tokens)>)
    requires m.frames != []
  {
    match r
    case Some((ms, rest)) =>
      if Fits(m, DepthAll(ms), NodesAll(ms)) then o == AfterMembers(m, tag, acc + ms, NodesAll(ms), rest)
      else !o.Parsed?
    case None => !o.Parsed?
  }

  lemma {:induction false} MembersRun(tag: Tag, ts: Tokens, m: Machine, acc: seq<Member>)
    requires Between(m, tag, acc)
    ensures Agrees(Run(ts, m), m, tag, acc, ParseMembers(tag, ts, m.separator))
    decreases ts, 3
  {
    match ts
    case Next(_, Close(t), tail) => assert acc + [] == acc;
    case Next(_, Comma, tail) =>
      if !m.separator {
        MembersRun(tag, tail, m.(separator := true), acc);
      }
    case Next(_, Leaf(v), tail) =>
      if tag == ArrayTag {
        MemberRuns(tag, [], ts, m, acc);
      } else if v.String? {
        KeyRuns(ts, m, acc);
      }
    case Next(_, Open(_), _) =>
      if tag == ArrayTag {
        MemberRuns(tag, [], ts, m, acc);
      } else {
        ValueRuns(ts, m);
      }
    case _ =>
  }

  /** A key is read first. */
  lemma {:induction false} KeyRuns(ts: Tokens, m: Machine, acc: seq<Member>)
    requires Between(m, ObjectTag, acc)
    requires ts.Next? && ts.token.Leaf? && ts.token.v.String?
    ensures Agrees(Run(ts, m), m, ObjectTag, acc, ParseMembers(ObjectTag, ts, m.separator))
    decreases ts, 2
  {
    var key := ts.token.v.s;
    var m' := m.SetTop(Frame(ObjectTag, Some(key), acc)).(separator := false);
    assert m'.Below() == m.Below();
    AfterKeyRuns(key, ts.tail, m', acc);
  }

  /** The next member's value starts the tokens. */
  lemma {:induction false} MemberRuns(tag: Tag, key: Text, ts: Tokens, m: Machine, acc: seq<Member>)
    requires Collecting(m, tag, key, acc) && StartsValue(ts)
    ensures Agrees(Run(ts, m), m, tag, acc, ParseMember(tag, key, ParseValue(ts), ts))
    decreases ts, 1
  {
    ValueRuns(ts, m);
    var p := ParseValue(ts);
    if p.Some? {
      var x := Member(key, p.value.0);
      if Fits(m, Depth(x.value), Nodes(x.value)) {
        MemberDone(tag, x, p.value.1, m, acc);
      } else {
        FirstTooBig(tag, x, p.value.1, m);
      }
    }
  }

  lemma FirstTooBig(tag: Tag, x: Member, ts: Tokens, m: Machine)
    requires !Fits(m, Depth(x.value), Nodes(x.value))
    ensures var r := FollowedBy(tag, x, ts);
            r.Some? ==> !Fits(m, DepthAll(r.value.0), NodesAll(r.value.0))
  {
    hide Run;
    hide ParseMembers;
    hide Depth;
    hide Nodes;
    var p := ParseMembers(tag, ts, false);
    if p.Some? {
      assert ([x] + p.value.0)[1..] == p.value.0;
    }
  }

  /** The member's value has been read and ts is what follows it. */
  lemma {:induction false} MemberDone(tag: Tag, x: Member, ts: Tokens, m: Machine, acc: seq<Member>)
    requires Collecting(m, tag, x.key, acc) && Fits(m, Depth(x.value), Nodes(x.value))
    ensures Agrees(AfterValue(m, x.value, ts), m, tag, acc, FollowedBy(tag, x, ts))
    decreases ts, 4
  {
    hide Run;
    hide ParseMembers;
    var p := ParseMembers(tag, ts, false);
    if p.Some? { ConsMember(x, p.value.0, acc); }
    hide Depth;
    hide Nodes;
    hide DepthAll;
    hide NodesAll;
    var before := m.(separator := false, supply := m.supply - Nodes(x.value));
    DeliverMember(before, tag, x, acc);
    if before.supply > 0 {
      hide Deliver;
      hide Collecting;
      MembersRun(tag, ts, Extended(before, x), acc + [x]);
    }
  }

  lemma ConsMember(x: Member, ms: seq<Member>, acc: seq<Member>)
    ensures acc + [x] + ms == acc + ([x] + ms)
    ensures NodesAll([x] + ms) == Nodes(x.value) + 1 + NodesAll(ms)
    ensures DepthAll([x] + ms) == if Depth(x.value) > DepthAll(ms) then Depth(x.value) else DepthAll(ms)
  {
    assert ([x] + ms)[1..] == ms;
  }

  /** What the machine makes of a member's value. */
  lemma DeliverMember(m: Machine, tag: Tag, x: Member, acc: seq<Member>)
    requires Collecting(m, tag, x.key, acc) && !m.separator
    ensures m.supply == 0 ==> Deliver(m, x.value) == Failed(AllocationFailure)
    ensures m.supply > 0 ==>
      Deliver(m, x.value) == Running(Extended(m, x)) && Extended(m, x).Below() == m.Below()
      && Between(Extended(m, x), tag, acc + [x])
  {
  }

  lemma {:induction false} AfterKeyRuns(key: Text, ts: Tokens, m: Machine, acc: seq<Member>)
    requires Collecting(m, ObjectTag, key, acc)
    ensures Agrees(Run(ts, m), m, ObjectTag, acc, ParseMember(ObjectTag, key, ParseAfterKey(ts, m.separator), ts))
    decreases ts, 2
  {
    if ts.Next? && ts.token.Colon? {
      if !m.separator {
        AfterKeyRuns(key, ts.tail, m.(separator := true), acc);
      }
    } else if StartsValue(ts) {
      MemberRuns(ObjectTag, key, ts, m, acc);
    }
  }

  /** The parser accepts exactly the values of the grammar that nest at most 32 deep and whose
      nodes the allocator can supply, and reads exactly as much of the text. */
  lemma ParserIsGrammar(ts: Tokens, supply: nat, v: Value, rest: Tokens)
    ensures Run(ts, Start(supply)) == Parsed(v, rest)
       <==> ParseValue(ts) == Some((v, rest)) && Depth(v) <= STACK_SIZE && Nodes(v) <= supply
  {
    if StartsValue(ts) {
      ValueRuns(ts, Start(supply));
    }
  }

  // ----- stepping over the NUL -----

  lemma {:induction false} SpaceRunInside(u: Text)
    requires u != [] && !IsSpace(u[|u| - 1])
    ensures SpaceRun(u) < |u|
  {
    if IsSpace(u[0]) { SpaceRunInside(u[1..]); }
  }

  lemma NoOverrun(u: Text)
    requires u != [] && !IsSpace(u[|u| - 1])
    ensures NextToken(u).token != Overrun
  {
    hide TokenHere;
    SpaceRunInside(u);
  }

  lemma OnlyOverrunOverruns(m: Machine, t: Token)
    ensures Step(m, t) == Overran <==> t == Overrun
  {
  }

  /** The parser steps over the terminating NUL only if white space stands right before it. */
  lemma {:induction false} OnlyTrailingSpaceOverruns(u: Text, m: Machine)
    requires u == [] || !IsSpace(u[|u| - 1])
    ensures Run(Lexed(u), m) != OutOfText
    decreases |u|
  {
    hide TokenHere;
    hide Step;
    hide SpaceRun;
    if u != [] {
      NoOverrun(u);
      hide NextToken;
      var x := NextToken(u);
      var rest := u[x.len..];
      var r := Step(m, x.token);
      OnlyOverrunOverruns(m, x.token);
      if r.Running? {
        OnlyTrailingSpaceOverruns(rest, r.m);
      }
    }
  }
}
