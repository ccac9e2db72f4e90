/** Parsed values as the parser leaves them behind: nodes linked on the heap, strings inside
    the input buffer. Denotes says which value such a structure stands for. */
module JsonHeap {
  import opened ByteStrings
  import opened JsonText
  import opened JsonTokens
  import opened Options

  /** A string is the offset of its first character in the input buffer. */
  datatype JsonValue =
    | VNumber(r: real)
    | VString(at: nat)
    | VTrue
    | VFalse
    | VNull
    | VList(tag: Tag, head: JsonNode?)

  /** level and index place a node of an open container: its stack level, and its position. */
  class JsonNode {
    var value: JsonValue
    var next: JsonNode?
    var key: Option<nat>
    ghost var level: nat
    ghost var index: nat

    constructor ()
    {
      value := VNull;
      next := null;
      key := None;
    }
  }

  // ----- strings in the buffer -----

  predicate CStringAt(mem: Text, at: nat, s: Text) {
    at + |s| < |mem| && mem[at..at + |s|] == s && mem[at + |s|] == 0 && 0 !in s
  }

  lemma CStringStays(mem: Text, mem': Text, at: nat, s: Text)
    requires CStringAt(mem, at, s) && mem <= mem'
    ensures CStringAt(mem', at, s)
  {
    assert mem'[..|mem|] == mem;
    assert mem'[at..at + |s|] == mem[at..at + |s|];
  }

  predicate KeyDenotes(tag: Tag, key: Option<nat>, s: Text, mem: Text) {
    if tag == ObjectTag then key.Some? && CStringAt(mem, key.value, s) else s == []
  }

  // ----- closed values -----

  /** v is the value t: every node it is made of lies in nodes, every string in mem. */
  ghost predicate Denotes(v: JsonValue, t: Value, nodes: set<JsonNode>, mem: Text)
    reads nodes
    decreases t, 0
  {
    match t
    case Number(r) => v == VNumber(r)
    case String(s) => v.VString? && CStringAt(mem, v.at, s)
    case True => v == VTrue
    case False => v == VFalse
    case Null => v == VNull
    case List(tag, ms) => v.VList? && v.tag == tag && DenotesAll(v.head, tag, ms, nodes, mem)
  }

  /** The null-terminated list that starts at n has the members ms, in that order. */
  ghost predicate DenotesAll(n: JsonNode?, tag: Tag, ms: seq<Member>, nodes: set<JsonNode>, mem: Text)
    reads nodes
    decreases ms, 1
  {
    if ms == [] then n == null
    else
      && n != null && n in nodes
      && DenotesMember(n, tag, ms[0], nodes, mem)
      && DenotesAll(n.next, tag, ms[1..], nodes, mem)
  }

  ghost predicate DenotesMember(n: JsonNode, tag: Tag, x: Member, nodes: set<JsonNode>, mem: Text)
    reads nodes, n`key, n`value
    decreases x, 1
  {
    KeyDenotes(tag, n.key, x.key, mem) && Denotes(n.value, x.value, nodes, mem)
  }

  /** More nodes and more text after the strings change nothing. */
  lemma {:induction false} DenotesStays(v: JsonValue, t: Value, nodes: set<JsonNode>, mem: Text, nodes': set<JsonNode>, mem': Text)
    requires Denotes(v, t, nodes, mem) && nodes <= nodes' && mem <= mem'
    ensures Denotes(v, t, nodes', mem')
    decreases t, 0
  {
    match t
    case String(s) => CStringStays(mem, mem', v.at, s);
    case List(tag, ms) => DenotesAllStays(v.head, tag, ms, nodes, mem, nodes', mem');
    case _ =>
  }

  lemma {:induction false} DenotesAllStays(n: JsonNode?, tag: Tag, ms: seq<Member>, nodes: set<JsonNode>, mem: Text, nodes': set<JsonNode>, mem': Text)
    requires DenotesAll(n, tag, ms, nodes, mem) && nodes <= nodes' && mem <= mem'
    ensures DenotesAll(n, tag, ms, nodes', mem')
    decreases ms, 1
  {
    if ms != [] {
      MemberStays(n, tag, ms[0], nodes, mem, nodes', mem');
      DenotesAllStays(n.next, tag, ms[1..], nodes, mem, nodes', mem');
    }
  }

  lemma {:induction false} MemberStays(n: JsonNode, tag: Tag, x: Member, nodes: set<JsonNode>, mem: Text, nodes': set<JsonNode>, mem': Text)
    requires DenotesMember(n, tag, x, nodes, mem) && nodes <= nodes' && mem <= mem'
    ensures DenotesMember(n, tag, x, nodes', mem')
    decreases x, 1
  {
    if tag == ObjectTag { CStringStays(mem, mem', n.key.value, x.key); }
    DenotesStays(n.value, x.value, nodes, mem, nodes', mem');
  }

  // ----- open containers -----

  function Last(ring: seq<JsonNode>): JsonNode? {
    if ring == [] then null else ring[|ring| - 1]
  }

  /** The nodes of the container open at a stack level, in source order: each points to the
      next, the last one back to the first. */
  ghost predicate Ring(ring: seq<JsonNode>, level: nat)
    reads (set x | x in ring)`next, (set x | x in ring)`level, (set x | x in ring)`index
  {
    forall i {:trigger ring[i]} :: 0 <= i < |ring| ==>
      && ring[i].level == level && ring[i].index == i
      && ring[i].next == if i + 1 < |ring| then ring[i + 1] else ring[0]
  }

  /** The nodes stand for the members ms; their values are closed. */
  ghost predicate RingMembers(ring: seq<JsonNode>, tag: Tag, ms: seq<Member>, nodes: set<JsonNode>, mem: Text)
    reads (set x | x in ring)`key, (set x | x in ring)`value, nodes
  {
    |ring| == |ms| && forall i :: 0 <= i < |ring| ==> DenotesMember(ring[i], tag, ms[i], nodes, mem)
  }

  /** The list from index i on: acyclic, ending in null. */
  ghost predicate Chain(ring: seq<JsonNode>)
    reads ring
  {
    forall i {:trigger ring[i]} :: 0 <= i < |ring| ==> ring[i].next == if i + 1 < |ring| then ring[i + 1] else null
  }

  method InsertAfter(tail: JsonNode?, node: JsonNode, ghost ring: seq<JsonNode>, ghost level: nat) returns (newTail: JsonNode)
    requires Ring(ring, level) && tail == Last(ring) && node !in ring
    modifies node`next, node`level, node`index, (if tail == null then {} else {tail})`next
    ensures newTail == node == Last(ring + [node])
    ensures Ring(ring + [node], level)
  {
    ghost var longer := ring + [node];
    node.level := level;
    node.index := |ring|;
    if tail == null {
      node.next := node;
      return node;
    }
    assert tail == ring[|ring| - 1] && tail.next == ring[0];
    assert forall i {:trigger ring[i]} :: 0 <= i < |ring| - 1 ==> ring[i] != tail && ring[i] != node;
    node.next := tail.next;
    tail.next := node;
    newTail := node;
    forall i | 0 <= i < |longer|
      ensures longer[i].level == level && longer[i].index == i
      ensures longer[i].next == if i + 1 < |longer| then longer[i + 1] else longer[0]
    {
      if i < |ring| {
        assert longer[i] == ring[i];
      }
    }
  }

  /** A new last member: its node takes its place in the ring and gets key and value. */
  method LinkNode(tail: JsonNode?, node: JsonNode, key: Option<nat>, o: JsonValue, ghost ring: seq<JsonNode>, ghost level: nat,
                  ghost tag: Tag, ghost ms: seq<Member>, ghost x: Member, ghost closed: set<JsonNode>, ghost mem: Text)
    returns (newTail: JsonNode)
    requires Ring(ring, level) && tail == Last(ring) && node !in ring && node !in closed
    requires RingMembers(ring, tag, ms, closed, mem) && tail !in closed
    requires KeyDenotes(tag, key, x.key, mem) && Denotes(o, x.value, closed, mem)
    modifies node, (if tail == null then {} else {tail})`next
    ensures newTail == Last(ring + [node])
    ensures Ring(ring + [node], level) && RingMembers(ring + [node], tag, ms + [x], closed, mem)
  {
    hide Ring;
    hide Denotes;
    hide KeyDenotes;
    newTail := InsertAfter(tail, node, ring, level);
    node.key := key;
    node.value := o;
    ghost var longer, all := ring + [node], ms + [x];
    forall j | 0 <= j < |longer| ensures DenotesMember(longer[j], tag, all[j], closed, mem) {
      if j < |ring| {
        assert old(DenotesMember(ring[j], tag, ms[j], closed, mem));
        assert longer[j] == ring[j];
      }
    }
  }

  method ListToValue(tag: Tag, tail: JsonNode?, ghost ring: seq<JsonNode>, ghost level: nat) returns (v: JsonValue)
    requires Ring(ring, level) && tail == Last(ring)
    modifies (if tail == null then {} else {tail})`next
    ensures Chain(ring)
    ensures v == VList(tag, if ring == [] then null else ring[0])
  {
    assert forall i :: 0 <= i < |ring| - 1 ==> ring[i].index == i;
    if tail != null {
      assert tail == ring[|ring| - 1];
      var head := tail.next;
      tail.next := null;
      return VList(tag, head);
    }
    return VList(tag, null);
  }

  /** Closing a container: the chain denotes the members, in source order. */
  lemma {:induction false} ChainDenotes(ring: seq<JsonNode>, k: nat, tag: Tag, ms: seq<Member>, nodes: set<JsonNode>, nodes': set<JsonNode>, mem: Text)
    requires Chain(ring) && RingMembers(ring, tag, ms, nodes, mem) && k <= |ring|
    requires nodes <= nodes' && forall x :: x in ring ==> x in nodes'
    ensures DenotesAll(if k < |ring| then ring[k] else null, tag, ms[k..], nodes', mem)
    decreases |ring| - k
  {
    if k < |ring| {
      MemberStays(ring[k], tag, ms[k], nodes, mem, nodes', mem);
      ChainDenotes(ring, k + 1, tag, ms, nodes, nodes', mem);
      assert ms[k..][1..] == ms[k + 1..] && ms[k..][0] == ms[k];
      assert ring[k] in ring;
      assert ring[k].next == if k + 1 < |ring| then ring[k + 1] else null;
      assert DenotesMember(ring[k], tag, ms[k], nodes', mem);
    }
  }
}
