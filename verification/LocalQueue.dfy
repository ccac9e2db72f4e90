/** The queue of buffers from local clients: filled by listener threads, emptied into the outgoing
    XML by the main thread, each holding the same mutex. */
module LocalQueue {
  import opened ByteStrings

  const MAXDATASIZE: nat := 10_000_000

  /** An entry of the map from record ids to buffers. */
  datatype Slot = Slot(key: int, data: Text, done: bool, recs: nat)

  /** The map in the order of its keys, and the next record id. */
  datatype Queue = Queue(slots: seq<Slot>, localrecid: int)

  predicate Sorted(slots: seq<Slot>) {
    forall i, j | 0 <= i < j < |slots| :: slots[i].key < slots[j].key
  }

  predicate HasKey(slots: seq<Slot>, key: int) {
    exists i | 0 <= i < |slots| :: slots[i].key == key
  }

  /** A new entry in its place. */
  function Insert(slots: seq<Slot>, s: Slot): seq<Slot> {
    if slots == [] || s.key < slots[0].key then [s] + slots else [slots[0]] + Insert(slots[1..], s)
  }

  /** What becomes of a buffer that leaves the queue. */
  datatype Departed = Sent(data: Text) | Lost(data: Text)

  // ----- adding -----

  /** The queue with a buffer added, and whether the buffer is in it. */
  function Add(q: Queue, data: Text): (Queue, bool) {
    if |data| > MAXDATASIZE then (q, false)
    else if HasKey(q.slots, q.localrecid) then (q.(localrecid := q.localrecid + 1), false)
    else (Queue(Insert(q.slots, Slot(q.localrecid, data, false, 0)), q.localrecid + 1), true)
  }

  // ----- exporting -----

  /** Where the loop over the entries stands: entries seen, the output, buffers counted, what left
      the queue, and whether the loop is to stop. */
  datatype Pass = Pass(seen: nat, out: Text, found: int, log: seq<Departed>, done: bool)

  function Count(recs: nat): nat {
    if recs > 0 then recs else 1
  }

  /** One entry: exported if it fits, dropped if it is too large by itself; the first other one ends
      the loop, marked as done. */
  function PassOne(p: Pass, s: Slot): Pass {
    var q := p.(seen := p.seen + 1);
    if s.done then q
    else if |p.out| + |s.data| < MAXDATASIZE then
      q.(out := p.out + s.data, found := p.found + Count(s.recs), log := p.log + [Sent(s.data)])
    else if |s.data| > MAXDATASIZE then q.(log := p.log + [Lost(s.data)])
    else q.(log := p.log + [Lost(s.data)], done := true)
  }

  function PassAll(p: Pass, slots: seq<Slot>): (r: Pass)
    requires p.seen <= |slots|
    ensures p.seen <= r.seen <= |slots|
    decreases |slots| - p.seen
  {
    if p.done || p.seen == |slots| then p else PassAll(PassOne(p, slots[p.seen]), slots)
  }

  function Undone(slots: seq<Slot>): seq<Slot> {
    if slots == [] then []
    else (if slots[0].done then [] else [Slot(slots[0].key, slots[0].data, false, slots[0].recs)]) + Undone(slots[1..])
  }

  /** The queue after an export that appends to out: empty with its ids starting over if all
      entries were seen, else what the loop did not reach. */
  function Export(q: Queue, out: Text, found: int): (Queue, Pass) {
    var p := PassAll(Pass(0, out, found, [], false), q.slots);
    if q.slots == [] then (q, p)
    else if p.seen == |q.slots| then (Queue([], 0), p)
    else (q.(slots := Undone(q.slots[p.seen..])), p)
  }

  // ----- what always holds -----

  /** Pending buffers are small enough, not marked done, and have ids below the next one. */
  predicate Valid(q: Queue) {
    && Sorted(q.slots)
    && (forall s | s in q.slots :: 0 <= s.key < q.localrecid && !s.done && s.recs == 0 && |s.data| <= MAXDATASIZE)
    && 0 <= q.localrecid
  }

  function Buffers(slots: seq<Slot>): (t: seq<Text>)
    ensures |t| == |slots|
  {
    seq(|slots|, i requires 0 <= i < |slots| => slots[i].data)
  }

  function BuffersOf(log: seq<Departed>): (t: seq<Text>)
    ensures |t| == |log|
  {
    seq(|log|, i requires 0 <= i < |log| => log[i].data)
  }

  function SentText(log: seq<Departed>): Text {
    if log == [] then []
    else SentText(log[..|log| - 1]) + (if log[|log| - 1].Sent? then log[|log| - 1].data else [])
  }

  function LostCount(log: seq<Departed>): nat {
    if log == [] then 0 else LostCount(log[..|log| - 1]) + (if log[|log| - 1].Lost? then 1 else 0)
  }

  lemma {:induction false} InsertLast(slots: seq<Slot>, s: Slot)
    requires forall t | t in slots :: t.key < s.key
    ensures Insert(slots, s) == slots + [s]
  {
    if slots != [] {
      assert slots[0] in slots;
      InsertLast(slots[1..], s);
    }
  }

  /** Every buffer that is not too large goes to the end of the queue: the collision branch is
      never taken. */
  lemma AddAccepts(q: Queue, data: Text)
    requires Valid(q)
    ensures Valid(Add(q, data).0)
    ensures Add(q, data).1 <==> |data| <= MAXDATASIZE
    ensures Buffers(Add(q, data).0.slots) == Buffers(q.slots) + if Add(q, data).1 then [data] else []
    ensures !HasKey(q.slots, q.localrecid)
  {
    hide Insert;
    InsertLast(q.slots, Slot(q.localrecid, data, false, 0));
  }

  /** What a pass over the queue has done so far. */
  predicate PassSound(p: Pass, out: Text, slots: seq<Slot>) {
    && p.seen <= |slots|
    && BuffersOf(p.log) == Buffers(slots)[..p.seen]
    && p.out == out + SentText(p.log)
    && (forall i | 0 <= i < |p.log| && p.log[i].Lost? :: p.done && i == |p.log| - 1)
    && (p.done ==> p.log != [] && p.log[|p.log| - 1].Lost? && |p.out| + |p.log[|p.log| - 1].data| >= MAXDATASIZE)
  }

  lemma SentTextSnoc(log: seq<Departed>, d: Departed)
    ensures SentText(log + [d]) == SentText(log) + if d.Sent? then d.data else []
    ensures LostCount(log + [d]) == LostCount(log) + if d.Lost? then 1 else 0
  {
    assert (log + [d])[..|log|] == log;
  }

  lemma PassOneSound(p: Pass, out: Text, slots: seq<Slot>)
    requires PassSound(p, out, slots) && !p.done && p.seen < |slots|
    requires !slots[p.seen].done && |slots[p.seen].data| <= MAXDATASIZE
    ensures PassSound(PassOne(p, slots[p.seen]), out, slots)
  {
    hide SentText;
    var s := slots[p.seen];
    var r := PassOne(p, s);
    SentTextSnoc(p.log, Sent(s.data));
    SentTextSnoc(p.log, Lost(s.data));
    assert BuffersOf(r.log) == BuffersOf(p.log) + [s.data];
    assert Buffers(slots)[..p.seen + 1] == Buffers(slots)[..p.seen] + [s.data];
    assert (out + SentText(p.log)) + s.data == out + (SentText(p.log) + s.data);
  }

  lemma {:induction false} PassAllSound(p: Pass, out: Text, slots: seq<Slot>)
    requires PassSound(p, out, slots)
    requires forall s | s in slots :: !s.done && |s.data| <= MAXDATASIZE
    ensures PassSound(PassAll(p, slots), out, slots)
    ensures PassAll(p, slots).done || PassAll(p, slots).seen == |slots|
    decreases |slots| - p.seen
  {
    hide PassSound;
    if !p.done && p.seen < |slots| {
      assert slots[p.seen] in slots;
      PassOneSound(p, out, slots);
      PassAllSound(PassOne(p, slots[p.seen]), out, slots);
    }
  }

  lemma {:induction false} UndoneAll(slots: seq<Slot>)
    requires forall s | s in slots :: !s.done
    ensures Undone(slots) == slots
  {
    if slots != [] {
      assert slots[0] in slots && !slots[0].done;
      UndoneAll(slots[1..]);
      assert slots == [slots[0]] + slots[1..];
    }
  }

  lemma {:induction false} OnlyLastLost(log: seq<Departed>)
    requires forall i | 0 <= i < |log| && log[i].Lost? :: i == |log| - 1
    ensures LostCount(log) == if log != [] && log[|log| - 1].Lost? then 1 else 0
  {
    if log != [] {
      var rest := log[..|log| - 1];
      assert forall i | 0 <= i < |rest| :: rest[i] == log[i];
      OnlyLastLost(rest);
    }
  }

  lemma ValidSuffix(q: Queue, n: nat)
    requires Valid(q) && n <= |q.slots|
    ensures Valid(q.(slots := q.slots[n..])) && Undone(q.slots[n..]) == q.slots[n..]
  {
    var rest := q.slots[n..];
    assert forall s | s in rest :: s in q.slots;
    UndoneAll(rest);
  }

  /** An export leaves exactly what its loop did not reach. */
  lemma ExportLeaves(q: Queue, out: Text, found: int)
    requires Valid(q)
    ensures var (r, p) := Export(q, out, found);
      p.seen <= |q.slots| && r.slots == q.slots[p.seen..] && Valid(r)
  {
    hide PassAll;
    hide Undone;
    var (r, p) := Export(q, out, found);
    ValidSuffix(q, p.seen);
    if p.seen == |q.slots| { assert q.slots[p.seen..] == []; }
    if p.seen != |q.slots| { hide Valid; }
  }

  lemma BuffersSplit(slots: seq<Slot>, n: nat)
    requires n <= |slots|
    ensures Buffers(slots) == Buffers(slots)[..n] + Buffers(slots[n..])
  {
  }

  lemma SoundLoss(p: Pass, out: Text, slots: seq<Slot>)
    requires PassSound(p, out, slots)
    ensures LostCount(p.log) == if p.done then 1 else 0
  {
    hide Buffers;
    hide BuffersOf;
    hide SentText;
    OnlyLastLost(p.log);
    if !p.done && p.log != [] { assert !p.log[|p.log| - 1].Lost?; }
  }

  /** An export takes the first buffers out of the queue, in order, and appends those it sends to
      the output. It loses at most one, the last it took, and only for want of room: that one would
      have brought the output to the limit. */
  lemma ExportSplits(q: Queue, out: Text, found: int)
    requires Valid(q)
    ensures var (r, p) := Export(q, out, found);
      && Valid(r)
      && Buffers(q.slots) == BuffersOf(p.log) + Buffers(r.slots)
      && p.out == out + SentText(p.log)
      && LostCount(p.log) == (if p.done then 1 else 0)
      && (p.done ==> p.log != [] && p.log[|p.log| - 1].Lost? && |p.out| + |p.log[|p.log| - 1].data| >= MAXDATASIZE)
      && (!p.done ==> r.slots == [])
      && r.localrecid == (if q.slots != [] && r.slots == [] then 0 else q.localrecid)
  {
    hide PassAll;
    hide Valid;
    hide Buffers;
    hide BuffersOf;
    hide SentText;
    hide LostCount;
    var p0 := Pass(0, out, found, [], false);
    StartSound(out, found, q.slots);
    SlotsFit(q);
    PassAllSound(p0, out, q.slots);
    var p := PassAll(p0, q.slots);
    ExportLeaves(q, out, found);
    BuffersSplit(q.slots, p.seen);
    SoundLoss(p, out, q.slots);
  }

  lemma StartSound(out: Text, found: int, slots: seq<Slot>)
    ensures PassSound(Pass(0, out, found, [], false), out, slots)
  {
  }

  lemma SlotsFit(q: Queue)
    requires Valid(q)
    ensures forall s | s in q.slots :: !s.done && |s.data| <= MAXDATASIZE
  {
  }

  function SentCount(log: seq<Departed>): nat {
    if log == [] then 0 else SentCount(log[..|log| - 1]) + (if log[|log| - 1].Sent? then 1 else 0)
  }

  lemma {:induction false} PassCounts(p: Pass, slots: seq<Slot>)
    requires p.seen <= |slots| && forall s | s in slots :: s.recs == 0
    ensures PassAll(p, slots).found - SentCount(PassAll(p, slots).log) == p.found - SentCount(p.log)
    decreases |slots| - p.seen
  {
    if !p.done && p.seen < |slots| {
      var s := slots[p.seen];
      assert s in slots;
      var q := PassOne(p, s);
      assert (p.log + [Sent(s.data)])[..|p.log|] == p.log && (p.log + [Lost(s.data)])[..|p.log|] == p.log;
      PassCounts(q, slots);
    }
  }

  /** The count that an export returns grows by the number of buffers it sends. */
  lemma ExportCounts(q: Queue, out: Text, found: int)
    requires Valid(q)
    ensures var p := Export(q, out, found).1;
      p.found == found + SentCount(p.log)
  {
    hide PassAll;
    hide Sorted;
    PassCounts(Pass(0, out, found, [], false), q.slots);
  }

  // ----- which buffers are lost -----

  /** The summed lengths of the buffers from i to j - 1. */
  function Total(slots: seq<Slot>, i: nat, j: nat): nat
    requires i <= j <= |slots|
    decreases j - i
  {
    if i == j then 0 else |slots[i].data| + Total(slots, i + 1, j)
  }

  lemma {:induction false} TotalGrows(slots: seq<Slot>, i: nat, j: nat, k: nat)
    requires i <= j <= k <= |slots|
    ensures Total(slots, i, j) <= Total(slots, i, k)
    decreases j - i
  {
    if i < j { TotalGrows(slots, i + 1, j, k); }
  }

  /** What a pass does with buffer k that it has not seen yet. */
  lemma {:induction false} PassFate(p: Pass, slots: seq<Slot>, k: nat)
    requires !p.done && |p.log| == p.seen <= k < |slots|
    requires forall s | s in slots :: !s.done && |s.data| <= MAXDATASIZE
    ensures var log := PassAll(p, slots).log;
      && p.log <= log
      && (k < |log| <==> k == p.seen || |p.out| + Total(slots, p.seen, k) < MAXDATASIZE)
      && (k < |log| && log[k].Sent? <==> |p.out| + Total(slots, p.seen, k + 1) < MAXDATASIZE)
      && (k < |log| ==> log[k].data == slots[k].data)
    decreases |slots| - p.seen
  {
    var s := slots[p.seen];
    assert s in slots;
    var q := PassOne(p, s);
    PassStep(p, slots);
    if q.done {
      PassEnd(q, slots);
      TotalGrows(slots, p.seen, p.seen + 1, k + 1);
      if k > p.seen { TotalGrows(slots, p.seen, p.seen + 1, k); }
    } else if k == p.seen {
      PassKeepsLog(q, slots);
      assert Total(slots, k + 1, k + 1) == 0;
    } else {
      PassFate(q, slots, k);
    }
  }

  lemma {:induction false} PassKeepsLog(p: Pass, slots: seq<Slot>)
    requires p.seen <= |slots|
    ensures p.log <= PassAll(p, slots).log
    decreases |slots| - p.seen
  {
    if !p.done && p.seen < |slots| {
      PassKeepsLog(PassOne(p, slots[p.seen]), slots);
    }
  }

  /** Of the pending buffers an export sends exactly those with which the output stays below the
      limit, and loses exactly the one with which it would reach it. */
  lemma FateIff(q: Queue, out: Text, found: int, k: nat)
    requires Valid(q) && k < |q.slots|
    ensures var log := Export(q, out, found).1.log;
      && (k < |log| && log[k] == Sent(q.slots[k].data) <==> |out| + Total(q.slots, 0, k + 1) < MAXDATASIZE)
      && (k < |log| && log[k] == Lost(q.slots[k].data)
          <==> |out| + Total(q.slots, 0, k + 1) >= MAXDATASIZE && (k == 0 || |out| + Total(q.slots, 0, k) < MAXDATASIZE))
  {
    SlotsFit(q);
    hide Valid;
    hide PassAll;
    TotalGrows(q.slots, 0, k, k + 1);
    PassFate(Pass(0, out, found, [], false), q.slots, k);
  }

  lemma {:induction false} PassLoses(p: Pass, slots: seq<Slot>)
    requires !p.done && p.seen <= |slots|
    requires forall s | s in slots :: !s.done && |s.data| <= MAXDATASIZE
    ensures PassAll(p, slots).done
            <==> p.seen < |slots| && |p.out| + Total(slots, p.seen, |slots|) >= MAXDATASIZE
    decreases |slots| - p.seen
  {
    if p.seen < |slots| {
      var s := slots[p.seen];
      assert s in slots;
      var q := PassOne(p, s);
      if q.done {
        PassEnd(q, slots);
        TotalGrows(slots, p.seen, p.seen + 1, |slots|);
      } else {
        PassLoses(q, slots);
      }
    }
  }

  /** An export loses a buffer exactly when there is one, and all of them together would bring the
      output to the limit. */
  lemma LossIff(q: Queue, out: Text, found: int)
    requires Valid(q)
    ensures LostCount(Export(q, out, found).1.log) == 1
            <==> q.slots != [] && |out| + Total(q.slots, 0, |q.slots|) >= MAXDATASIZE
  {
    ExportSplits(q, out, found);
    SlotsFit(q);
    hide Valid;
    hide PassAll;
    hide LostCount;
    PassLoses(Pass(0, out, found, [], false), q.slots);
  }

  // ----- whole runs -----

  /** A listener thread adds a buffer, or the main thread exports behind what the output holds
      already. */
  datatype Op = AddOp(data: Text) | ExportOp(out: Text, found: int)

  /** All buffers ever accepted, and all that left the queue, in their order. */
  datatype History = History(q: Queue, accepted: seq<Text>, log: seq<Departed>)

  function After(h: History, op: Op): History {
    match op
    case AddOp(data) =>
      var (q, stored) := Add(h.q, data);
      History(q, if stored then h.accepted + [data] else h.accepted, h.log)
    case ExportOp(out, found) =>
      var (q, p) := Export(h.q, out, found);
      History(q, h.accepted, h.log + p.log)
  }

  function Run(h: History, ops: seq<Op>): History {
    if ops == [] then h else After(Run(h, ops[..|ops| - 1]), ops[|ops| - 1])
  }

  function Exports(ops: seq<Op>): nat {
    if ops == [] then 0 else Exports(ops[..|ops| - 1]) + (if ops[|ops| - 1].ExportOp? then 1 else 0)
  }

  function Offered(ops: seq<Op>): seq<Text> {
    if ops == [] then []
    else
      var op := ops[|ops| - 1];
      Offered(ops[..|ops| - 1]) + (if op.AddOp? && |op.data| <= MAXDATASIZE then [op.data] else [])
  }

  const EMPTY: History := History(Queue([], 0), [], [])

  lemma {:induction false} LostCountConcat(a: seq<Departed>, b: seq<Departed>)
    ensures LostCount(a + b) == LostCount(a) + LostCount(b)
  {
    if b == [] {
      assert a + b == a;
    } else {
      assert (a + b)[..|a + b| - 1] == a + b[..|b| - 1];
      LostCountConcat(a, b[..|b| - 1]);
    }
  }

  lemma BuffersOfConcat(a: seq<Departed>, b: seq<Departed>)
    ensures BuffersOf(a + b) == BuffersOf(a) + BuffersOf(b)
  {
  }

  /** What entered and what left add up: exports counts the exports so far. */
  predicate Balanced(h: History, offered: seq<Text>, exports: nat) {
    && Valid(h.q)
    && h.accepted == offered
    && h.accepted == BuffersOf(h.log) + Buffers(h.q.slots)
    && LostCount(h.log) <= exports
  }

  lemma AddBalances(h: History, offered: seq<Text>, exports: nat, data: Text)
    requires Balanced(h, offered, exports)
    ensures Balanced(After(h, AddOp(data)), offered + (if |data| <= MAXDATASIZE then [data] else []), exports)
  {
    hide Add;
    hide Valid;
    hide Buffers;
    hide BuffersOf;
    hide LostCount;
    AddAccepts(h.q, data);
  }

  lemma ExportBalances(h: History, offered: seq<Text>, exports: nat, out: Text, found: int)
    requires Balanced(h, offered, exports)
    ensures Balanced(After(h, ExportOp(out, found)), offered, exports + 1)
  {
    hide Export;
    hide Valid;
    hide Buffers;
    hide BuffersOf;
    hide LostCount;
    hide SentText;
    ExportSplits(h.q, out, found);
    var (q, p) := Export(h.q, out, found);
    LostCountConcat(h.log, p.log);
    BuffersOfConcat(h.log, p.log);
    assert BuffersOf(h.log) + (BuffersOf(p.log) + Buffers(q.slots)) == BuffersOf(h.log) + BuffersOf(p.log) + Buffers(q.slots);
  }

  /** Whatever the threads do: every buffer of admissible size is accepted; the accepted ones are,
      in their order and each once, those that left the queue followed by those still pending; at
      most one is lost per export; and pending ids stay below the next id. */
  lemma {:induction false} Conservation(ops: seq<Op>)
    ensures Balanced(Run(EMPTY, ops), Offered(ops), Exports(ops))
  {
    if ops != [] {
      hide Balanced;
      hide After;
      var h, op := Run(EMPTY, ops[..|ops| - 1]), ops[|ops| - 1];
      Conservation(ops[..|ops| - 1]);
      match op {
        case AddOp(data) => AddBalances(h, Offered(ops[..|ops| - 1]), Exports(ops[..|ops| - 1]), data);
        case ExportOp(out, found) =>
          ExportBalances(h, Offered(ops[..|ops| - 1]), Exports(ops[..|ops| - 1]), out, found);
          assert Offered(ops) == Offered(ops[..|ops| - 1]) + [];
      }
    }
  }

  /** A buffer of exactly the maximal size is accepted, and whatever the output holds, the export
      that reaches it loses it. */
  lemma LargestIsLost(q: Queue, out: Text, found: int)
    requires Valid(q) && q.slots != [] && |q.slots[0].data| == MAXDATASIZE
    ensures Export(q, out, found).1.log == [Lost(q.slots[0].data)]
  {
    var p0 := Pass(0, out, found, [], false);
    assert q.slots[0] in q.slots;
    var p1 := PassOne(p0, q.slots[0]);
    PassStep(p0, q.slots);
    PassEnd(p1, q.slots);
    assert p1.log == [Lost(q.slots[0].data)];
  }

  // ----- the queue as it runs -----

  class Outbound {
    var localData: seq<Slot>
    var localrecid: int

    constructor ()
      ensures View() == Queue([], 0) && Valid(View())
    {
      localData, localrecid := [], 0;
    }

    ghost function View(): Queue
      reads this
    {
      Queue(localData, localrecid)
    }

    method Find(key: int) returns (found: bool)
      ensures found == HasKey(localData, key)
    {
      var i := 0;
      while i < |localData|
        invariant 0 <= i <= |localData|
        invariant forall k | 0 <= k < i :: localData[k].key != key
      {
        if localData[i].key == key {
          return true;
        }
        i := i + 1;
      }
      found := false;
    }

    method AddClientData(data: Text) returns (stored: bool)
      requires Valid(View())
      modifies this
      ensures (View(), stored) == Add(old(View()), data)
      ensures Valid(View()) && (stored <==> |data| <= MAXDATASIZE)
    {
      AddAccepts(View(), data);
      if |data| > MAXDATASIZE {
        return false;
      }
      var clash := Find(localrecid);
      if !clash {
        localData := Insert(localData, Slot(localrecid, data, false, 0));
        stored := true;
      } else {
        stored := false;
      }
      localrecid := localrecid + 1;
    }

    /** The loop over the entries; marks the ones it has dealt with. */
    method PassEntries(out: Text, found: int) returns (seen: nat, out': Text, found': int, ghost p: Pass)
      modifies this
      ensures p == PassAll(Pass(0, out, found, [], false), old(localData))
      ensures seen == p.seen <= |localData| == |old(localData)| && out' == p.out && found' == p.found
      ensures localrecid == old(localrecid)
      ensures forall i | 0 <= i < seen :: localData[i] == old(localData)[i].(done := true)
      ensures localData[seen..] == old(localData)[seen..]
    {
      hide PassAll;
      out', found', seen := out, found, 0;
      var done := false;
      p := Pass(0, out, found, [], false);
      while !done && seen < |localData|
        invariant seen <= |localData| == |old(localData)| && localrecid == old(localrecid)
        invariant p.seen == seen && p.out == out' && p.found == found' && p.done == done
        invariant PassAll(p, old(localData)) == PassAll(Pass(0, out, found, [], false), old(localData))
        invariant forall i | 0 <= i < seen :: localData[i] == old(localData)[i].(done := true)
        invariant localData[seen..] == old(localData)[seen..]
        decreases |localData| - seen, !done
      {
        var s := localData[seen];
        assert s == localData[seen..][0] == old(localData)[seen];
        PassStep(p, old(localData));
        p := PassOne(p, s);
        if !s.done {
          localData := localData[seen := s.(done := true)];
          if |out'| + |s.data| < MAXDATASIZE {
            out' := out' + s.data;
            found' := found' + Count(s.recs);
          } else if |s.data| > MAXDATASIZE {
            localData := localData[seen := s.(done := true)];
          } else {
            done := true;
          }
        }
        seen := seen + 1;
        assert localData[seen..] == old(localData)[seen - 1..][1..] == old(localData)[seen..];
      }
      PassEnd(p, old(localData));
    }

    method ExportClientData(out: Text, found: int) returns (out': Text, found': int)
      requires Valid(View())
      modifies this
      ensures var (q, p) := Export(old(View()), out, found);
        View() == q && out' == p.out && found' == p.found
      ensures Valid(View())
    {
      hide PassAll;
      ExportSplits(View(), out, found);
      out', found' := out, found;
      if |localData| > 0 {
        ghost var slots := localData;
        var seen: nat;
        ghost var p: Pass;
        seen, out', found', p := PassEntries(out, found);
        if seen == |localData| {
          localData := [];
          localrecid := 0;
        } else {
          ghost var marked := localData;
          KeepsUndone(marked, slots, seen);
          localData := Undone(localData);
        }
      } else {
        PassEnd(Pass(0, out, found, [], false), localData);
      }
    }
  }

  lemma PassStep(p: Pass, slots: seq<Slot>)
    requires !p.done && p.seen < |slots|
    ensures PassAll(p, slots) == PassAll(PassOne(p, slots[p.seen]), slots)
  {
  }

  lemma PassEnd(p: Pass, slots: seq<Slot>)
    requires p.seen <= |slots| && (p.done || p.seen == |slots|)
    ensures PassAll(p, slots) == p
  {
  }

  lemma {:induction false} KeepsUndone(marked: seq<Slot>, slots: seq<Slot>, seen: nat)
    requires seen <= |marked| == |slots| && marked[seen..] == slots[seen..]
    requires forall i | 0 <= i < seen :: marked[i].done
    ensures Undone(marked) == Undone(slots[seen..])
    decreases seen
  {
    if seen == 0 {
      assert marked == marked[0..] && slots == slots[0..];
    } else {
      assert marked[1..][seen - 1..] == marked[seen..];
      assert slots[1..][seen - 1..] == slots[seen..];
      KeepsUndone(marked[1..], slots[1..], seen - 1);
      assert marked[0].done;
    }
  }
}
