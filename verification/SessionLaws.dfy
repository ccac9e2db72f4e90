/** What may follow what in a conversation with the host, and what must: laws over the conversation
    alone, whatever the steps of the threads are. */
module SessionLaws {
  import opened Session

  function Last(c: Conversation): Act
    requires c != []
  {
    c[|c| - 1]
  }

  // ----- the control thread -----

  /** The last act is a frame whose processing led to `next`. */
  predicate Asked(c: Conversation, next: Step) {
    c != [] && Last(c).Replied? && Last(c).next == next
  }

  /** Act a may follow on the conversation c: first a header, an answer and a message that
      acknowledges it; then frames, each with its response. */
  predicate ControlFollows(c: Conversation, a: Act) {
    match a
    case Wrote(Header) => c == []
    case Wrote(Message) => |c| == 2
    case Wrote(Ack) => |c| > 3 && Asked(c, SendAck)
    case Wrote(ClientData) => |c| > 3 && Asked(c, SendClientData)
    case Wrote(Data) => c != [] && Last(c) == Wrote(ClientData)
    case Wrote(Eot) => false
    case Replied(_, _) => |c| == 1 || (|c| >= 3 && Last(c) in {Wrote(Message), Wrote(Ack), Wrote(Data)})
  }

  predicate ControlLegal(c: Conversation) {
    forall i | 0 <= i < |c| :: ControlFollows(c[..i], c[i])
  }

  /** What is to be written next on an open connection: the header on a new one, the message after
      the first answer, and the response to a frame. */
  function ControlDue(c: Conversation): seq<Act> {
    if c == [] then [Wrote(Header)]
    else if |c| == 2 then [Wrote(Message)]
    else if |c| > 3 && Asked(c, SendAck) then [Wrote(Ack)]
    else if |c| > 3 && Asked(c, SendClientData) then [Wrote(ClientData), Wrote(Data)]
    else []
  }

  lemma LegalNext(c: Conversation, a: Act)
    requires ControlLegal(c) && ControlFollows(c, a)
    ensures ControlLegal(c + [a])
  {
    hide ControlFollows;
    var d := c + [a];
    forall i | 0 <= i < |d|
      ensures ControlFollows(d[..i], d[i])
    {
      if i == |c| {
        assert d[..i] == c;
      } else {
        assert d[..i] == c[..i];
      }
    }
  }

  predicate AllLegal(s: Thread) {
    ControlLegal(s.current) && forall c | c in s.earlier :: ControlLegal(c)
  }

  /** On an open connection the step is the one the conversation asks for. */
  predicate ControlInStep(s: Thread) {
    var c := s.current;
    match s.step
    case SendClient => if s.headerDone then |c| == 2 else c == []
    case Reconnected => c == []
    case SendSignonAck => s.headerDone && |c| == 2
    case ReadClient =>
      if s.headerDone then |c| >= 3 && Last(c) in {Wrote(Message), Wrote(Ack), Wrote(Data)}
      else s.headerProcessing && |c| == 1
    case SendAck => s.headerDone && |c| > 3 && Asked(c, SendAck)
    case SendClientData => s.headerDone && |c| > 3 && Asked(c, SendClientData)
    case Unknown => |c| > 3 && Last(c).Replied? && Last(c).next != SendAck && Last(c).next != SendClientData
    case _ => false
  }

  predicate ControlState(s: Thread) {
    AllLegal(s) && (s.step != AtEnd ==> if s.lost then s.step == ReconnectFailed else ControlInStep(s))
  }

  lemma ReconnectLegal(s: Thread, t: Tick)
    requires AllLegal(s)
    ensures ControlState(Reconnect(s, t))
    ensures !t.quitLater ==> Reconnect(s, t).step != AtEnd
  {
    hide ControlLegal;
    var u := Reconnect(s, t);
    assert forall c | c in u.earlier :: c in s.earlier || c == s.current;
    assert u.current == [] ==> ControlLegal(u.current) by { NothingLegal(); }
  }

  lemma NothingLegal()
    ensures ControlLegal([])
  {
  }

  lemma ControlDid(s: Thread, a: Act)
    requires AllLegal(s) && ControlFollows(s.current, a)
    ensures AllLegal(s.Did(a))
  {
    hide ControlLegal;
    hide ControlFollows;
    LegalNext(s.current, a);
  }

  lemma ControlSends(s: Thread, t: Tick)
    requires ControlState(s) && s.step == SendClient
    ensures ControlState(SendNext(s, t))
    ensures !t.quitLater ==> SendNext(s, t).step != AtEnd
  {
    hide Reconnect;
    hide ControlLegal;
    if !t.open {
      ReconnectLegal(s.(step := ReadClient), t);
    } else {
      var u := if s.headerDone then s.Did(Wrote(Message)) else s.(headerProcessing := true).Did(Wrote(Header));
      ControlDid(s, if s.headerDone then Wrote(Message) else Wrote(Header));
      assert AllLegal(u);
      if !t.sendOk { ReconnectLegal(u, t); }
    }
  }

  lemma ControlReads(s: Thread, t: Tick)
    requires ControlState(s) && s.step == ReadClient
    ensures ControlState(ControlRead(s, t))
    ensures !t.quitLater ==> ControlRead(s, t).step != AtEnd
  {
    hide Reconnect;
    hide ControlLegal;
    ReconnectLegal(s, t);
    if t.open && t.readRc == 1 {
      ControlDid(s, Replied(t.signon, t.next));
    }
  }

  lemma ControlResponds(s: Thread, t: Tick)
    requires ControlState(s) && (s.step == SendAck || s.step == SendClientData)
    ensures ControlState(ControlStep(s, t))
    ensures !t.quitLater ==> ControlStep(s, t).step != AtEnd
  {
    hide Reconnect;
    hide ControlLegal;
    if s.step == SendAck {
      var u := s.Did(Wrote(Ack));
      ControlDid(s, Wrote(Ack));
      ReconnectLegal(u, t);
    } else {
      var u := s.Did(Wrote(ClientData));
      ControlDid(s, Wrote(ClientData));
      assert Last(u.current) == Wrote(ClientData);
      ControlDid(u, Wrote(Data));
      ReconnectLegal(u.Did(Wrote(Data)), t);
    }
  }

  lemma ControlRound(s: Thread, t: Tick)
    requires ControlState(s)
    ensures ControlState(ControlStep(s, t))
    ensures s.step != AtEnd && !t.quitLater ==> ControlStep(s, t).step != AtEnd
  {
    hide Reconnect;
    hide ControlLegal;
    hide SendNext;
    hide ControlRead;
    match s.step
    case SendAck => ControlResponds(s, t);
    case SendClientData => ControlResponds(s, t);
    case SendClient => ControlSends(s, t);
    case ReadClient => ControlReads(s, t);
    case ReconnectFailed => ReconnectLegal(s.(headerDone := false), t);
    case _ =>
  }

  lemma {:induction false} ControlRounds(s: Thread, ticks: seq<Tick>)
    requires ControlState(s)
    ensures ControlState(RunControl(s, ticks))
    ensures s.step != AtEnd && (forall t | t in ticks :: !t.quitLater) ==> RunControl(s, ticks).step != AtEnd
    decreases |ticks|
  {
    hide ControlState;
    hide ControlStep;
    if ticks != [] && !s.done && !ticks[0].quitTest {
      ControlRound(s, ticks[0]);
      ControlRounds(ControlStep(s, ticks[0]), ticks[1..]);
      assert ticks[0] in ticks;
    }
  }

  lemma StartState()
    ensures ControlState(START)
  {
  }

  /** On every run, every act on every connection of the control thread follows those before it by
      the law. */
  lemma ControlObeys(ticks: seq<Tick>)
    ensures forall c | c in RunControl(START, ticks).Conversations() :: ControlLegal(c)
  {
    hide RunControl;
    hide ControlLegal;
    StartState();
    ControlRounds(START, ticks);
    var s := RunControl(START, ticks);
    assert forall c | c in s.Conversations() :: c in s.earlier || c == s.current;
  }

  lemma {:induction false} RunControlOn(s: Thread, ticks: seq<Tick>, more: seq<Tick>)
    requires forall t | t in ticks :: !t.quitTest
    ensures RunControl(s, ticks + more) == RunControl(RunControl(s, ticks), more)
    decreases |ticks|
  {
    hide ControlStep;
    if ticks == [] {
      assert ticks + more == more;
    } else if !s.done {
      assert (ticks + more)[1..] == ticks[1..] + more;
      assert ticks[0] in ticks;
      RunControlOn(ControlStep(s, ticks[0]), ticks[1..], more);
    }
  }

  /** The acts that were done on the connection that s has are the beginning of those on the same
      connection later. */
  predicate Continues(c: Conversation, s: Thread) {
    exists d | d in s.Conversations() :: c <= d
  }

  lemma DoneNow(c: Conversation, s: Thread, u: Thread)
    requires u.current == c || (u.current == [] && u.earlier == s.earlier + [c])
    ensures Continues(c, u)
  {
    assert c in u.Conversations() by {
      if u.current == c {
        assert u.Conversations()[|u.earlier|] == c;
      } else {
        assert u.Conversations()[|s.earlier|] == c;
      }
    }
  }

  lemma AfterReconnect(s: Thread, t: Tick)
    ensures var u := Reconnect(s, t);
      u.current == s.current || (u.current == [] && u.earlier == s.earlier + [s.current])
  {
  }

  /** u has the conversations of s, the last of which may have gone on and may have been followed by
      a new one. */
  predicate Grown(s: Thread, u: Thread) {
    || (u.earlier == s.earlier && s.current <= u.current)
    || (|u.earlier| == |s.earlier| + 1 && u.earlier[..|s.earlier|] == s.earlier && s.current <= u.earlier[|s.earlier|])
  }

  lemma GrownContinues(c: Conversation, s: Thread, u: Thread)
    requires Continues(c, s) && Grown(s, u)
    ensures Continues(c, u)
  {
    var i :| 0 <= i < |s.Conversations()| && c <= s.Conversations()[i];
    assert u.Conversations()[i] in u.Conversations();
    if i < |s.earlier| {
      assert u.earlier[..|s.earlier|][i] == u.earlier[i];
      assert u.Conversations()[i] == s.Conversations()[i];
    } else {
      assert s.current <= u.Conversations()[i];
    }
  }

  /** Acts are added, and then the connection may be replaced. */
  lemma GrownBy(s: Thread, u: Thread, t: Tick)
    requires u.earlier == s.earlier && s.current <= u.current
    ensures Grown(s, u) && Grown(s, Reconnect(u, t))
  {
  }

  lemma GrownSend(s: Thread, t: Tick)
    ensures Grown(s, SendNext(s, t))
  {
    hide Grown;
    hide Reconnect;
    if !t.open {
      GrownBy(s, s.(step := ReadClient), t);
    } else {
      var u := if s.headerDone then s.Did(Wrote(Message)) else s.(headerProcessing := true).Did(Wrote(Header));
      GrownBy(s, u, t);
      GrownBy(s, u.(step := ReadClient), t);
    }
  }

  lemma GrownRead(s: Thread, t: Tick)
    ensures Grown(s, ControlRead(s, t))
  {
    hide Grown;
    hide Reconnect;
    GrownBy(s, s, t);
    GrownBy(s, ControlRead(s, t.(open := true, readRc := 1)), t);
    GrownBy(s, s.(step := ReadClient), t);
  }

  /** Whatever was done stays on record. */
  lemma StaysOnRecord(c: Conversation, s: Thread, t: Tick)
    requires Continues(c, s)
    ensures Continues(c, ControlStep(s, t))
  {
    hide Continues;
    GrowsOnly(s, t);
    GrownContinues(c, s, ControlStep(s, t));
  }

  lemma GrowsOnly(s: Thread, t: Tick)
    ensures Grown(s, ControlStep(s, t))
  {
    hide Grown;
    hide Reconnect;
    hide SendNext;
    hide ControlRead;
    match s.step
    case SendAck =>
      var u := s.Did(Wrote(Ack));
      GrownBy(s, u, t);
      GrownBy(s, u.(step := ReadClient), t);
    case SendClientData =>
      var u := s.Did(Wrote(ClientData)).Did(Wrote(Data));
      GrownBy(s, u, t);
      GrownBy(s, u.(step := ReadClient), t);
    case SendClient => GrownSend(s, t);
    case ReadClient => GrownRead(s, t);
    case ReconnectFailed => GrownBy(s, s.(headerDone := false), t);
    case _ => GrownBy(s, ControlStep(s, t), t);
  }

  /** What is due is written by the next round, or the one after. */
  lemma DueSoon(s: Thread, t: Tick, t': Tick)
    requires ControlState(s) && s.step != AtEnd && !s.lost && !s.done && t.open && t'.open
    requires ControlDue(s.current) != []
    ensures Continues(s.current + ControlDue(s.current), ControlStep(s, t))
         || (!ControlStep(s, t).done
             && Continues(s.current + ControlDue(s.current), ControlStep(ControlStep(s, t), t')))
  {
    hide ControlLegal;
    hide Continues;
    hide Reconnect;
    var c := s.current + ControlDue(s.current);
    if s.step == Reconnected || s.step == SendSignonAck {
      var u := ControlStep(s, t);
      assert u.current == s.current && u.step == SendClient;
      SentNow(u, t');
    } else if s.step == SendClient {
      SentNow(s, t);
    } else {
      RespondsNow(s, t);
    }
  }

  lemma SentNow(s: Thread, t: Tick)
    requires s.step == SendClient && t.open && (if s.headerDone then |s.current| == 2 else s.current == [])
    ensures Continues(s.current + ControlDue(s.current), ControlStep(s, t))
  {
    hide Continues;
    hide Reconnect;
    var c := s.current + ControlDue(s.current);
    var u := if s.headerDone then s.Did(Wrote(Message)) else s.(headerProcessing := true).Did(Wrote(Header));
    AfterReconnect(u, t);
    DoneNow(c, s, ControlStep(s, t));
  }

  lemma RespondsNow(s: Thread, t: Tick)
    requires |s.current| > 3
    requires (s.step == SendAck && Asked(s.current, SendAck)) || (s.step == SendClientData && Asked(s.current, SendClientData))
    ensures Continues(s.current + ControlDue(s.current), ControlStep(s, t))
  {
    hide Continues;
    hide Reconnect;
    var c := s.current + ControlDue(s.current);
    if s.step == SendAck {
      AfterReconnect(s.Did(Wrote(Ack)), t);
    } else {
      assert s.current + [Wrote(ClientData)] + [Wrote(Data)] == c;
      AfterReconnect(s.Did(Wrote(ClientData)).Did(Wrote(Data)), t);
    }
    DoneNow(c, s, ControlStep(s, t));
  }

  /** The connection on which just c was done was given up. */
  predicate GivenUp(c: Conversation, s: Thread) {
    (s.lost && s.current == c) || c in s.earlier
  }

  predicate Failing(t: Tick) {
    !t.sendOk && !t.writeOk
  }

  lemma LostNow(c: Conversation, s: Thread, t: Tick)
    requires s.current == c && !t.quitLater
    ensures GivenUp(c, Reconnect(s, t)) && Reconnect(s, t).step in {Reconnected, ReconnectFailed}
    ensures Reconnect(s, t).step == Reconnected ==> c in Reconnect(s, t).earlier
  {
    if t.connected { assert Reconnect(s, t).earlier[|s.earlier|] == c; }
  }

  /** The writes of a failing round are the last ones of their connection. */
  lemma FailsNow(s: Thread, t: Tick)
    requires ControlState(s) && s.step in {SendClient, SendAck, SendClientData} && !s.lost && t.open
    requires Failing(t) && !t.quitLater
    ensures GivenUp(s.current + ControlDue(s.current), ControlStep(s, t))
    ensures var u := ControlStep(s, t); u.step == Reconnected || u.step == ReconnectFailed
    ensures var u := ControlStep(s, t); u.step == Reconnected ==> s.current + ControlDue(s.current) in u.earlier
  {
    hide Reconnect;
    hide ControlLegal;
    hide GivenUp;
    var c := s.current + ControlDue(s.current);
    if s.step == SendAck {
      LostNow(c, s.Did(Wrote(Ack)), t);
    } else if s.step == SendClientData {
      assert s.current + [Wrote(ClientData)] + [Wrote(Data)] == c;
      LostNow(c, s.Did(Wrote(ClientData)).Did(Wrote(Data)), t);
    } else {
      LostNow(c, if s.headerDone then s.Did(Wrote(Message)) else s.(headerProcessing := true).Did(Wrote(Header)), t);
    }
  }

  lemma StaysGivenUp(c: Conversation, s: Thread, t: Tick)
    requires GivenUp(c, s) && !t.quitLater
    requires s.step == ReconnectFailed || (s.step == Reconnected && c in s.earlier)
    ensures GivenUp(c, ControlStep(s, t))
  {
    if s.step == ReconnectFailed {
      var u := s.(headerDone := false);
      if s.current == c { LostNow(c, u, t); }
    }
  }

  lemma DueFails(s: Thread, t: Tick, t': Tick)
    requires ControlState(s) && s.step != AtEnd && !s.lost && !s.done && t.open && t'.open
    requires ControlDue(s.current) != [] && Failing(t) && Failing(t') && !t.quitLater && !t'.quitLater
    ensures !ControlStep(s, t).done
    ensures GivenUp(s.current + ControlDue(s.current), ControlStep(ControlStep(s, t), t'))
  {
    hide ControlLegal;
    hide GivenUp;
    hide Reconnect;
    var c := s.current + ControlDue(s.current);
    if s.step == Reconnected || s.step == SendSignonAck {
      var u := ControlStep(s, t);
      ControlRound(s, t);
      assert u.current == s.current && u.step == SendClient && !u.lost;
      FailsNow(u, t');
    } else {
      FailsNow(s, t);
      assert !ControlStep(s, t).done by { ReconnectKeepsDone(s, t); }
      StaysGivenUp(c, ControlStep(s, t), t');
    }
  }

  lemma ReconnectKeepsDone(s: Thread, t: Tick)
    requires s.step in {SendClient, SendAck, SendClientData}
    ensures ControlStep(s, t).done == s.done
  {
  }

  /** The writes of a round that goes well leave the connection as it is. */
  lemma DueGoesWell(s: Thread, t: Tick, t': Tick)
    requires ControlState(s) && s.step != AtEnd && !s.lost && !s.done && t.open && t'.open
    requires ControlDue(s.current) != [] && t.sendOk && t.writeOk && t'.sendOk && t'.writeOk && t'.readRc == 0
    ensures var v := ControlStep(ControlStep(s, t), t');
      !ControlStep(s, t).done && v.current == s.current + ControlDue(s.current) && !v.lost
  {
    hide ControlLegal;
    hide Reconnect;
    if s.step == SendClientData {
      assert s.current + [Wrote(ClientData)] + [Wrote(Data)] == s.current + [Wrote(ClientData), Wrote(Data)];
    }
  }

  predicate GoesOn(ticks: seq<Tick>) {
    forall t | t in ticks :: !t.quitTest && !t.quitLater
  }

  /** On every run: what is due on an open connection, the header, the message after the first
      answer, an ACK or client data with its data, is written on that connection within two more
      rounds, unless the run ends before. If the writes fail the connection is given up with them;
      if they go well it stays. */
  lemma ControlResponse(ticks: seq<Tick>, t: Tick, t': Tick)
    requires GoesOn(ticks) && !t.quitTest && !t'.quitTest && t.open && t'.open
    ensures var s, u := RunControl(START, ticks), RunControl(START, ticks + [t, t']);
      !s.lost && !s.done && ControlDue(s.current) != [] ==>
        var c := s.current + ControlDue(s.current);
        && Continues(c, u)
        && (Failing(t) && Failing(t') && !t.quitLater && !t'.quitLater ==> GivenUp(c, u))
        && (t.sendOk && t.writeOk && t'.sendOk && t'.writeOk && t'.readRc == 0 ==> u.current == c && !u.lost)
  {
    hide ControlStep;
    hide Continues;
    hide GivenUp;
    hide ControlState;
    hide ControlDue;
    var s := RunControl(START, ticks);
    StartState();
    ControlRounds(START, ticks);
    RunControlOn(START, ticks, [t, t']);
    if !s.lost && !s.done && ControlDue(s.current) != [] {
      var c := s.current + ControlDue(s.current);
      var u := ControlStep(s, t);
      DueSoon(s, t, t');
      TwoRounds(s, t, t');
      if Continues(c, u) { StaysOnRecord(c, u, t'); }
      if Failing(t) && Failing(t') && !t.quitLater && !t'.quitLater { DueFails(s, t, t'); }
      if t.sendOk && t.writeOk && t'.sendOk && t'.writeOk && t'.readRc == 0 { DueGoesWell(s, t, t'); }
    }
  }

  lemma TwoRounds(s: Thread, t: Tick, t': Tick)
    requires !s.done && !t.quitTest && !t'.quitTest
    ensures RunControl(s, [t, t']) == if ControlStep(s, t).done then ControlStep(s, t) else ControlStep(ControlStep(s, t), t')
  {
    hide ControlStep;
    var u := ControlStep(s, t);
    assert [t, t'][1..] == [t'] && [t'][1..] == [];
    assert RunControl(u, [t']) == if u.done then u else RunControl(ControlStep(u, t'), []);
  }

  /** The thread waits for a frame: after its header, and after each message, ACK and data. */
  predicate Listens(c: Conversation) {
    c != [] && Last(c) in {Wrote(Header), Wrote(Message), Wrote(Ack), Wrote(Data)}
  }

  /** On every run: a thread that waits for a frame takes down a whole frame, goes on waiting when
      there is none, and gives the connection up when the read fails. */
  lemma ControlListens(ticks: seq<Tick>, t: Tick)
    requires GoesOn(ticks) && !t.quitTest
    ensures var s, u := RunControl(START, ticks), RunControl(START, ticks + [t]);
      !s.lost && !s.done && Listens(s.current) ==>
        && (t.open && t.readRc == 1 ==> u.current == s.current + [Replied(t.signon, t.next)] && u.earlier == s.earlier)
        && (t.open && t.readRc in {0, 2} ==> u == s)
        && (!(t.open && t.readRc in {0, 1, 2}) && !t.quitLater ==> GivenUp(s.current, u))
  {
    OneRound(ticks, t);
    hide ControlLegal;
    hide Reconnect;
    var s := RunControl(START, ticks);
    if !s.lost && !s.done && Listens(s.current) {
      assert s.step == ReadClient;
      if !t.quitLater { LostNow(s.current, s, t); }
    }
  }

  lemma OneRound(ticks: seq<Tick>, t: Tick)
    requires GoesOn(ticks) && !t.quitTest
    ensures var s := RunControl(START, ticks);
      ControlState(s) && s.step != AtEnd && RunControl(START, ticks + [t]) == if s.done then s else ControlStep(s, t)
  {
    hide ControlState;
    hide ControlStep;
    StartState();
    ControlRounds(START, ticks);
    RunControlOn(START, ticks, [t]);
    assert [t][1..] == [];
  }

  /** On every run: a frame whose processing leads to neither response ends the thread, and a lost
      connection is replaced by a new one as soon as there is one. */
  lemma ControlEnds(ticks: seq<Tick>, t: Tick)
    requires GoesOn(ticks) && !t.quitTest
    ensures var s, u := RunControl(START, ticks), RunControl(START, ticks + [t]);
      && (!s.lost && |s.current| > 3 && Last(s.current).Replied? && ControlDue(s.current) == [] ==>
            u.done && u.Conversations() == s.Conversations())
      && (s.lost && !s.done && t.connected && !t.quitLater ==> u.earlier == s.earlier + [s.current] && u.current == [] && !u.lost)
  {
    OneRound(ticks, t);
    hide ControlLegal;
  }
}
