/** The laws of the main thread's conversations: what may follow what, and what must. */
module SessionMainLaws {
  import opened Session
  import opened SessionLaws

  /** The host has answered the signon. */
  predicate Accepted(c: Conversation) {
    exists i | 0 <= i < |c| :: c[i].Replied? && c[i].signon
  }

  /** The last act is a frame that came after the signon was answered; the thread processes it. */
  predicate Served(c: Conversation) {
    c != [] && Last(c).Replied? && Accepted(c[..|c| - 1])
  }

  /** The last act is the answer to the signon. */
  predicate JustAccepted(c: Conversation) {
    c != [] && Last(c).Replied? && Last(c).signon && !Accepted(c[..|c| - 1])
  }

  /** Act a may follow on the conversation c: headers until the signon was answered, messages
      afterwards, frames only after a header or a message, and to a frame that is processed just its
      response. EOT ends a conversation. */
  predicate MainFollows(c: Conversation, a: Act) {
    && (c != [] && Last(c) == Wrote(ClientData) ==> a == Wrote(Data) || a == Wrote(Eot))
    && (c != [] ==> Last(c) != Wrote(Eot))
    && match a
       case Wrote(Header) => !Accepted(c)
       case Wrote(Message) => Accepted(c) && !Served(c)
       case Wrote(Ack) => Served(c) && Last(c).next == SendAck
       case Wrote(ClientData) => c != [] && (Last(c).Replied? ==> Served(c) && Last(c).next == SendClientData)
       case Wrote(Data) => c != [] && Last(c) == Wrote(ClientData)
       case Wrote(Eot) => true
       case Replied(_, _) => c != [] && Last(c) in {Wrote(Header), Wrote(Message)}
  }

  predicate MainLegal(c: Conversation) {
    forall i | 0 <= i < |c| :: MainFollows(c[..i], c[i])
  }

  /** What is to be written next on an open connection, if sending works as sendOk says. */
  function MainDue(c: Conversation, sendOk: bool): seq<Act> {
    if c == [] then [Wrote(Header)]
    else if JustAccepted(c) then [Wrote(Message)]
    else if Served(c) && Last(c).next == SendAck then [Wrote(Ack)]
    else if Served(c) && Last(c).next == SendClientData then
      if sendOk then [Wrote(ClientData), Wrote(Data)] else [Wrote(ClientData)]
    else []
  }

  lemma MainLegalNext(c: Conversation, a: Act)
    requires MainLegal(c) && MainFollows(c, a)
    ensures MainLegal(c + [a])
  {
    hide MainFollows;
    var d := c + [a];
    forall i | 0 <= i < |d|
      ensures MainFollows(d[..i], d[i])
    {
      if i == |c| {
        assert d[..i] == c;
      } else {
        assert d[..i] == c[..i];
      }
    }
  }

  lemma AcceptedNext(c: Conversation, a: Act)
    ensures Accepted(c + [a]) <==> Accepted(c) || (a.Replied? && a.signon)
    ensures Last(c + [a]) == a && (c + [a])[..|c + [a]| - 1] == c
  {
    var d := c + [a];
    assert d[..|d| - 1] == c;
    if Accepted(c) {
      var i :| 0 <= i < |c| && c[i].Replied? && c[i].signon;
      assert d[i] == c[i];
    }
    if a.Replied? && a.signon { assert d[|c|] == a; }
    if Accepted(d) {
      var i :| 0 <= i < |d| && d[i].Replied? && d[i].signon;
      if i < |c| { assert c[i] == d[i]; }
    }
  }

  predicate AllMainLegal(s: Thread) {
    MainLegal(s.current) && forall c | c in s.earlier :: MainLegal(c)
  }

  /** Between two acts: the last one was written, and it was not client data without its data. */
  predicate Settled(c: Conversation) {
    c != [] && Last(c) in {Wrote(Header), Wrote(Message), Wrote(Ack), Wrote(Data)}
  }

  /** On an open connection the step is one that the conversation allows. */
  predicate MainInStep(s: Thread) {
    var c := s.current;
    match s.step
    case Reconnected => c == []
    case SendClient =>
      && (s.headerDone <==> Accepted(c)) && !Served(c)
      && (c == [] || Settled(c) || Last(c).Replied?)
    case SendSignonAck => s.headerDone && Accepted(c) && JustAccepted(c)
    case ReadClient =>
      && c != [] && Last(c) in {Wrote(Header), Wrote(Message)}
      && (s.headerDone <==> Accepted(c)) && (!s.headerDone ==> s.headerProcessing)
    case ProcessClient => Settled(c) && (s.headerDone <==> Accepted(c))
    case SendTestMsg => Settled(c) && (s.headerDone <==> Accepted(c))
    case SendClientData =>
      && (Settled(c) || (Served(c) && Last(c).next == SendClientData))
      && (s.headerDone <==> Accepted(c))
    case SendAck => Served(c) && Last(c).next == SendAck && s.headerDone && Accepted(c)
    case Unknown => Served(c) && Last(c).next != SendAck && Last(c).next != SendClientData
    case AtEnd => c != [] && Last(c).Replied? && !Accepted(c) && !Served(c) && !s.headerDone
    case _ => false
  }

  predicate MainState(s: Thread) {
    && AllMainLegal(s)
    && (s.current != [] ==> Last(s.current) != Wrote(Eot))
    && if s.lost then s.step == ReconnectFailed && !s.done else MainInStep(s)
  }

  lemma NothingMainLegal()
    ensures MainLegal([])
  {
  }

  lemma MainReconnectLegal(s: Thread, t: Tick)
    requires AllMainLegal(s) && (s.current != [] ==> Last(s.current) != Wrote(Eot))
    ensures AllMainLegal(Reconnect(s, t))
    ensures !s.done && !t.quitLater ==> MainState(Reconnect(s, t))
  {
    hide MainLegal;
    var u := Reconnect(s, t);
    assert forall c | c in u.earlier :: c in s.earlier || c == s.current;
    NothingMainLegal();
  }

  lemma MainDoes(s: Thread, a: Act)
    requires AllMainLegal(s) && MainFollows(s.current, a)
    ensures AllMainLegal(s.Did(a)) && Last(s.Did(a).current) == a
    ensures Accepted(s.Did(a).current) <==> Accepted(s.current) || (a.Replied? && a.signon)
    ensures Served(s.Did(a).current) <==> a.Replied? && Accepted(s.current)
    ensures JustAccepted(s.Did(a).current) <==> a.Replied? && a.signon && !Accepted(s.current)
  {
    hide MainLegal;
    hide MainFollows;
    hide Accepted;
    MainLegalNext(s.current, a);
    AcceptedNext(s.current, a);
  }

  lemma MainSendsNext(s: Thread, t: Tick)
    requires MainState(s) && s.step == SendClient && !s.lost && !s.done
    ensures AllMainLegal(SendNext(s, t))
    ensures !t.quitLater ==> MainState(SendNext(s, t))
  {
    hide Reconnect;
    hide MainLegal;
    hide Accepted;
    hide Served;
    hide JustAccepted;
    if !t.open {
      MainReconnectLegal(s.(step := ReadClient), t);
    } else {
      var u := if s.headerDone then s.Did(Wrote(Message)) else s.(headerProcessing := true).Did(Wrote(Header));
      MainDoes(s, if s.headerDone then Wrote(Message) else Wrote(Header));
      assert AllMainLegal(u);
      if !t.sendOk { MainReconnectLegal(u, t); }
    }
  }

  lemma MainReadsNext(s: Thread, t: Tick)
    requires MainState(s) && s.step == ReadClient && !s.lost && !s.done
    ensures AllMainLegal(MainRead(s, t))
    ensures !t.quitLater ==> MainState(MainRead(s, t))
  {
    hide Reconnect;
    hide MainLegal;
    hide Accepted;
    hide Served;
    hide JustAccepted;
    MainReconnectLegal(s, t);
    MainDoes(s, Replied(t.signon, t.next));
  }

  lemma MainResponds(s: Thread, t: Tick)
    requires MainState(s) && (s.step == SendAck || s.step == SendClientData) && !s.lost && !s.done && !t.quitTop
    ensures AllMainLegal(MainStep(s, t))
    ensures !t.quitLater ==> MainState(MainStep(s, t))
  {
    hide Reconnect;
    hide MainLegal;
    hide Accepted;
    hide Served;
    hide JustAccepted;
    ServedLast(s.current);
    if s.step == SendAck {
      var u := s.Did(Wrote(Ack));
      MainDoes(s, Wrote(Ack));
      MainReconnectLegal(u, t);
    } else {
      var s1 := s.(step := ProcessClient);
      var u := s1.Did(Wrote(ClientData));
      MainDoes(s1, Wrote(ClientData));
      MainDoes(u, Wrote(Data));
      MainReconnectLegal(u, t);
      MainReconnectLegal(u.Did(Wrote(Data)), t);
    }
  }

  lemma ServedLast(c: Conversation)
    ensures Served(c) ==> c != [] && Last(c).Replied?
  {
  }

  /** A round keeps all conversations legal, and the step in line with the last one unless the
      thread was told to quit. */
  lemma MainRound(s: Thread, t: Tick)
    requires MainState(s) && !s.done
    ensures AllMainLegal(MainStep(s, t))
    ensures !t.quitTop && !t.quitLater ==> MainState(MainStep(s, t))
  {
    hide Reconnect;
    hide MainLegal;
    hide SendNext;
    hide MainRead;
    hide Accepted;
    NothingAccepted();
    if t.quitTop {
      if t.open { MainDoes(s, Wrote(Eot)); }
    } else {
      match s.step
      case SendAck => MainResponds(s, t);
      case SendClientData => MainResponds(s, t);
      case SendClient => MainSendsNext(s, t);
      case ReadClient => MainReadsNext(s, t);
      case ReconnectFailed => MainReconnectLegal(s.(headerDone := false), t);
      case _ =>
    }
  }

  lemma NothingAccepted()
    ensures !Accepted([])
  {
  }

  lemma StartMain()
    ensures MainState(START)
  {
  }

  // ----- whole runs -----

  lemma {:induction false} RunMainLegal(s: Thread, ticks: seq<Tick>)
    requires MainState(s) && QuitStays(ticks)
    ensures AllMainLegal(RunMain(s, ticks))
    decreases |ticks|
  {
    hide MainState;
    hide MainLegal;
    hide MainStep;
    if ticks == [] || s.done || ticks[0].quitTest {
      assert AllMainLegal(s) by { StateIsLegal(s); }
    } else {
      var t, u := ticks[0], MainStep(s, ticks[0]);
      MainRound(s, t);
      if t.quitTop || t.quitLater {
        if |ticks| > 1 { assert ticks[1].quitTest; }
        assert RunMain(u, ticks[1..]) == u;
      } else {
        RunMainLegal(u, ticks[1..]);
      }
    }
  }

  lemma StateIsLegal(s: Thread)
    requires MainState(s)
    ensures AllMainLegal(s)
  {
  }

  /** On every run, every act on every connection of the main thread follows those before it by the
      law. */
  lemma MainObeys(ticks: seq<Tick>)
    requires QuitStays(ticks)
    ensures forall c | c in RunMain(START, ticks).Conversations() :: MainLegal(c)
  {
    hide RunMain;
    hide MainLegal;
    StartMain();
    RunMainLegal(START, ticks);
    var s := RunMain(START, ticks);
    assert forall c | c in s.Conversations() :: c in s.earlier || c == s.current;
  }

  /** Nobody asks the thread to quit. */
  predicate Keeps(t: Tick) {
    !t.quitTest && !t.quitTop && !t.quitLater
  }

  predicate AllKeep(ticks: seq<Tick>) {
    forall t | t in ticks :: Keeps(t)
  }

  lemma {:induction false} RunMainState(s: Thread, ticks: seq<Tick>)
    requires MainState(s) && AllKeep(ticks)
    ensures MainState(RunMain(s, ticks))
    decreases |ticks|
  {
    hide MainState;
    hide MainStep;
    if ticks != [] && !s.done {
      assert Keeps(ticks[0]);
      MainRound(s, ticks[0]);
      RunMainState(MainStep(s, ticks[0]), ticks[1..]);
    }
  }

  lemma {:induction false} RunMainOn(s: Thread, ticks: seq<Tick>, more: seq<Tick>)
    requires AllKeep(ticks)
    ensures RunMain(s, ticks + more) == RunMain(RunMain(s, ticks), more)
    decreases |ticks|
  {
    hide MainStep;
    if ticks == [] {
      assert ticks + more == more;
    } else if !s.done {
      assert (ticks + more)[1..] == ticks[1..] + more;
      assert Keeps(ticks[0]);
      RunMainOn(MainStep(s, ticks[0]), ticks[1..], more);
    }
  }

  lemma TwoMainRounds(ticks: seq<Tick>, t: Tick, t': Tick)
    requires AllKeep(ticks) && Keeps(t) && Keeps(t')
    ensures var s := RunMain(START, ticks); var u := MainStep(s, t);
      && MainState(s)
      && (s.done ==> RunMain(START, ticks + [t, t']) == s)
      && (!s.done ==> RunMain(START, ticks + [t, t']) == if u.done then u else MainStep(u, t'))
  {
    hide MainStep;
    hide MainState;
    StartMain();
    RunMainState(START, ticks);
    RunMainOn(START, ticks, [t, t']);
    var s := RunMain(START, ticks);
    var u := MainStep(s, t);
    assert [t, t'][1..] == [t'] && [t'][1..] == [];
    assert !s.done ==> RunMain(s, [t, t']) == RunMain(u, [t']);
    assert RunMain(u, [t']) == if u.done then u else RunMain(MainStep(u, t'), []);
  }

  // ----- responses -----

  lemma MainWrites(s: Thread, t: Tick)
    requires MainState(s) && s.step in {SendClient, SendAck, SendClientData} && !s.lost && t.open && Keeps(t)
    requires MainDue(s.current, t.sendOk) != []
    ensures var c := s.current + MainDue(s.current, t.sendOk);
      var u := MainStep(s, t);
      && Continues(c, u) && u.done == s.done
      && (Failing(t) ==> GivenUp(c, u) && u.step in {Reconnected, ReconnectFailed} && (u.step == Reconnected ==> c in u.earlier))
      && (t.sendOk && t.writeOk ==> u.current == c && !u.lost && u.step in {ReadClient, ProcessClient})
  {
    hide Reconnect;
    hide MainLegal;
    hide Continues;
    hide GivenUp;
    hide Accepted;
    var c := s.current + MainDue(s.current, t.sendOk);
    var u := MainStep(s, t);
    if s.step == SendAck {
      MainReplaced(c, s, s.Did(Wrote(Ack)), t);
    } else if s.step == SendClientData {
      var s1 := s.(step := ProcessClient);
      assert s.current + [Wrote(ClientData)] + [Wrote(Data)] == s.current + [Wrote(ClientData), Wrote(Data)];
      MainReplaced(c, s, if t.sendOk then s1.Did(Wrote(ClientData)).Did(Wrote(Data)) else s1.Did(Wrote(ClientData)), t);
    } else {
      NothingAccepted();
      JustAcceptedIs(s.current);
      MainReplaced(c, s, if s.headerDone then s.Did(Wrote(Message)) else s.(headerProcessing := true).Did(Wrote(Header)), t);
    }
    assert u.current == c || (u.current == [] && u.earlier == s.earlier + [c]);
    DoneNow(c, s, u);
  }

  lemma JustAcceptedIs(c: Conversation)
    ensures JustAccepted(c) ==> Accepted(c)
  {
    if JustAccepted(c) { assert c[|c| - 1].Replied? && c[|c| - 1].signon; }
  }

  lemma MainReplaced(c: Conversation, s: Thread, w: Thread, t: Tick)
    requires w.current == c && w.earlier == s.earlier && !t.quitLater && !w.lost
    ensures var u := Reconnect(w, t);
      && (u.current == c || (u.current == [] && u.earlier == s.earlier + [c]))
      && GivenUp(c, u) && u.step in {Reconnected, ReconnectFailed} && (u.step == Reconnected ==> c in u.earlier)
      && u.done == w.done
  {
    LostNow(c, w, t);
  }

  lemma DueSteps(s: Thread)
    requires MainState(s) && !s.lost && !s.done && MainDue(s.current, true) != []
    ensures s.step in {SendClient, SendAck, SendClientData, Reconnected, SendSignonAck}
  {
    hide MainLegal;
    hide Accepted;
    NothingAccepted();
    JustAcceptedIs(s.current);
  }

  lemma GetsReady(s: Thread, t: Tick)
    requires !s.lost && !s.done && Keeps(t) && s.step in {Reconnected, SendSignonAck}
    ensures var u := MainStep(s, t); u.step == SendClient && u.current == s.current && !u.lost && !u.done
  {
  }

  /** A response is written at once, except that the message to the answer of a signon, and the
      header on a new connection, may take one round to get ready for. */
  lemma MainGetsReady(s: Thread, t: Tick)
    requires MainState(s) && !s.lost && !s.done && Keeps(t) && MainDue(s.current, true) != []
    ensures s.step in {SendClient, SendAck, SendClientData} || s.step in {Reconnected, SendSignonAck}
    ensures s.step in {Reconnected, SendSignonAck} ==>
      var u := MainStep(s, t); u.step == SendClient && u.current == s.current && !u.lost && !u.done && MainState(u)
  {
    MainRound(s, t);
    DueSteps(s);
    hide MainState;
    hide MainDue;
    hide MainStep;
    if s.step in {Reconnected, SendSignonAck} { GetsReady(s, t); }
  }

  lemma MainReadyOrNot(c: Conversation, ok: bool)
    ensures MainDue(c, ok) == [] <==> MainDue(c, true) == []
  {
    hide Accepted;
  }

  /** Whatever was done stays on record. */
  lemma MainOnRecord(c: Conversation, s: Thread, t: Tick)
    requires Continues(c, s) && !t.quitTop
    ensures Continues(c, MainStep(s, t))
  {
    hide Continues;
    MainGrows(s, t);
    GrownContinues(c, s, MainStep(s, t));
  }

  lemma MainGrownRead(s: Thread, t: Tick)
    ensures Grown(s, MainRead(s, t))
  {
    hide Grown;
    hide Reconnect;
    GrownBy(s, s, t);
    GrownBy(s, MainRead(s, t.(open := true, readRc := 1)), t);
    GrownBy(s, s.(step := ReadClient), t);
    GrownBy(s, s.(step := ProcessClient), t);
  }

  lemma MainGrownResponse(s: Thread, t: Tick)
    requires !t.quitTop && (s.step == SendAck || s.step == SendClientData)
    ensures Grown(s, MainStep(s, t))
  {
    hide Grown;
    hide Reconnect;
    if s.step == SendAck {
      var u := s.Did(Wrote(Ack));
      GrownBy(s, u, t);
      GrownBy(s, u.(step := ProcessClient), t);
    } else {
      var u := s.Did(Wrote(ClientData)).(step := ProcessClient);
      GrownBy(s, u, t);
      GrownBy(s, u.Did(Wrote(Data)), t);
    }
  }

  lemma MainGrows(s: Thread, t: Tick)
    requires !t.quitTop
    ensures Grown(s, MainStep(s, t))
  {
    hide Grown;
    hide Reconnect;
    hide SendNext;
    hide MainRead;
    if s.step in {SendAck, SendClientData} {
      MainGrownResponse(s, t);
    } else if s.step == SendClient {
      GrownSend(s, t);
    } else if s.step == ReadClient {
      MainGrownRead(s, t);
    } else if s.step == ReconnectFailed {
      GrownBy(s, s.(headerDone := false), t);
    } else {
      assert MainStep(s, t).current == s.current || s.step == SendEot;
      GrownBy(s, MainStep(s, t), t);
    }
  }

  /** After the response: a connection that was given up stays so, one that went well stays. */
  lemma MainAfter(c: Conversation, u: Thread, t: Tick)
    requires Keeps(t) && !u.done
    ensures GivenUp(c, u) && u.step in {Reconnected, ReconnectFailed} && (u.step == Reconnected ==> c in u.earlier) ==>
      GivenUp(c, MainStep(u, t))
    ensures u.current == c && !u.lost && u.step in {ReadClient, ProcessClient} && t.open && t.readRc == 0 ==>
      MainStep(u, t).current == c && !MainStep(u, t).lost
  {
    hide Reconnect;
    if u.step == ReconnectFailed && u.current == c {
      LostNow(c, u.(headerDone := false), t);
    } else if u.step == ReconnectFailed {
      EarlierStays(c, u.(headerDone := false), t);
    }
  }

  lemma EarlierStays(c: Conversation, s: Thread, t: Tick)
    ensures c in s.earlier ==> c in Reconnect(s, t).earlier
  {
  }

  /** On every run: what is due on an open connection, the header, the message after the answer to
      it, an ACK, or client data with its data, is written on that connection within two more
      rounds. If the writes fail the connection is given up with them; if they go well it stays. */
  lemma MainResponse(ticks: seq<Tick>, t: Tick, t': Tick)
    requires AllKeep(ticks) && Keeps(t) && Keeps(t') && t.open && t'.open && t.sendOk == t'.sendOk
    ensures var s, u := RunMain(START, ticks), RunMain(START, ticks + [t, t']);
      !s.lost && !s.done && MainDue(s.current, t.sendOk) != [] ==>
        var c := s.current + MainDue(s.current, t.sendOk);
        && Continues(c, u)
        && (Failing(t) && Failing(t') ==> GivenUp(c, u))
        && (t.sendOk && t.writeOk && t'.writeOk && t'.readRc == 0 ==> u.current == c && !u.lost)
  {
    hide MainStep;
    hide MainState;
    hide MainDue;
    hide Continues;
    hide GivenUp;
    TwoMainRounds(ticks, t, t');
    var s := RunMain(START, ticks);
    var u := MainStep(s, t);
    if !s.lost && !s.done && MainDue(s.current, t.sendOk) != [] {
      var c := s.current + MainDue(s.current, t.sendOk);
      MainReadyOrNot(s.current, t.sendOk);
      MainGetsReady(s, t);
      if s.step in {Reconnected, SendSignonAck} {
        MainWrites(u, t');
      } else {
        MainWrites(s, t);
        MainOnRecord(c, u, t');
        MainAfter(c, u, t');
      }
    }
  }

  // ----- listening and gathering -----

  lemma OneMainRound(ticks: seq<Tick>, t: Tick)
    requires AllKeep(ticks) && Keeps(t)
    ensures var s := RunMain(START, ticks);
      MainState(s) && RunMain(START, ticks + [t]) == if s.done then s else MainStep(s, t)
  {
    hide MainState;
    hide MainStep;
    StartMain();
    RunMainState(START, ticks);
    RunMainOn(START, ticks, [t]);
    assert [t][1..] == [];
  }

  /** On every run: after the round that wrote a header or a message, the thread takes down a whole
      frame, waits on when it was interrupted, goes on gathering after a pass character or without a
      socket, and gives the connection up when the read fails. */
  lemma MainListens(ticks: seq<Tick>, t: Tick, t': Tick, a: Sent)
    requires AllKeep(ticks) && Keeps(t) && Keeps(t') && a in {Header, Message}
    ensures var s, u, v := RunMain(START, ticks), RunMain(START, ticks + [t]), RunMain(START, ticks + [t, t']);
      !u.lost && u.current == s.current + [Wrote(a)] ==>
        && (t'.open && t'.readRc == 1 ==> v.current == u.current + [Replied(t'.signon, t'.next)] && !v.lost)
        && (t'.open && t'.readRc == 0 ==> v == u)
        && (!t'.open || t'.readRc == 2 ==> v.Conversations() == u.Conversations() && !v.lost)
        && (t'.open && t'.readRc !in {0, 1, 2} ==> GivenUp(u.current, v))
  {
    OneMainRound(ticks, t);
    TwoMainRounds(ticks, t, t');
    var s, u := RunMain(START, ticks), RunMain(START, ticks + [t]);
    hide MainState;
    hide RunMain;
    if !u.lost && u.current == s.current + [Wrote(a)] {
      assert |u.current| == |s.current| + 1;
      WroteThenReads(s, t, a);
      hide MainStep;
      ReadsNow(u, t');
    }
  }

  lemma WroteThenReads(s: Thread, t: Tick, a: Sent)
    requires Keeps(t) && !MainStep(s, t).lost && a in {Header, Message} && !s.done
    requires MainStep(s, t).current == s.current + [Wrote(a)]
    ensures MainStep(s, t).step == ReadClient && !MainStep(s, t).done
  {
    hide MainRead;
    var d := s.current + [Wrote(a)];
    assert |d| == |s.current| + 1 && Last(d) == Wrote(a);
    if s.step == ReadClient { NoWriteInRead(s, t); }
  }

  lemma NoWriteInRead(s: Thread, t: Tick)
    ensures var c := MainRead(s, t).current; c in {s.current, s.current + [Replied(t.signon, t.next)], []}
  {
  }

  lemma ReadsNow(u: Thread, t: Tick)
    requires u.step == ReadClient && !u.lost && Keeps(t)
    ensures var v := MainStep(u, t);
        && (t.open && t.readRc == 1 ==> v.current == u.current + [Replied(t.signon, t.next)] && !v.lost)
        && (t.open && t.readRc == 0 ==> v == u)
        && (!t.open || t.readRc == 2 ==> v.Conversations() == u.Conversations() && !v.lost)
        && (t.open && t.readRc !in {0, 1, 2} ==> GivenUp(u.current, v))
  {
    hide Reconnect;
    LostNow(u.current, u, t);
  }

  /** Something was gathered and sent behind c. */
  predicate Gathers(c: Conversation, s: Thread) {
    || Continues(c + [Wrote(ClientData)], s)
    || Continues(c + [Wrote(Message)], s)
    || Continues(c + [Wrote(Header)], s)
  }

  lemma GathersOn(c: Conversation, s: Thread, t: Tick)
    requires Gathers(c, s) && !t.quitTop
    ensures Gathers(c, MainStep(s, t))
  {
    hide Continues;
    hide MainStep;
    if Continues(c + [Wrote(ClientData)], s) {
      MainOnRecord(c + [Wrote(ClientData)], s, t);
    } else if Continues(c + [Wrote(Message)], s) {
      MainOnRecord(c + [Wrote(Message)], s, t);
    } else {
      MainOnRecord(c + [Wrote(Header)], s, t);
    }
  }

  /** How many rounds are left until something is sent. */
  function Rounds(step: Step): nat {
    match step
    case ProcessClient => 3
    case SendTestMsg => 2
    case _ => 1
  }

  lemma GathersSoon(s: Thread, t: Tick)
    requires s.step in {ProcessClient, SendTestMsg, SendClientData, SendClient} && Keeps(t) && t.open
    ensures var u := MainStep(s, t);
      && u.done == s.done
      && (Gathers(s.current, u)
          || (u.step in {SendTestMsg, SendClientData, SendClient} && Rounds(u.step) < Rounds(s.step) && u.current == s.current))
  {
    hide Reconnect;
    hide Continues;
    var c := s.current;
    if s.step == SendClientData {
      var w := s.Did(Wrote(ClientData)).(step := ProcessClient);
      var d := if t.sendOk then w.Did(Wrote(Data)) else w;
      AfterReconnect(d, t);
      ReconnectSame(d, t);
      DoneNow(d.current, s, MainStep(s, t));
      ShorterToo(c + [Wrote(ClientData)], d.current, MainStep(s, t));
    } else if s.step == SendClient {
      var w := if s.headerDone then s.Did(Wrote(Message)) else s.(headerProcessing := true).Did(Wrote(Header));
      AfterReconnect(w, t);
      ReconnectSame(w, t);
      DoneNow(w.current, s, MainStep(s, t));
    }
  }

  lemma ReconnectSame(s: Thread, t: Tick)
    ensures Reconnect(s, t).done == s.done
  {
  }

  lemma ShorterToo(c: Conversation, d: Conversation, s: Thread)
    requires c <= d && Continues(d, s)
    ensures Continues(c, s)
  {
    var e :| e in s.Conversations() && d <= e;
    assert c <= e;
  }

  lemma {:induction false} GathersWithin(s: Thread, ticks: seq<Tick>)
    requires s.step in {ProcessClient, SendTestMsg, SendClientData, SendClient} && !s.done
    requires AllKeep(ticks) && (forall t | t in ticks :: t.open) && |ticks| >= Rounds(s.step)
    ensures Gathers(s.current, RunMain(s, ticks))
    decreases |ticks|
  {
    hide MainStep;
    hide Gathers;
    var t := ticks[0];
    assert Keeps(t) && t.open;
    var u := MainStep(s, t);
    GathersSoon(s, t);
    if Gathers(s.current, u) {
      GathersStay(s.current, u, ticks[1..]);
    } else {
      GathersWithin(u, ticks[1..]);
    }
  }

  lemma {:induction false} GathersStay(c: Conversation, s: Thread, ticks: seq<Tick>)
    requires Gathers(c, s) && AllKeep(ticks)
    ensures Gathers(c, RunMain(s, ticks))
    decreases |ticks|
  {
    hide MainStep;
    hide Gathers;
    if ticks != [] && !s.done {
      assert Keeps(ticks[0]);
      GathersOn(c, s, ticks[0]);
      GathersStay(c, MainStep(s, ticks[0]), ticks[1..]);
    }
  }

  /** On every run: after an ACK or data, the thread sends client data or a message on the same
      connection within three more rounds. */
  lemma MainGathers(ticks: seq<Tick>, more: seq<Tick>)
    requires AllKeep(ticks) && AllKeep(more) && (forall t | t in more :: t.open) && |more| >= 3
    ensures var s := RunMain(START, ticks);
      !s.lost && !s.done && s.current != [] && Last(s.current) in {Wrote(Ack), Wrote(Data)} ==>
        Gathers(s.current, RunMain(START, ticks + more))
  {
    var s := RunMain(START, ticks);
    StartMain();
    RunMainState(START, ticks);
    RunMainOn(START, ticks, more);
    if !s.lost && !s.done && s.current != [] && Last(s.current) in {Wrote(Ack), Wrote(Data)} {
      hide MainLegal;
      hide Accepted;
      hide RunMain;
      assert s.step in {ProcessClient, SendTestMsg, SendClientData, SendClient};
      GathersWithin(s, more);
    }
  }

  /** On every run: a frame whose processing leads to neither response ends the thread, and a lost
      connection is replaced by a new one as soon as there is one. */
  lemma MainEnds(ticks: seq<Tick>, t: Tick)
    requires AllKeep(ticks) && Keeps(t)
    ensures var s, u := RunMain(START, ticks), RunMain(START, ticks + [t]);
      && (!s.lost && Served(s.current) && MainDue(s.current, true) == [] ==> u.done && u.Conversations() == s.Conversations())
      && (s.lost && t.connected ==> u.earlier == s.earlier + [s.current] && u.current == [] && !u.lost)
  {
    OneMainRound(ticks, t);
    hide MainLegal;
    hide Accepted;
    hide RunMain;
  }

  /** On every run: when the host had nothing to say, the thread sends client data, or, when a test
      message is due, a message; before the signon was answered that is another header. */
  lemma MainDecides(ticks: seq<Tick>, t: Tick, pass: Tick, gather: Tick, more: seq<Tick>, a: Sent)
    requires AllKeep(ticks) && Keeps(t) && Keeps(pass) && Keeps(gather) && AllKeep(more) && a in {Header, Message}
    requires pass.open && pass.readRc == 2 && (forall x | x in more :: x.open) && |more| >= 2
    ensures var s, u, v := RunMain(START, ticks), RunMain(START, ticks + [t]), RunMain(START, ticks + [t, pass, gather] + more);
      !u.lost && u.current == s.current + [Wrote(a)] ==>
        var next := if gather.next != SendTestMsg then ClientData else if Accepted(u.current) then Message else Header;
        Continues(u.current + [Wrote(next)], v)
  {
    hide RunMain;
    hide MainStep;
    hide MainState;
    hide Continues;
    hide Accepted;
    OneMainRound(ticks, t);
    AllKeepMore(ticks, t);
    RunMainMore(ticks, t, [pass, gather] + more);
    assert ticks + [t, pass, gather] + more == (ticks + [t]) + ([pass, gather] + more);
    var s, u := RunMain(START, ticks), RunMain(START, ticks + [t]);
    if !u.lost && u.current == s.current + [Wrote(a)] {
      assert |u.current| == |s.current| + 1;
      WroteThenReads(s, t, a);
      Decides(u, pass, gather, more);
    }
  }

  lemma AllKeepMore(ticks: seq<Tick>, t: Tick)
    requires AllKeep(ticks) && Keeps(t)
    ensures AllKeep(ticks + [t])
  {
  }

  lemma RunMainMore(ticks: seq<Tick>, t: Tick, more: seq<Tick>)
    requires AllKeep(ticks) && Keeps(t)
    ensures MainState(RunMain(START, ticks + [t]))
    ensures RunMain(START, (ticks + [t]) + more) == RunMain(RunMain(START, ticks + [t]), more)
  {
    hide MainState;
    hide RunMain;
    StartMain();
    AllKeepMore(ticks, t);
    RunMainState(START, ticks + [t]);
    RunMainOn(START, ticks + [t], more);
  }

  lemma PassesOn(u: Thread, pass: Tick, gather: Tick)
    requires MainState(u) && u.step == ReadClient && !u.lost && !u.done
    requires Keeps(pass) && Keeps(gather) && pass.open && pass.readRc == 2
    ensures var v := MainStep(u, pass); var w := MainStep(v, gather);
      && !v.done && !w.done && w.current == u.current
      && w.step == (if gather.next != SendTestMsg then SendClientData else SendTestMsg)
      && w.headerDone == Accepted(u.current)
  {
    hide Accepted;
    hide AllMainLegal;
    hide Reconnect;
  }

  lemma TestMessage(w: Thread, t: Tick)
    requires w.step == SendTestMsg && !w.done && Keeps(t) && t.open
    ensures var x := MainStep(w, t); x.step == SendClient && x.current == w.current && x.headerDone == w.headerDone && !x.done
  {
    hide Reconnect;
  }

  lemma RunNext(s: Thread, a: Tick, more: seq<Tick>)
    requires !s.done && Keeps(a)
    ensures RunMain(s, [a] + more) == RunMain(MainStep(s, a), more)
  {
    hide MainStep;
    assert ([a] + more)[0] == a && ([a] + more)[1..] == more;
  }

  lemma Decides(u: Thread, pass: Tick, gather: Tick, more: seq<Tick>)
    requires MainState(u) && u.step == ReadClient && !u.lost && !u.done
    requires Keeps(pass) && Keeps(gather) && AllKeep(more) && pass.open && pass.readRc == 2
    requires (forall x | x in more :: x.open) && |more| >= 2
    ensures var next := if gather.next != SendTestMsg then ClientData else if Accepted(u.current) then Message else Header;
      Continues(u.current + [Wrote(next)], RunMain(u, [pass, gather] + more))
  {
    hide Continues;
    hide Accepted;
    hide MainState;
    hide MainStep;
    hide Keeps;
    hide RunMain;
    var a, b, rest := more[0], more[1], more[2..];
    var w := MainStep(MainStep(u, pass), gather);
    assert a in more && b in more && more == [a] + more[1..] && more[1..] == [b] + rest;
    PassesOn(u, pass, gather);
    assert [pass, gather] + more == [pass] + ([gather] + more);
    RunNext(u, pass, [gather] + more);
    RunNext(MainStep(u, pass), gather, more);
    RunNext(w, a, more[1..]);
    if gather.next != SendTestMsg {
      DataNow(w, a);
      RecordStays(u.current + [Wrote(ClientData)], MainStep(w, a), more[1..]);
    } else {
      TestMessage(w, a);
      var x := MainStep(w, a);
      SentByMain(x, b);
      RunNext(x, b, rest);
      RecordStays(u.current + [Wrote(if x.headerDone then Message else Header)], MainStep(x, b), rest);
    }
  }

  lemma {:induction false} RecordStays(c: Conversation, s: Thread, ticks: seq<Tick>)
    requires Continues(c, s) && AllKeep(ticks)
    ensures Continues(c, RunMain(s, ticks))
    decreases |ticks|
  {
    hide MainStep;
    hide Continues;
    if ticks != [] && !s.done {
      assert Keeps(ticks[0]);
      MainOnRecord(c, s, ticks[0]);
      RecordStays(c, MainStep(s, ticks[0]), ticks[1..]);
    }
  }

  lemma DataNow(s: Thread, t: Tick)
    requires s.step == SendClientData && Keeps(t)
    ensures Continues(s.current + [Wrote(ClientData)], MainStep(s, t))
  {
    hide Reconnect;
    hide Continues;
    var w := s.Did(Wrote(ClientData)).(step := ProcessClient);
    var d := if t.sendOk then w.Did(Wrote(Data)) else w;
    AfterReconnect(d, t);
    DoneNow(d.current, s, MainStep(s, t));
    ShorterToo(s.current + [Wrote(ClientData)], d.current, MainStep(s, t));
  }

  lemma SentByMain(s: Thread, t: Tick)
    requires s.step == SendClient && Keeps(t) && t.open
    ensures Continues(s.current + [Wrote(if s.headerDone then Message else Header)], MainStep(s, t))
  {
    hide Reconnect;
    hide Continues;
    var w := if s.headerDone then s.Did(Wrote(Message)) else s.(headerProcessing := true).Did(Wrote(Header));
    AfterReconnect(w, t);
    DoneNow(w.current, s, MainStep(s, t));
  }
}
