/** The two threads that talk to the host: their step machines, against any host and any loss of
    connection. */
module Session {
  datatype Step =
    | SendClient
    | ReadClient
    | ProcessClient
    | SendSignonAck
    | SendAck
    | SendClientData
    | SendTestMsg
    | Reconnected
    | ReconnectFailed
    | SendEot
    | AtEnd
    | Unknown

  datatype Sent = Header | Message | ClientData | Data | Ack | Eot

  /** What happens on one connection: something is written, or a whole frame is read; signon says
      whether it answers a signon, next to which step processing it leads. */
  datatype Act = Wrote(what: Sent) | Replied(signon: bool, next: Step)

  type Conversation = seq<Act>

  /** What the world answers in one round of the loop: whether the thread was told to quit, at
      each place that looks; whether the socket is open; the result of a read and whether the frame
      is an answer to a signon; whether writes and a new connection succeed; and the step that
      processing a message leads to. */
  datatype Tick = Tick(
    quitTest: bool,
    quitTop: bool,
    quitLater: bool,
    open: bool,
    readRc: int,
    signon: bool,
    sendOk: bool,
    writeOk: bool,
    connected: bool,
    next: Step)

  /** A thread, with all its conversations, the current one last; lost says that its connection was
      closed and no other one opened yet. */
  datatype Thread = Thread(
    step: Step,
    headerDone: bool,
    headerProcessing: bool,
    done: bool,
    lost: bool,
    earlier: seq<Conversation>,
    current: Conversation) {
    function Did(a: Act): Thread {
      this.(current := current + [a])
    }

    function Conversations(): seq<Conversation> {
      earlier + [current]
    }
  }

  const START: Thread := Thread(SendClient, false, false, false, false, [], [])

  function Reconnect(s: Thread, t: Tick): Thread {
    if t.quitLater then s.(step := AtEnd)
    else if t.connected then s.(step := Reconnected, lost := false, earlier := s.earlier + [s.current], current := [])
    else s.(step := ReconnectFailed, lost := true)
  }

  /** Both threads send a header until one was answered, and messages afterwards. */
  function SendNext(s: Thread, t: Tick): Thread {
    if !t.open then Reconnect(s.(step := ReadClient), t)
    else
      var u := if s.headerDone then s.Did(Wrote(Message)) else s.(headerProcessing := true).Did(Wrote(Header));
      if t.sendOk then u.(step := ReadClient) else Reconnect(u, t)
  }

  // ----- the control thread -----

  /** Processing a message from the host: a positive result leads to one of two steps, anything
      else ends the loop. */
  function Processed(next: Step): Step {
    if next == SendAck || next == SendClientData then next else Unknown
  }

  function ControlRead(s: Thread, t: Tick): Thread {
    if !t.open then Reconnect(s, t)
    else if t.readRc == 1 then
      var u := s.Did(Replied(t.signon, t.next));
      if s.headerDone then u.(step := Processed(t.next))
      else if s.headerProcessing then u.(step := SendSignonAck, headerDone := true, headerProcessing := false)
      else u.(step := SendAck)
    else if t.readRc == 2 || t.readRc == 0 then s.(step := ReadClient)
    else Reconnect(s, t)
  }

  function ControlStep(s: Thread, t: Tick): Thread {
    match s.step
    case SendAck =>
      var u := s.Did(Wrote(Ack));
      if t.writeOk then u.(step := ReadClient) else Reconnect(u, t)
    case Reconnected => s.(headerDone := false, step := SendClient)
    case ReconnectFailed => Reconnect(s.(headerDone := false), t)
    case SendClientData =>
      var u := s.Did(Wrote(ClientData)).Did(Wrote(Data));
      if t.writeOk then u.(step := ReadClient) else Reconnect(u, t)
    case ReadClient => ControlRead(s, t)
    case SendSignonAck => s.(step := SendClient)
    case SendClient => SendNext(s, t)
    case SendEot => (if t.open then s.Did(Wrote(Eot)) else s).(step := AtEnd)
    case _ => s.(done := true)
  }

  /** The loop over what happens round by round. */
  function RunControl(s: Thread, ticks: seq<Tick>): Thread
    decreases |ticks|
  {
    if ticks == [] || s.done || ticks[0].quitTest then s else RunControl(ControlStep(s, ticks[0]), ticks[1..])
  }

  // ----- the main thread -----

  function MainRead(s: Thread, t: Tick): Thread {
    if !t.open then s.(step := ProcessClient)
    else if t.readRc == 1 then
      var u := s.Did(Replied(t.signon, t.next));
      if s.headerDone then u.(step := Processed(t.next))
      else if s.headerProcessing then
        if t.signon then u.(step := SendSignonAck, headerDone := true, headerProcessing := false)
        else u.(step := AtEnd)
      else u.(step := SendClient)
    else if t.readRc == 2 then s.(step := ProcessClient)
    else if t.readRc == 0 then s.(step := ReadClient)
    else Reconnect(s, t)
  }

  /** What processClient answers: client data, a test message, or the end when told to quit. */
  function Gathered(t: Tick): Step {
    if t.quitLater then AtEnd else if t.next == SendTestMsg then SendTestMsg else SendClientData
  }

  function MainStep(s0: Thread, t: Tick): Thread {
    var s := if t.quitTop then s0.(step := SendEot) else s0;
    match s.step
    case SendAck =>
      var u := s.Did(Wrote(Ack));
      if t.writeOk then u.(step := ProcessClient) else Reconnect(u, t)
    case SendTestMsg => s.(step := SendClient)
    case Reconnected => s.(headerDone := false, step := SendClient)
    case ReconnectFailed => Reconnect(s.(headerDone := false), t)
    case ProcessClient => s.(step := Gathered(t))
    case SendSignonAck => s.(step := SendClient)
    case ReadClient => MainRead(s, t)
    case SendClientData =>
      var u := s.Did(Wrote(ClientData)).(step := ProcessClient);
      if !t.sendOk then Reconnect(u, t)
      else if t.writeOk then u.Did(Wrote(Data))
      else Reconnect(u.Did(Wrote(Data)), t)
    case SendClient => SendNext(s, t)
    case SendEot => (if t.open then s.Did(Wrote(Eot)) else s).(step := AtEnd)
    case AtEnd => s.(step := SendClient)
    case Unknown => s.(done := true)
  }

  function RunMain(s: Thread, ticks: seq<Tick>): Thread
    decreases |ticks|
  {
    if ticks == [] || s.done || ticks[0].quitTest then s else RunMain(MainStep(s, ticks[0]), ticks[1..])
  }

  // ----- the control thread waits for its answer -----

  /** A header, then an answer, then the acknowledgement of the signon, then anything but a
      header; or as much of that as happened before the connection was lost. */
  predicate ControlTalk(c: Conversation) {
    && (|c| > 0 ==> c[0] == Wrote(Header))
    && (|c| > 1 ==> c[1].Replied?)
    && (|c| > 2 ==> c[2] == Wrote(Message))
    && (forall i | 0 < i < |c| :: c[i] != Wrote(Header))
  }

  predicate ControlSound(s: Thread) {
    && (forall c | c in s.earlier :: ControlTalk(c))
    && ControlTalk(s.current)
    && match s.step
       case SendClient => if s.headerDone then |s.current| >= 2 else s.current == []
       case ReadClient => if s.headerDone then |s.current| >= 3 else s.headerProcessing && |s.current| == 1
       case SendSignonAck => s.headerDone && |s.current| >= 2
       case SendAck => s.headerDone && |s.current| >= 3
       case SendClientData => s.headerDone && |s.current| >= 3
       case Reconnected => s.current == []
       case ReconnectFailed => true
       case AtEnd => true
       case Unknown => true
       case _ => false
  }

  predicate ControlTalks(s: Thread) {
    (forall c | c in s.earlier :: ControlTalk(c)) && ControlTalk(s.current)
  }

  lemma ReconnectTalks(s: Thread, t: Tick)
    requires ControlTalks(s)
    ensures ControlSound(Reconnect(s, t))
  {
    var u := Reconnect(s, t);
    assert forall c | c in u.earlier :: c in s.earlier || c == s.current;
  }

  lemma DidTalks(s: Thread, a: Act)
    requires ControlTalks(s)
    requires |s.current| == 0 ==> a == Wrote(Header)
    requires |s.current| == 1 ==> a.Replied?
    requires |s.current| == 2 ==> a == Wrote(Message)
    requires |s.current| > 0 ==> a != Wrote(Header)
    ensures ControlTalks(s.Did(a))
  {
  }

  lemma SendNextTalks(s: Thread, t: Tick)
    requires ControlSound(s) && s.step == SendClient
    ensures ControlSound(SendNext(s, t))
  {
    hide Reconnect;
    hide ControlTalk;
    assert ControlTalks(s);
    if !t.open {
      ReconnectTalks(s.(step := ReadClient), t);
    } else {
      var u := if s.headerDone then s.Did(Wrote(Message)) else s.(headerProcessing := true).Did(Wrote(Header));
      DidTalks(s, if s.headerDone then Wrote(Message) else Wrote(Header));
      assert ControlTalks(u);
      if !t.sendOk { ReconnectTalks(u, t); }
    }
  }

  lemma ControlReadTalks(s: Thread, t: Tick)
    requires ControlSound(s) && s.step == ReadClient
    ensures ControlSound(ControlRead(s, t))
  {
    hide Reconnect;
    hide ControlTalk;
    assert ControlTalks(s);
    ReconnectTalks(s, t);
    DidTalks(s, Replied(t.signon, t.next));
  }

  lemma WroteTalks(s: Thread, a: Sent)
    requires ControlTalks(s) && |s.current| >= 3 && a != Header
    ensures ControlTalks(s.Did(Wrote(a)))
  {
    hide ControlTalk;
    DidTalks(s, Wrote(a));
  }

  lemma ControlStepSound(s: Thread, t: Tick)
    requires ControlSound(s)
    ensures ControlSound(ControlStep(s, t))
  {
    hide Reconnect;
    hide SendNext;
    hide ControlRead;
    hide ControlTalk;
    assert ControlTalks(s);
    match s.step
    case SendAck =>
      WroteTalks(s, Ack);
      ReconnectTalks(s.Did(Wrote(Ack)), t);
    case ReconnectFailed => ReconnectTalks(s.(headerDone := false), t);
    case SendClientData =>
      WroteTalks(s, ClientData);
      WroteTalks(s.Did(Wrote(ClientData)), Data);
      ReconnectTalks(s.Did(Wrote(ClientData)).Did(Wrote(Data)), t);
    case ReadClient => ControlReadTalks(s, t);
    case SendClient => SendNextTalks(s, t);
    case _ =>
  }

  lemma {:induction false} RunControlSound(s: Thread, ticks: seq<Tick>)
    requires ControlSound(s)
    ensures ControlSound(RunControl(s, ticks))
    decreases |ticks|
  {
    hide ControlSound;
    hide ControlStep;
    if ticks != [] && !s.done && !ticks[0].quitTest {
      ControlStepSound(s, ticks[0]);
      RunControlSound(ControlStep(s, ticks[0]), ticks[1..]);
    }
  }

  /** On every run, each connection of the control thread carries one signon header and nothing
      else until an answer was read on that connection; the next thing written is the
      acknowledgement, and no second header follows. */
  lemma ControlSignsOnFirst(ticks: seq<Tick>)
    ensures forall c | c in RunControl(START, ticks).Conversations() :: ControlTalk(c)
  {
    hide RunControl;
    RunControlSound(START, ticks);
    var s := RunControl(START, ticks);
    assert forall c | c in s.Conversations() :: c in s.earlier || c == s.current;
  }

  // ----- the main thread introduces itself -----

  /** g_quit is never taken back: whoever looks later than one who saw it sees it, too. */
  predicate QuitStays(ticks: seq<Tick>) {
    forall i, j | 0 <= i < j < |ticks| :: ticks[i].quitTop || ticks[i].quitLater ==> ticks[j].quitTest
  }

  predicate StartsWithHeader(c: Conversation) {
    c == [] || c[0] == Wrote(Header)
  }

  /** On a fresh connection the thread is about to send its header. */
  predicate MainSound(s: Thread) {
    && (forall c | c in s.earlier :: StartsWithHeader(c))
    && StartsWithHeader(s.current)
    && (s.current == [] ==>
          s.step == Reconnected || s.step == ReconnectFailed || (s.step == SendClient && !s.headerDone))
  }

  predicate MainTalks(s: Thread) {
    (forall c | c in s.earlier :: StartsWithHeader(c)) && StartsWithHeader(s.current)
  }

  lemma MainReconnects(s: Thread, t: Tick)
    requires MainTalks(s)
    ensures MainTalks(Reconnect(s, t))
    ensures !t.quitLater ==> MainSound(Reconnect(s, t))
  {
    var u := Reconnect(s, t);
    assert forall c | c in u.earlier :: c in s.earlier || c == s.current;
  }

  lemma MainDid(s: Thread, a: Act)
    requires MainTalks(s) && (s.current == [] ==> a == Wrote(Header))
    ensures MainTalks(s.Did(a)) && s.Did(a).current != []
  {
  }

  lemma MainSends(s: Thread, t: Tick)
    requires MainSound(s) && s.step == SendClient
    ensures MainTalks(SendNext(s, t))
    ensures !t.quitLater ==> MainSound(SendNext(s, t))
  {
    hide Reconnect;
    hide StartsWithHeader;
    if !t.open {
      MainReconnects(s.(step := ReadClient), t);
    } else {
      var u := if s.headerDone then s.Did(Wrote(Message)) else s.(headerProcessing := true).Did(Wrote(Header));
      MainDid(s, if s.headerDone then Wrote(Message) else Wrote(Header));
      if !t.sendOk { MainReconnects(u, t); }
    }
  }

  lemma MainReads(s: Thread, t: Tick)
    requires MainTalks(s) && s.current != []
    ensures MainTalks(MainRead(s, t))
    ensures !t.quitLater ==> MainSound(MainRead(s, t))
  {
    hide Reconnect;
    hide StartsWithHeader;
    MainReconnects(s, t);
    MainDid(s, Replied(t.signon, t.next));
  }

  lemma MainSendsData(s: Thread, t: Tick)
    requires MainTalks(s) && s.current != [] && s.step == SendClientData && !t.quitTop
    ensures MainTalks(MainStep(s, t))
    ensures !t.quitLater ==> MainSound(MainStep(s, t))
  {
    hide Reconnect;
    hide StartsWithHeader;
    hide SendNext;
    hide MainRead;
    var u := s.(step := ProcessClient);
    MainDid(u, Wrote(ClientData));
    MainDid(u.Did(Wrote(ClientData)), Wrote(Data));
    MainReconnects(u.Did(Wrote(ClientData)), t);
    MainReconnects(u.Did(Wrote(ClientData)).Did(Wrote(Data)), t);
  }

  /** As long as nobody asks to quit, what was sound stays sound; and a round of a thread that was
      not told to quit at its start writes nothing but a header first. */
  lemma MainStepSound(s: Thread, t: Tick)
    requires MainSound(s) && !t.quitTop
    ensures MainTalks(MainStep(s, t))
    ensures !t.quitLater ==> MainSound(MainStep(s, t))
  {
    hide Reconnect;
    hide StartsWithHeader;
    hide SendNext;
    hide MainRead;
    assert MainTalks(s);
    match s.step
    case SendAck =>
      MainDid(s, Wrote(Ack));
      MainReconnects(s.Did(Wrote(Ack)), t);
    case ReconnectFailed => MainReconnects(s.(headerDone := false), t);
    case SendClientData => MainSendsData(s, t);
    case ReadClient => MainReads(s, t);
    case SendClient => MainSends(s, t);
    case SendEot => MainDid(s, Wrote(Eot));
    case _ =>
  }

  /** The first thing written on a connection is not the header exactly when the thread is told to
      quit between the test of its loop and the start of the round, and the socket is open: then it
      is EOT. */
  lemma FirstWriteIff(s: Thread, t: Tick)
    requires MainSound(s) && s.current == [] && !t.quitTest
    ensures var u := MainStep(s, t);
      && (u.earlier == s.earlier && u.current != [] && u.current[0] != Wrote(Header) <==> t.quitTop && t.open)
      && (t.quitTop && t.open ==> u.current == [Wrote(Eot)])
  {
  }

  lemma TalksAll(s: Thread)
    requires MainTalks(s)
    ensures forall c | c in s.Conversations() :: StartsWithHeader(c)
  {
    hide StartsWithHeader;
    assert forall c | c in s.Conversations() :: c in s.earlier || c == s.current;
  }

  /** The last round of a thread that is told to quit at its start writes at most EOT. */
  lemma QuittingRound(s: Thread, t: Tick)
    requires MainSound(s) && t.quitTop
    ensures var u := MainStep(s, t);
      forall c | c in u.Conversations() :: StartsWithHeader(c) || (c == [Wrote(Eot)] && c == u.current)
  {
    var u := MainStep(s, t);
    assert u.earlier == s.earlier;
    assert u.current == s.current || u.current == s.current + [Wrote(Eot)];
    assert forall c | c in u.Conversations() :: c in u.earlier || c == u.current;
  }

  lemma {:induction false} RunMainSound(s: Thread, ticks: seq<Tick>)
    requires MainSound(s) && QuitStays(ticks)
    ensures forall c | c in RunMain(s, ticks).Conversations() ::
      StartsWithHeader(c) || (c == [Wrote(Eot)] && c == RunMain(s, ticks).current)
    ensures (forall t | t in ticks :: t.quitTop ==> t.quitTest) ==>
      forall c | c in RunMain(s, ticks).Conversations() :: StartsWithHeader(c)
    decreases |ticks|
  {
    hide MainStep;
    hide StartsWithHeader;
    if ticks == [] || s.done || ticks[0].quitTest {
      TalksAll(s);
    } else {
      var t, u := ticks[0], MainStep(s, ticks[0]);
      if t.quitTop || t.quitLater {
        if |ticks| > 1 { assert ticks[1].quitTest; }
        assert RunMain(u, ticks[1..]) == u;
      }
      if t.quitTop {
        QuittingRound(s, t);
        assert t in ticks;
      } else {
        MainStepSound(s, t);
        if t.quitLater { TalksAll(u); } else { RunMainSound(u, ticks[1..]); }
      }
    }
  }

  /** On every run, the first thing the main thread writes on a connection is the signon header,
      or EOT on the last connection; never EOT if it is not told to quit in the middle of a round. */
  lemma MainSignsOnFirst(ticks: seq<Tick>)
    requires QuitStays(ticks)
    ensures forall c | c in RunMain(START, ticks).Conversations() ::
      StartsWithHeader(c) || (c == [Wrote(Eot)] && c == RunMain(START, ticks).current)
    ensures (forall t | t in ticks :: t.quitTop ==> t.quitTest) ==>
      forall c | c in RunMain(START, ticks).Conversations() :: StartsWithHeader(c)
  {
    RunMainSound(START, ticks);
  }

  /** A run on which EOT comes first: the thread is told to quit just after its first test. */
  lemma EotFirst(t: Tick)
    requires !t.quitTest && t.quitTop && t.open
    ensures QuitStays([t]) && RunMain(START, [t]).Conversations() == [[Wrote(Eot)]]
  {
    var s := MainStep(START, t);
    assert [t][1..] == [] && RunMain(s, []) == s;
    assert s.earlier == [] && s.current == [Wrote(Eot)];
    assert s.earlier + [s.current] == [[Wrote(Eot)]];
  }

  // ----- the loops as they run -----

  /** A thread of the program; the world's answers come one round at a time. */
  class HostThread {
    var step: Step
    var headerDone: bool
    var headerProcessing: bool
    var done: bool
    var lost: bool
    var earlier: seq<Conversation>
    var current: Conversation

    constructor ()
      ensures View() == START
    {
      step, headerDone, headerProcessing, done, lost := SendClient, false, false, false, false;
      earlier, current := [], [];
    }

    ghost function View(): Thread
      reads this
    {
      Thread(step, headerDone, headerProcessing, done, lost, earlier, current)
    }

    method Write(what: Sent)
      modifies this`current
      ensures current == old(current) + [Wrote(what)]
    {
      current := current + [Wrote(what)];
    }

    method ReconnectHost(t: Tick)
      modifies this
      ensures View() == Reconnect(old(View()), t)
    {
      if t.quitLater {
        step := AtEnd;
        return;
      }
      lost := true;
      if t.connected {
        lost := false;
        earlier, current := earlier + [current], [];
        step := Reconnected;
      } else {
        step := ReconnectFailed;
      }
    }

    method SendClientStep(t: Tick)
      modifies this
      ensures View() == SendNext(old(View()), t)
    {
      step := ReadClient;
      if !t.open {
        ReconnectHost(t);
      } else if !headerDone {
        headerProcessing := true;
        Write(Header);
        if !t.sendOk {
          ReconnectHost(t);
        }
      } else {
        Write(Message);
        if !t.sendOk {
          ReconnectHost(t);
        }
      }
    }

    method ControlReadStep(t: Tick)
      modifies this
      ensures View() == ControlRead(old(View()), t)
    {
      step := SendAck;
      if !t.open {
        ReconnectHost(t);
        return;
      }
      if t.readRc != 1 {
        if t.readRc == 2 || t.readRc == 0 {
          step := ReadClient;
        } else {
          ReconnectHost(t);
        }
        return;
      }
      current := current + [Replied(t.signon, t.next)];
      if headerDone {
        step := Processed(t.next);
      } else if headerProcessing {
        headerDone := true;
        headerProcessing := false;
        step := SendSignonAck;
      }
    }

    method DoControl(ticks: seq<Tick>)
      requires View() == START
      modifies this
      ensures View() == RunControl(START, ticks)
      ensures forall c | c in View().Conversations() :: ControlTalk(c)
    {
      hide ControlRead;
      hide SendNext;
      hide Reconnect;
      hide ControlTalk;
      var i := 0;
      while i < |ticks| && !done && !ticks[i].quitTest
        invariant 0 <= i <= |ticks|
        invariant RunControl(View(), ticks[i..]) == RunControl(START, ticks)
      {
        var t := ticks[i];
        assert ticks[i..][1..] == ticks[i + 1..];
        match step {
          case SendAck =>
            Write(Ack);
            if !t.writeOk {
              ReconnectHost(t);
            } else {
              step := ReadClient;
            }
          case Reconnected =>
            headerDone := false;
            step := SendClient;
          case ReconnectFailed =>
            headerDone := false;
            ReconnectHost(t);
          case SendClientData =>
            Write(ClientData);
            Write(Data);
            if !t.writeOk {
              ReconnectHost(t);
            } else {
              step := ReadClient;
            }
          case ReadClient => ControlReadStep(t);
          case SendSignonAck => step := SendClient;
          case SendClient => SendClientStep(t);
          case SendEot =>
            if t.open {
              Write(Eot);
            }
            step := AtEnd;
          case _ => done := true;
        }
        i := i + 1;
      }
      ControlSignsOnFirst(ticks);
    }

    method MainReadStep(t: Tick)
      modifies this
      ensures View() == MainRead(old(View()), t)
    {
      if !t.open {
        step := ProcessClient;
        return;
      }
      step := SendClient;
      if t.readRc != 1 {
        if t.readRc != 2 {
          if t.readRc == 0 {
            step := ReadClient;
          } else {
            ReconnectHost(t);
          }
        } else {
          step := ProcessClient;
        }
        return;
      }
      current := current + [Replied(t.signon, t.next)];
      if headerDone {
        step := Processed(t.next);
      } else if headerProcessing {
        if t.signon {
          headerDone := true;
          headerProcessing := false;
          step := SendSignonAck;
        } else {
          step := AtEnd;
        }
      }
    }

    method MainRound(t: Tick)
      modifies this
      ensures View() == MainStep(old(View()), t)
    {
      hide MainRead;
      hide SendNext;
      hide Reconnect;
      if t.quitTop {
        step := SendEot;
      }
      match step {
        case SendAck =>
          Write(Ack);
          if !t.writeOk {
            ReconnectHost(t);
          } else {
            step := ProcessClient;
          }
        case SendTestMsg => step := SendClient;
        case Reconnected =>
          headerDone := false;
          step := SendClient;
        case ReconnectFailed =>
          headerDone := false;
          ReconnectHost(t);
        case ProcessClient => step := Gathered(t);
        case SendSignonAck => step := SendClient;
        case ReadClient => MainReadStep(t);
        case SendClientData =>
          Write(ClientData);
          step := ProcessClient;
          if !t.sendOk {
            ReconnectHost(t);
          } else {
            Write(Data);
            if !t.writeOk {
              ReconnectHost(t);
            }
          }
        case SendClient => SendClientStep(t);
        case SendEot =>
          if t.open {
            Write(Eot);
          }
          step := AtEnd;
        case AtEnd => step := SendClient;
        case Unknown => done := true;
      }
    }

    method DoWork(ticks: seq<Tick>)
      requires View() == START && QuitStays(ticks)
      modifies this
      ensures View() == RunMain(START, ticks)
      ensures forall c | c in View().Conversations() ::
        StartsWithHeader(c) || (c == [Wrote(Eot)] && c == View().current)
    {
      hide MainStep;
      hide StartsWithHeader;
      var i := 0;
      while i < |ticks| && !done && !ticks[i].quitTest
        invariant 0 <= i <= |ticks|
        invariant RunMain(View(), ticks[i..]) == RunMain(START, ticks)
      {
        assert ticks[i..][1..] == ticks[i + 1..];
        MainRound(ticks[i]);
        i := i + 1;
      }
      MainSignsOnFirst(ticks);
    }
  }
}
