/** What holds of the read-ahead cache under every interleaving of the two threads. */
module CacheSafety {
  import opened ByteStrings
  import opened Options
  import opened Cache

  /** No read has taken the mutex yet: the globals still describe no stream. */
  predicate Unstarted(s: State) {
    (s.reader == Idle || s.reader.Entering?) && s.sem == 0 && s.filler == Sleeping && s.sh.pos == 0
  }

  /** The cache file is the beginning of the remote file and as long as starting says, and the
      player was given the bytes before its position. */
  predicate Sound(c: Stream, s: State) {
    && Bytes(s.sh.file) <= c.remote
    && (Unstarted(s) || s.sh.starting == Size(s.sh.file))
    && s.sh.client <= c.remote
    && |s.sh.client| == s.sh.pos
    && s.sh.pos <= Size(s.sh.file)
  }

  /** In the middle of a read, after its first critical section. */
  predicate Reading(r: Reader) {
    r.Resetting? || r.Draining? || InLoop(r)
  }

  /** In the loop of a read. */
  predicate InLoop(r: Reader) {
    r.Signalling? || r.Checking? || r.Posting? || r.Waiting?
  }

  /** Past the no-data branch of a read. */
  predicate Dry(r: Reader) {
    r.Lacking? || r.Napping? || r.Resuming?
  }

  /** The filler is past the test whether there is anything to do. */
  predicate Filling(f: Filler) {
    f.Starting? || f.Planning? || f.Requesting? || f.Storing? || f.Announcing?
  }

  // ----- for every stream -----

  /** The fill position is the size of the file as long as there is a file, and at the start. */
  predicate Paired(c: Stream, s: State) {
    && Size(s.sh.file) <= |c.remote|
    && s.sh.starting <= |c.remote|
    && ((s.sh.file.Some? || s.sh.pos == 0) ==> Unstarted(s) || s.sh.starting == Size(s.sh.file))
  }

  predicate ReaderSteady(c: Stream, s: State) {
    && s.sh.filepos <= s.sh.pos
    && ((s.reader.Entering? || Reading(s.reader) || Dry(s.reader)) ==> 1 <= s.reader.len < 0x8000_0000)
    && ((Reading(s.reader) || Dry(s.reader)) ==> s.sh.filepos == s.sh.pos)
    && ((s.reader.Resetting? || s.reader.Draining?) ==> s.sh.pos == 0)
    && (s.reader.Draining? ==> s.semdata == 0)
    && (InLoop(s.reader) ==> s.reader.prefetch == 0 || (s.sh.pos == 0 && s.reader.prefetch == Prefetch(c, s.sh)))
    && ((s.reader.Posting? || s.reader.Waiting? || Dry(s.reader)) ==> s.sh.pos < |c.remote|)
    && ((Dry(s.reader) || s.reader.Leaving?) ==> s.sh.pos > 0)
  }

  predicate FillerSteady(c: Stream, s: State) {
    && s.sh.fd != ReadOnly
    && (s.sh.fd == Append ==> s.sh.file.Some?)
    && ((s.filler.Testing? || Filling(s.filler) || s.filler.Looping?) ==> s.filler.from <= s.sh.filepos)
    && (s.filler.Starting? ==> Wanted(c, s, s.filler.from))
    && (s.filler.Planning? ==> s.sh.starting < |c.remote|)
    && (s.filler.Requesting? ==> 1 <= s.filler.buflen <= |c.remote| - s.sh.starting)
    && (s.filler.Storing? && s.filler.packet.Some? ==> 1 <= |s.filler.packet.value| <= |c.remote| - s.sh.starting)
    && (|c.remote| == 0 ==> s.filler.Sleeping? || s.filler.Opening? || s.filler.Testing?)
  }

  /** The filler will post semdata before it sleeps again. */
  predicate Owes(c: Stream, s: State) {
    || (s.filler.Opening? && s.sh.filepos < |c.remote|)
    || (s.filler.Testing? && s.filler.from < |c.remote|)
    || s.filler.Full?
    || Filling(s.filler)
  }

  /** A reader that waits for semdata will be woken. */
  predicate WillWake(c: Stream, s: State) {
    s.reader.Waiting? || s.reader.Napping? ==> s.sem > 0 || s.semdata > 0 || Owes(c, s)
  }

  /** A reader at the start of the file finds the filler asleep, or unable to post. */
  predicate Quiet(c: Stream, s: State) {
    (s.reader.Idle? || s.reader.Entering? || s.reader.Resetting? || s.reader.Draining?) && s.sh.pos == 0
    ==> (s.sem == 0 && s.filler == Sleeping) || |c.remote| == 0
  }

  predicate Steady(c: Stream, s: State) {
    Paired(c, s) && ReaderSteady(c, s) && FillerSteady(c, s) && WillWake(c, s) && Quiet(c, s)
  }

  /** Sizes stay below what an unsigned long counts. */
  predicate Addressable(c: Stream) {
    |c.remote| < 0x8000_0000_0000_0000
  }

  lemma InitialSteady(c: Stream, s: State)
    requires Initial(c, s)
    ensures Steady(c, s)
  {
  }

  lemma ServeKeepsSteady(c: Stream, s: State, t: State)
    requires Addressable(c) && Steady(c, s)
    requires s.reader.Resuming? || (s.reader.Checking? && Check(c, s.sh, s.reader.len, s.reader.prefetch) == Ready)
    requires t == s.(sh := Serve(s.sh, s.reader.len), reader := Leaving(s.reader.len))
    ensures Steady(c, t)
  {
    hide TenNuls;
    hide Prefetch;
  }

  lemma ReaderKeepsSteady(c: Stream, s: State, t: State)
    requires Addressable(c)
    requires Steady(c, s) && ReaderNext(c, s) == Some(t)
    ensures Steady(c, t)
  {
    hide Serve;
    if s.reader.Resuming? || (s.reader.Checking? && Check(c, s.sh, s.reader.len, s.reader.prefetch) == Ready) {
      ServeKeepsSteady(c, s, t);
    }
  }

  lemma StoreKeepsSteady(c: Stream, s: State, t: State)
    requires Addressable(c)
    requires Steady(c, s) && s.filler.Storing? && FillerNext(c, s, true) == Some(t)
    ensures Steady(c, t)
  {
  }

  lemma RequestKeepsSteady(c: Stream, s: State, answered: bool, t: State)
    requires Addressable(c)
    requires Steady(c, s) && (s.filler.Planning? || s.filler.Requesting?)
    requires FillerNext(c, s, answered) == Some(t)
    ensures Steady(c, t)
  {
  }

  lemma FillerKeepsSteady(c: Stream, s: State, answered: bool, t: State)
    requires Addressable(c)
    requires Steady(c, s) && FillerNext(c, s, answered) == Some(t)
    ensures Steady(c, t)
  {
    hide Plan;
    hide Fetched;
    match s.filler
    case Storing(_, _, _) => StoreKeepsSteady(c, s, t);
    case Planning(_) => RequestKeepsSteady(c, s, answered, t);
    case Requesting(_, _, _) => RequestKeepsSteady(c, s, answered, t);
    case _ => hide Store;
  }

  /** Whatever the remote file holds, every step of either thread and every call keeps positions,
      sizes and signals in order. */
  lemma EventKeepsSteady(c: Stream, s: State, e: Event, t: State)
    requires Addressable(c)
    requires Steady(c, s) && Next(c, s, e) == Some(t)
    ensures Steady(c, t)
  {
    hide ReaderNext;
    hide FillerNext;
    match e
    case Call(_) =>
    case ReaderStep => ReaderKeepsSteady(c, s, t);
    case FillerStep(answered) => FillerKeepsSteady(c, s, answered, t);
  }

  lemma {:induction false} RunKeepsSteady(c: Stream, s: State, events: seq<Event>, t: State)
    requires Addressable(c)
    requires Steady(c, s) && Run(c, s, events) == Some(t)
    ensures Steady(c, t)
    decreases |events|
  {
    hide Steady;
    hide Next;
    if events != [] {
      var next := Next(c, s, events[0]).value;
      EventKeepsSteady(c, s, events[0], next);
      RunKeepsSteady(c, next, events[1..], t);
    }
  }

  lemma ReachableSteady(c: Stream, s: State)
    requires Addressable(c) && Reachable(c, s)
    ensures Steady(c, s)
  {
    hide Steady;
    var s0: State, events :| Initial(c, s0) && Run(c, s0, events) == Some(s);
    InitialSteady(c, s0);
    RunKeepsSteady(c, s0, events, s);
  }

  // ----- waking up -----

  /** A round for an unfinished file posts semdata before the filler sleeps again: once the round
      owes a post, each step either makes it or leaves it owed. */
  lemma RoundPosts(c: Stream, s: State, e: Event, t: State)
    requires Addressable(c)
    requires Reachable(c, s) && Next(c, s, e) == Some(t)
    ensures s.filler.Sleeping? && t.filler.Opening? && s.sh.filepos < |c.remote| ==> Owes(c, t)
    ensures e.FillerStep? && Owes(c, s) ==> Owes(c, t) || t.semdata == s.semdata + 1
    ensures !e.FillerStep? && Owes(c, s) ==> Owes(c, t) || t.sh.filepos >= |c.remote|
    ensures t.filler.Sleeping? ==> !Owes(c, t)
  {
    ReachableSteady(c, s);
    hide Reachable;
    hide Serve;
    hide Store;
    hide Plan;
    hide Fetched;
    assert FillerSteady(c, s);
  }

  /** Whenever the reader waits for data, a signal is on its way. */
  lemma NoLostWakeup(c: Stream, s: State)
    requires Addressable(c)
    requires Reachable(c, s) && (s.reader.Waiting? || s.reader.Napping?)
    ensures s.sem > 0 || s.semdata > 0 || Owes(c, s)
  {
    ReachableSteady(c, s);
  }

  /** While a read is in progress one of the two threads can go on. */
  lemma NoDeadlock(c: Stream, s: State)
    requires Addressable(c)
    requires Reachable(c, s) && s.reader != Idle
    ensures ReaderNext(c, s).Some? || forall answered :: FillerNext(c, s, answered).Some?
  {
    ReachableSteady(c, s);
  }

  // ----- the file under every interleaving -----

  /** The stream keeps its file: it does not begin with ten NULs and more, or too little was read
      to tell. */
  predicate Trusted(c: Stream, s: State) {
    TenNuls(c.remote) ==> s.sh.pos <= 10
  }

  /** The packet under way continues the file. */
  predicate PacketRight(c: Stream, s: State) {
    s.filler.Storing? && s.filler.packet.Some? ==>
      var from := s.sh.starting;
      var packet := s.filler.packet.value;
      from + |packet| <= |c.remote| && packet == c.remote[from..from + |packet|]
  }

  /** The reader never gets to its no-data branch. */
  predicate Invariant(c: Stream, s: State) {
    Steady(c, s) && Sound(c, s) && PacketRight(c, s) && !Dry(s.reader)
  }

  lemma InitialInvariant(c: Stream, s: State)
    requires Initial(c, s)
    ensures Invariant(c, s)
  {
  }

  /** A read that is served gets the remote bytes at the reader's position. It moves on exactly
      when that position fits a C int; past it the read reports success and delivers nothing. */
  lemma ServeDelivers(c: Stream, s: State, len: nat)
    requires Addressable(c) && Invariant(c, s) && s.reader.Checking? && s.reader.len == len
    requires Check(c, s.sh, len, s.reader.prefetch) == Ready
    ensures s.sh.pos + len <= Size(s.sh.file) && s.sh.starting == Size(s.sh.file)
    ensures s.sh.pos < 0x8000_0000 ==>
              Serve(s.sh, len).client == s.sh.client + c.remote[s.sh.pos..s.sh.pos + len]
    ensures Serve(s.sh, len).pos == s.sh.pos + len <==> s.sh.pos < 0x8000_0000
    ensures s.sh.pos >= 0x8000_0000 ==> Serve(s.sh, len) == s.sh.(fd := Closed)
  {
    hide Owes;
    hide WillWake;
    hide Quiet;
    hide FillerSteady;
    hide PacketRight;
    var bytes := Bytes(s.sh.file);
    assert bytes == c.remote[..|bytes|];
    assert s.sh.pos + len <= |bytes|;
    assert bytes[s.sh.pos..s.sh.pos + len] == c.remote[s.sh.pos..s.sh.pos + len];
  }

  lemma ServeKeepsSound(c: Stream, s: State, t: State)
    requires Addressable(c) && Trusted(c, t)
    requires Invariant(c, s) && s.reader.Checking?
    requires Check(c, s.sh, s.reader.len, s.reader.prefetch) == Ready
    requires t == s.(sh := Serve(s.sh, s.reader.len), reader := Leaving(s.reader.len))
    ensures Sound(c, t) && PacketRight(c, t)
  {
    ServeDelivers(c, s, s.reader.len);
    hide Steady;
    hide Check;
    hide ToInt;
    assert s.sh.client == c.remote[..s.sh.pos];
    assert s.sh.pos < 0x8000_0000 ==> t.sh.client == c.remote[..t.sh.pos];
  }

  lemma ReaderKeepsSound(c: Stream, s: State, t: State)
    requires Addressable(c) && Trusted(c, t)
    requires Invariant(c, s) && ReaderNext(c, s) == Some(t)
    ensures Sound(c, t) && PacketRight(c, t) && !Dry(t.reader)
  {
    hide Serve;
    hide WillWake;
    hide Quiet;
    hide FillerSteady;
    if s.reader.Checking? && Check(c, s.sh, s.reader.len, s.reader.prefetch) == Ready {
      ServeKeepsSound(c, s, t);
    }
  }

  lemma FillerKeepsSound(c: Stream, s: State, answered: bool, t: State)
    requires Addressable(c)
    requires Invariant(c, s) && FillerNext(c, s, answered) == Some(t)
    ensures Sound(c, t) && PacketRight(c, t) && !Dry(t.reader)
  {
    hide WillWake;
    hide Quiet;
    hide Plan;
    hide ReaderSteady;
  }

  /** As long as the stream keeps its file, every step keeps the file a prefix of the remote file
      and the player's bytes right. */
  lemma EventKeepsInvariant(c: Stream, s: State, e: Event, t: State)
    requires Addressable(c) && Trusted(c, t)
    requires Invariant(c, s) && Next(c, s, e) == Some(t)
    ensures Invariant(c, t)
  {
    EventKeepsSteady(c, s, e, t);
    hide Steady;
    hide ReaderNext;
    hide FillerNext;
    match e
    case Call(_) =>
    case ReaderStep => ReaderKeepsSound(c, s, t);
    case FillerStep(answered) => FillerKeepsSound(c, s, answered, t);
  }

  lemma StepForward(c: Stream, s: State, e: Event, t: State)
    requires Next(c, s, e) == Some(t)
    ensures s.sh.pos <= t.sh.pos
  {
    hide Check;
    hide Plan;
    hide Fetched;
  }

  lemma {:induction false} RunForward(c: Stream, s: State, events: seq<Event>, t: State)
    requires Run(c, s, events) == Some(t)
    ensures s.sh.pos <= t.sh.pos
    decreases |events|
  {
    hide Next;
    if events != [] {
      var next := Next(c, s, events[0]).value;
      StepForward(c, s, events[0], next);
      RunForward(c, next, events[1..], t);
    }
  }

  lemma {:induction false} RunKeepsInvariant(c: Stream, s: State, events: seq<Event>, t: State)
    requires Addressable(c) && Trusted(c, t)
    requires Invariant(c, s) && Run(c, s, events) == Some(t)
    ensures Invariant(c, t)
    decreases |events|
  {
    hide Invariant;
    hide Next;
    if events != [] {
      var next := Next(c, s, events[0]).value;
      RunForward(c, next, events[1..], t);
      EventKeepsInvariant(c, s, events[0], next);
      RunKeepsInvariant(c, next, events[1..], t);
    }
  }

  lemma ReachableInvariant(c: Stream, s: State)
    requires Addressable(c) && Trusted(c, s)
    requires Reachable(c, s)
    ensures Invariant(c, s)
  {
    hide Invariant;
    var s0: State, events :| Initial(c, s0) && Run(c, s0, events) == Some(s);
    InitialInvariant(c, s0);
    RunKeepsInvariant(c, s0, events, s);
  }

  // ----- runs, step by step -----

  lemma {:induction false} RunSnoc(c: Stream, s: State, events: seq<Event>, e: Event, t: State, u: State)
    requires Run(c, s, events) == Some(t) && Next(c, t, e) == Some(u)
    ensures Run(c, s, events + [e]) == Some(u)
    decreases |events|
  {
    hide Next;
    if events == [] {
      assert ([] + [e])[1..] == [];
    } else {
      assert (events + [e])[1..] == events[1..] + [e];
      RunSnoc(c, Next(c, s, events[0]).value, events[1..], e, t, u);
    }
  }

  lemma ReachInitial(c: Stream, s: State)
    requires Initial(c, s)
    ensures Reachable(c, s)
  {
    assert Run(c, s, []) == Some(s);
  }

  lemma ReachNext(c: Stream, s: State, e: Event, t: State)
    requires Reachable(c, s) && Next(c, s, e) == Some(t)
    ensures Reachable(c, t)
  {
    hide Run;
    hide Next;
    hide Initial;
    var s0: State, events :| Initial(c, s0) && Run(c, s0, events) == Some(s);
    RunSnoc(c, s0, events, e, s, t);
  }

  /** With the whole file kept, the first read gets to its check without the filler. */
  lemma ReachFirstCheck(c: Stream, len: nat) returns (s: State)
    requires 1 <= len < 0x8000_0000
    ensures Reachable(c, s)
    ensures s.sh == Shared(Some(c.remote), |c.remote|, 0, Closed, 0, [])
    ensures s.reader == Checking(len, Prefetch(c, s.sh)) && s.sem == 1 && s.semdata == 0 && s.filler == Sleeping
  {
    hide Reachable;
    var s0 := State(Shared(Some(c.remote), 0, 0, Closed, 0, []), 0, 0, Idle, Sleeping);
    var s1 := s0.(reader := Entering(len));
    var s2 := s1.(sh := Enter(s0.sh), reader := Resetting(len));
    var s3 := s2.(reader := Draining(len));
    var s4 := s3.(reader := Signalling(len, Prefetch(c, s3.sh)));
    s := s4.(sem := 1, reader := Checking(len, Prefetch(c, s3.sh)));
    ReachInitial(c, s0);
    ReachNext(c, s0, Call(len), s1);
    ReachNext(c, s1, ReaderStep, s2);
    ReachNext(c, s2, ReaderStep, s3);
    ReachNext(c, s3, ReaderStep, s4);
    ReachNext(c, s4, ReaderStep, s);
  }

  /** A later read gets to its check without the filler. */
  lemma ReachLaterCheck(c: Stream, s: State, len: nat) returns (t: State)
    requires Reachable(c, s) && s.reader == Idle && s.sh.pos > 0 && 1 <= len < 0x8000_0000
    ensures Reachable(c, t)
    ensures t == s.(sh := s.sh.(filepos := s.sh.pos), sem := s.sem + 1, reader := Checking(len, 0))
  {
    hide Reachable;
    var s1 := s.(reader := Entering(len));
    var s2 := s1.(sh := s.sh.(filepos := s.sh.pos), reader := Signalling(len, 0));
    t := s2.(sem := s.sem + 1, reader := Checking(len, 0));
    ReachNext(c, s, Call(len), s1);
    ReachNext(c, s1, ReaderStep, s2);
    ReachNext(c, s2, ReaderStep, t);
  }

  /** The read at its check is served and left. */
  lemma ReachServed(c: Stream, s: State) returns (t: State, u: State)
    requires Reachable(c, s) && s.reader.Checking? && Check(c, s.sh, s.reader.len, s.reader.prefetch) == Ready
    ensures Reachable(c, t) && t == s.(sh := Serve(s.sh, s.reader.len), reader := Leaving(s.reader.len))
    ensures ReaderNext(c, s) == Some(t)
    ensures Reachable(c, u) && u == t.(reader := Idle)
  {
    hide Reachable;
    hide Serve;
    t := s.(sh := Serve(s.sh, s.reader.len), reader := Leaving(s.reader.len));
    u := t.(reader := Idle);
    ReachNext(c, s, ReaderStep, t);
    ReachNext(c, t, ReaderStep, u);
  }

  /** A kept cache file that begins with ten NULs is thrown away by the first read, and starting
      goes on counting its bytes. */
  lemma NulsBreakSoundness(c: Stream) returns (s: State)
    requires Addressable(c) && TenNuls(c.remote)
    ensures Reachable(c, s) && !Sound(c, s)
    ensures s == State(Shared(None, |c.remote|, 0, Closed, 11, c.remote[..11]), 1, 0, Idle, Sleeping)
  {
    hide Reachable;
    var s1 := ReachFirstCheck(c, 11);
    assert c.remote[0..11] == c.remote[..11] && [] + c.remote[..11] == c.remote[..11];
    var s2, s3 := ReachServed(c, s1);
    s := s3;
  }

  /** The cache can be trusted on every run exactly when the remote file does not begin with ten
      NULs and more. */
  lemma SoundIff(c: Stream)
    requires Addressable(c)
    ensures (forall s :: Reachable(c, s) ==> Sound(c, s)) <==> !TenNuls(c.remote)
  {
    hide Reachable;
    hide Invariant;
    if TenNuls(c.remote) {
      var s := NulsBreakSoundness(c);
    } else {
      forall s | Reachable(c, s)
        ensures Sound(c, s)
      {
        ReachableInvariant(c, s);
        assert Sound(c, s) by { InvariantIsSound(c, s); }
      }
    }
  }

  lemma InvariantIsSound(c: Stream, s: State)
    requires Invariant(c, s)
    ensures Sound(c, s)
  {
  }

  // ----- what a read delivers -----

  /** A read that opens the file on some run, before and after. */
  ghost predicate Served(c: Stream, s: State, t: State) {
    Reachable(c, s) && (s.reader.Checking? || s.reader.Resuming?) && ReaderNext(c, s) == Some(t) && t.reader.Leaving?
  }

  /** The player got exactly the remote bytes it asked for, and its position moved on. */
  predicate Delivered(c: Stream, s: State, t: State)
    requires s.reader.Checking? || s.reader.Resuming?
  {
    && s.sh.pos + s.reader.len <= |c.remote|
    && t.sh.pos == s.sh.pos + s.reader.len
    && t.sh.client == s.sh.client + c.remote[s.sh.pos..s.sh.pos + s.reader.len]
  }

  /** As long as the stream keeps its file, a read that is served delivers if and only if it starts
      below 2^31; past that it delivers nothing and does not move. */
  lemma ReadDeliversIff(c: Stream, s: State, t: State)
    requires Addressable(c) && Trusted(c, s) && Served(c, s, t)
    ensures Delivered(c, s, t) <==> s.sh.pos < 0x8000_0000
    ensures s.sh.pos >= 0x8000_0000 ==> t.sh.pos == s.sh.pos && t.sh.client == s.sh.client
  {
    ReachableInvariant(c, s);
    InvariantIsSound(c, s);
    ServeDelivers(c, s, s.reader.len);
  }

  /** A read at 2^31 that reports success and delivers nothing. */
  lemma LateReadLost(c: Stream) returns (s: State, t: State)
    requires Addressable(c) && !TenNuls(c.remote) && |c.remote| > 0x8000_0000
    ensures Served(c, s, t) && s.sh.pos == 0x8000_0000 && !Delivered(c, s, t)
  {
    hide Reachable;
    var s1 := ReachFirstCheck(c, 0x7FFF_FFFF);
    NoNulsInside(c.remote, 0x7FFF_FFFF);
    var _, s2 := ReachServed(c, s1);
    var s3 := ReachLaterCheck(c, s2, 1);
    var _, s4 := ReachServed(c, s3);
    s := ReachLaterCheck(c, s4, 1);
    var u;
    t, u := ReachServed(c, s);
    ReadDeliversIff(c, s, t);
  }

  lemma NoNulsInside(remote: Text, len: nat)
    requires !TenNuls(remote) && 10 < len <= |remote|
    ensures !TenNuls(remote[0..len])
  {
    var i :| 0 <= i < 10 && remote[i] != 0;
    assert remote[0..len][i] == remote[i];
  }

  /** Of a file that begins with ten NULs, the second read finds nothing. */
  lemma NulsLoseRead(c: Stream) returns (s: State, t: State)
    requires Addressable(c) && TenNuls(c.remote) && |c.remote| > 11
    ensures Served(c, s, t) && s.sh.pos == 11 && !Delivered(c, s, t)
  {
    hide Reachable;
    var s1 := NulsBreakSoundness(c);
    s := ReachLaterCheck(c, s1, 1);
    var u;
    t, u := ReachServed(c, s);
  }

  /** Every read that starts below 2^31 delivers, on every run, exactly when the remote file does
      not begin with ten NULs or ends right behind the eleventh byte. */
  lemma ReadsDeliverIff(c: Stream)
    requires Addressable(c)
    ensures (forall s, t | Served(c, s, t) :: s.sh.pos < 0x8000_0000 ==> Delivered(c, s, t))
            <==> !TenNuls(c.remote) || |c.remote| == 11
  {
    hide Reachable;
    if TenNuls(c.remote) && |c.remote| > 11 {
      var s, t := NulsLoseRead(c);
    } else {
      forall s, t | Served(c, s, t) && s.sh.pos < 0x8000_0000
        ensures Delivered(c, s, t)
      {
        ReachableSteady(c, s);
        ReadDeliversIff(c, s, t);
      }
    }
  }
}
