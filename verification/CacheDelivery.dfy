/** What a read comes back with: under any scheduling of the two threads, as long as the server
    answers, the bytes that were asked for. */
module CacheDelivery {
  import opened ByteStrings
  import opened Options
  import opened Cache
  import opened CacheSafety
  import opened CacheProgress

  const INT_LIMIT: nat := 0x8000_0000

  /** The player has the len remote bytes at the position it had in sh0, and has moved on. */
  predicate HandedOver(c: Stream, sh0: Shared, len: nat, s: State) {
    && sh0.pos + len <= |c.remote|
    && s.sh.pos == sh0.pos + len
    && s.sh.client == sh0.client + c.remote[sh0.pos..sh0.pos + len]
  }

  /** The n-th state is the first in which the read has come back, and it brought its bytes. */
  ghost predicate ComesBackWith(c: Stream, states: nat -> State, len: nat, n: nat) {
    && states(n).reader == Idle
    && (forall m: nat | m < n :: states(m).reader != Idle)
    && HandedOver(c, states(0).sh, len, states(n))
  }

  /** Whatever the schedule from s on, the read of len bytes comes back with them. */
  ghost predicate Arrives(c: Stream, s: State, len: nat) {
    forall states: nat -> State :: Schedule(c, states) && states(0) == s ==> exists n: nat :: ComesBackWith(c, states, len, n)
  }

  // ----- the end of the file -----

  /** The reader's test ends a read with nothing exactly when the player has reached the end of the
      file; then nothing is changed. */
  lemma EndIff(c: Stream, s: State, t: State)
    requires Addressable(c)
    requires Reachable(c, s) && s.reader.Checking? && ReaderNext(c, s) == Some(t)
    ensures t.reader == Idle <==> s.sh.pos >= |c.remote|
    ensures t.reader == Idle ==> t == s.(reader := Idle)
  {
    ReachableSteady(c, s);
    hide Serve;
  }

  // ----- how far ahead -----

  /** A reader in its loop at the start of the file knows how much a flac stream is to wait for. */
  predicate PrefetchKnown(c: Stream, s: State) {
    InLoop(s.reader) && s.sh.pos == 0 ==> s.reader.prefetch == Prefetch(c, s.sh)
  }

  /** A whole packet, which is larger for flac and largest at its start; or less, to the end of the
      file. */
  predicate RightSize(c: Stream, starting: nat, buflen: nat, finished: bool) {
    if finished then starting + buflen == |c.remote| && buflen < (if c.flac then 4_000_000 else 1_048_576)
    else if c.flac then buflen == 2_000_000 || buflen == 4_000_000
    else buflen == 1_048_576
  }

  /** The filler, having tested it, keeps within the window ahead of the reader. */
  predicate WindowKept(c: Stream, s: State) {
    && (Filling(s.filler) || s.filler.Looping? ==> s.filler.from < |c.remote|)
    && (s.filler.Planning? || s.filler.Requesting? ==> s.filler.from <= s.sh.starting <= s.filler.from + Window(c))
    && (s.filler.Requesting? ==> RightSize(c, s.sh.starting, s.filler.buflen, s.filler.finished))
  }

  predicate Known(c: Stream, s: State) {
    PrefetchKnown(c, s) && WindowKept(c, s)
  }

  lemma ReaderKeepsKnown(c: Stream, s: State, t: State)
    requires Addressable(c) && Steady(c, s) && Known(c, s) && ReaderNext(c, s) == Some(t)
    ensures Known(c, t)
  {
    hide WillWake;
    hide Check;
    assert s.filler.Planning? || s.filler.Requesting? ==> t.sh.starting == s.sh.starting;
  }

  lemma FillerKeepsKnown(c: Stream, s: State, answered: bool, t: State)
    requires Addressable(c) && Steady(c, s) && Known(c, s) && FillerNext(c, s, answered) == Some(t)
    ensures Known(c, t)
  {
    hide WillWake;
    hide Quiet;
    hide Fetched;
  }

  lemma EventKeepsKnown(c: Stream, s: State, e: Event, t: State)
    requires Addressable(c) && Steady(c, s) && Known(c, s) && Next(c, s, e) == Some(t)
    ensures Known(c, t)
  {
    hide Steady;
    hide ReaderNext;
    hide FillerNext;
    match e
    case Call(_) =>
    case ReaderStep => ReaderKeepsKnown(c, s, t);
    case FillerStep(answered) => FillerKeepsKnown(c, s, answered, t);
  }

  lemma {:induction false} RunKeepsKnown(c: Stream, s: State, events: seq<Event>, t: State)
    requires Addressable(c)
    requires Steady(c, s) && Known(c, s) && Run(c, s, events) == Some(t)
    ensures Known(c, t)
    decreases |events|
  {
    hide Steady;
    hide Known;
    hide Next;
    if events != [] {
      var next := Next(c, s, events[0]).value;
      EventKeepsSteady(c, s, events[0], next);
      EventKeepsKnown(c, s, events[0], next);
      RunKeepsKnown(c, next, events[1..], t);
    }
  }

  lemma ReachableKnown(c: Stream, s: State)
    requires Addressable(c) && Reachable(c, s)
    ensures Known(c, s)
  {
    hide Steady;
    var s0: State, events :| Initial(c, s0) && Run(c, s0, events) == Some(s);
    InitialSteady(c, s0);
    RunKeepsKnown(c, s0, events, s);
  }

  /** The first read of a flac stream is not served before the file holds ten million bytes, or all
      that there are. */
  lemma FlacWaits(c: Stream, s: State, t: State)
    requires Addressable(c) && c.flac && s.sh.pos == 0
    requires Served(c, s, t)
    ensures Size(s.sh.file) >= (if |c.remote| < 10_000_000 then |c.remote| else 10_000_000)
  {
    ReachableKnown(c, s);
    ReachableSteady(c, s);
    hide Serve;
    hide FillerSteady;
    hide WillWake;
    hide Quiet;
  }

  /** The filler asks only for whole packets or the rest, of bytes that begin at most a window ahead of the
      reader, at the end of the cache file if there is one. */
  lemma RequestsAhead(c: Stream, s: State)
    requires Addressable(c) && Reachable(c, s) && s.filler.Requesting?
    ensures s.filler.buflen >= 1 && s.sh.starting + s.filler.buflen <= |c.remote|
    ensures RightSize(c, s.sh.starting, s.filler.buflen, s.filler.finished)
    ensures s.sh.starting <= s.sh.filepos + (if c.flac then 15_000_000 else 5_000_000)
    ensures s.sh.file.Some? ==> s.sh.starting == Size(s.sh.file)
  {
    ReachableKnown(c, s);
    ReachableSteady(c, s);
  }

  // ----- one read, step by step -----

  /** The read of len bytes is under way, and nothing was handed over since sh0. */
  predicate Pending(c: Stream, sh0: Shared, len: nat, s: State) {
    Asks(c, s, len) && s.sh.pos == sh0.pos && s.sh.client == sh0.client
  }

  predicate Along(c: Stream, sh0: Shared, len: nat, s: State) {
    Pending(c, sh0, len, s) || (s.reader.Leaving? && HandedOver(c, sh0, len, s))
  }

  lemma PendingStep(c: Stream, sh0: Shared, len: nat, s: State, e: Event, t: State)
    requires Addressable(c) && Invariant(c, s) && s.sh.pos < INT_LIMIT
    requires Pending(c, sh0, len, s) && Next(c, s, e) == Some(t)
    ensures Along(c, sh0, len, t)
  {
    hide Serve;
    hide WillWake;
    hide Quiet;
    hide FillerSteady;
    hide Plan;
    hide Fetched;
    if s.reader.Checking? && Check(c, s.sh, s.reader.len, s.reader.prefetch) == Ready {
      ServeDelivers(c, s, s.reader.len);
    }
  }

  lemma HandedStep(c: Stream, sh0: Shared, len: nat, s: State, e: Event, t: State)
    requires s.reader.Leaving? && HandedOver(c, sh0, len, s) && Next(c, s, e) == Some(t)
    ensures HandedOver(c, sh0, len, t) && (t.reader.Leaving? || t.reader == Idle)
  {
    hide Plan;
    hide Fetched;
  }

  lemma AlongStep(c: Stream, sh0: Shared, len: nat, s: State, e: Event, t: State)
    requires Addressable(c) && Reachable(c, s)
    requires sh0.pos < INT_LIMIT && (TenNuls(c.remote) ==> sh0.pos <= 10)
    requires Along(c, sh0, len, s) && Next(c, s, e) == Some(t)
    ensures Along(c, sh0, len, t) || (t.reader == Idle && HandedOver(c, sh0, len, t))
  {
    hide Next;
    hide Reachable;
    hide Invariant;
    if Pending(c, sh0, len, s) {
      ReachableInvariant(c, s);
      PendingStep(c, sh0, len, s, e, t);
    } else {
      HandedStep(c, sh0, len, s, e, t);
    }
  }

  lemma EventOf(c: Stream, states: nat -> State, k: nat) returns (e: Event)
    requires Schedule(c, states)
    ensures Next(c, states(k), e) == Some(states(k + 1))
  {
    hide Next;
    assert Answered(c, states(k), states(k + 1));
    e :| Next(c, states(k), e) == Some(states(k + 1));
  }

  /** The read has its bytes when the reader is idle for the first time. */
  lemma {:induction false} AlongToIdle(c: Stream, states: nat -> State, len: nat, k: nat, n: nat) returns (m: nat)
    requires Addressable(c) && Schedule(c, states) && Reachable(c, states(k))
    requires states(0).sh.pos < INT_LIMIT && Trusted(c, states(0))
    requires Along(c, states(0).sh, len, states(k)) && (forall j: nat | j <= k :: states(j).reader != Idle)
    requires k <= n && states(n).reader == Idle
    ensures ComesBackWith(c, states, len, m)
    decreases n - k
  {
    hide Next;
    hide Reachable;
    hide Schedule;
    hide Along;
    var sh0, s, t := states(0).sh, states(k), states(k + 1);
    var e := EventOf(c, states, k);
    ReachNext(c, s, e, t);
    AlongStep(c, sh0, len, s, e, t);
    if t.reader == Idle {
      assert HandedOver(c, sh0, len, t) by { AlongIsBusy(c, sh0, len, t); }
      m := k + 1;
    } else {
      m := AlongToIdle(c, states, len, k + 1, n);
    }
  }

  lemma AlongIsBusy(c: Stream, sh0: Shared, len: nat, s: State)
    ensures Along(c, sh0, len, s) ==> s.reader != Idle
  {
  }

  lemma ReadArrives(c: Stream, s: State, len: nat)
    requires Addressable(c) && Reachable(c, s) && Asks(c, s, len)
    requires len <= Window(c) + 1 && s.sh.pos < INT_LIMIT && Trusted(c, s)
    ensures Arrives(c, s, len)
  {
    hide Reachable;
    ReachableSteady(c, s);
    hide Steady;
    forall states: nat -> State | Schedule(c, states) && states(0) == s
      ensures exists n: nat :: ComesBackWith(c, states, len, n)
    {
      hide Schedule;
      var n := ReturnsFrom(c, states, 0);
      hide ComesBackWith;
      var m := AlongToIdle(c, states, len, 0, n);
    }
  }

  // ----- reads that come back with nothing -----

  lemma TurnGoes(c: Stream, s: State)
    requires Addressable(c) && Reachable(c, s)
    ensures Answered(c, s, Turn(c, s)) && Reachable(c, Turn(c, s))
  {
    hide Reachable;
    hide ReaderNext;
    hide FillerNext;
    var t := Turn(c, s);
    if s.reader != Idle { NoDeadlock(c, s); }
    var e := if ReaderNext(c, s).Some? then ReaderStep else if FillerNext(c, s, true).Some? then FillerStep(true) else Call(1);
    assert Next(c, s, e) == Some(t);
    ReachNext(c, s, e, t);
  }

  lemma {:induction false} TurnsGo(c: Stream, s: State, n: nat)
    requires Addressable(c) && Reachable(c, s)
    ensures Reachable(c, After(c, s, n)) && Answered(c, After(c, s, n), After(c, s, n + 1))
  {
    hide Turn;
    hide Answered;
    hide Reachable;
    if n == 0 {
      AfterNothing(c, s);
    } else {
      TurnsGo(c, s, n - 1);
      TurnGoes(c, After(c, s, n - 1));
    }
    TurnGoes(c, After(c, s, n));
  }

  /** A later read that would be served without effect comes back with nothing. */
  lemma LostRead(c: Stream, s: State, len: nat)
    requires Addressable(c) && Reachable(c, s) && s.reader == Entering(len) && s.sh.pos > 0 && len > 0
    requires Check(c, s.sh.(filepos := s.sh.pos), len, 0) == Ready
    requires Serve(s.sh.(filepos := s.sh.pos), len).client == s.sh.client
    ensures !Arrives(c, s, len)
  {
    hide Reachable;
    hide Answered;
    hide Turn;
    hide Check;
    hide Serve;
    var states := (n: nat) => After(c, s, n);
    AfterNothing(c, s);
    forall n: nat
      ensures Answered(c, states(n), states(n + 1))
    {
      TurnsGo(c, s, n);
    }
    LostTurns(c, s, len);
    hide After;
    forall n: nat
      ensures !ComesBackWith(c, states, len, n)
    {
      if n < 4 {
        assert After(c, s, n).reader != Idle;
      } else if n > 4 {
        assert states(4).reader == Idle;
      }
    }
    assert Schedule(c, states) && states(0) == s;
  }

  lemma LostTurns(c: Stream, s: State, len: nat)
    requires s.reader == Entering(len) && s.sh.pos > 0
    requires Check(c, s.sh.(filepos := s.sh.pos), len, 0) == Ready
    requires Serve(s.sh.(filepos := s.sh.pos), len).client == s.sh.client
    ensures forall n: nat | n < 4 :: After(c, s, n).reader != Idle
    ensures After(c, s, 4).reader == Idle && After(c, s, 4).sh.client == s.sh.client
  {
    hide Serve;
    hide Check;
    var s1, s2, s3, s4 := After(c, s, 1), After(c, s, 2), After(c, s, 3), After(c, s, 4);
    assert After(c, s, 0) == s;
    assert s1 == s.(sh := s.sh.(filepos := s.sh.pos), reader := Signalling(len, 0));
    assert s2 == s1.(sem := s1.sem + 1, reader := Checking(len, 0));
    assert s3 == s2.(sh := Serve(s2.sh, len), reader := Leaving(len));
    assert s4 == s3.(reader := Idle);
  }

  /** The longest remote file all of whose reads of len bytes begin where they are served. */
  function Reach(c: Stream, len: nat): nat {
    len + if TenNuls(c.remote) then 10 else INT_LIMIT - 1
  }

  /** A read of len bytes that comes back with nothing: behind the eleventh byte of a file that
      begins with ten NULs, or at 2^31. */
  lemma ReadComesBackEmpty(c: Stream, len: nat) returns (s: State)
    requires Addressable(c) && 1 <= len < INT_LIMIT && |c.remote| > Reach(c, len)
    ensures Reachable(c, s) && Asks(c, s, len) && !Arrives(c, s, len)
  {
    hide Reachable;
    var idle: State;
    if TenNuls(c.remote) {
      idle := NulsBreakSoundness(c);
    } else {
      idle := ReachLate(c);
    }
    s := idle.(reader := Entering(len));
    ReachNext(c, idle, Call(len), s);
    LostRead(c, s, len);
  }

  /** With the whole file kept, the player gets to 2^31 in two reads. */
  lemma ReachLate(c: Stream) returns (s: State)
    requires Addressable(c) && !TenNuls(c.remote) && |c.remote| > INT_LIMIT
    ensures Reachable(c, s) && s.reader == Idle
    ensures s.sh.pos == INT_LIMIT && s.sh.file == Some(c.remote) && s.sh.starting == |c.remote|
  {
    hide Reachable;
    var s1 := ReachFirstCheck(c, 0x7FFF_FFFF);
    NoNulsInside(c.remote, 0x7FFF_FFFF);
    var _, s2 := ReachServed(c, s1);
    var s3 := ReachLaterCheck(c, s2, 1);
    var _, s4 := ReachServed(c, s3);
    s := s4;
  }

  /** Every read of len bytes that the file has comes back with exactly these bytes, on every run
      and under every schedule with an answering server, if and only if len is at most one byte more
      than the filler keeps ahead, and no read can begin at 2^31 or, in a file that begins with ten
      NULs, behind the eleventh byte. */
  lemma ReadsArriveIff(c: Stream, len: nat)
    requires Addressable(c) && 1 <= len <= |c.remote| && len < INT_LIMIT
    ensures (forall s :: Reachable(c, s) && Asks(c, s, len) ==> Arrives(c, s, len))
            <==> len <= Window(c) + 1 && |c.remote| <= Reach(c, len)
  {
    hide Reachable;
    hide Arrives;
    if len > Window(c) + 1 {
      var s := LongReadStarves(c, len);
      ArrivesReturns(c, s, len);
    } else if |c.remote| > Reach(c, len) {
      var s := ReadComesBackEmpty(c, len);
    } else {
      forall s | Reachable(c, s) && Asks(c, s, len)
        ensures Arrives(c, s, len)
      {
        ReadArrives(c, s, len);
      }
    }
  }

  lemma ArrivesReturns(c: Stream, s: State, len: nat)
    ensures Arrives(c, s, len) ==> Returns(c, s)
  {
    if Arrives(c, s, len) {
      forall states: nat -> State | Schedule(c, states) && states(0) == s
        ensures exists n: nat :: states(n).reader == Idle
      {
        var n: nat :| ComesBackWith(c, states, len, n);
        assert states(n).reader == Idle;
      }
    }
  }
}
