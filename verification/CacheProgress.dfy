/** Reads come back: under any scheduling of the two threads, as long as the server answers, a
    read that stays inside the file ends, unless it asks for more than the filler keeps ahead. */
module CacheProgress {
  import opened ByteStrings
  import opened Options
  import opened Cache
  import opened CacheSafety

  /** One step of either thread or a new call, with the server answering. */
  ghost predicate Answered(c: Stream, s: State, t: State) {
    exists e: Event :: Next(c, s, e) == Some(t) && (s.filler.Requesting? ==> e != FillerStep(false))
  }

  /** An endless run in which the server answers. */
  ghost predicate Schedule(c: Stream, states: nat -> State) {
    forall n: nat :: Answered(c, states(n), states(n + 1))
  }

  /** Whatever the schedule from s on, the reader comes back. */
  ghost predicate Returns(c: Stream, s: State) {
    forall states: nat -> State :: Schedule(c, states) && states(0) == s ==> exists n: nat :: states(n).reader == Idle
  }

  /** A read in progress which asks for len bytes that the file has. */
  predicate Asks(c: Stream, s: State, len: nat) {
    (s.reader.Entering? || Reading(s.reader)) && s.reader.len == len && s.sh.pos + len <= |c.remote|
  }

  // ----- a rank that every step lowers -----

  /** How far the file must grow before the read can be served. */
  function Target(s: State): nat
    requires InLoop(s.reader)
  {
    if s.reader.prefetch > s.sh.pos + s.reader.len then s.reader.prefetch else s.sh.pos + s.reader.len
  }

  function Need(s: State): nat {
    if !InLoop(s.reader) || Target(s) <= s.sh.starting then 0 else Target(s) - s.sh.starting
  }

  function Phase(r: Reader): nat {
    match r
    case Entering(_) => 8
    case Resetting(_) => 7
    case Draining(_) => 6
    case Signalling(_, _) => 5
    case Checking(_, _) => LOOP
    case Posting(_, _) => LOOP
    case Waiting(_, _) => LOOP
    case Lacking(_) => 3
    case Napping(_) => 2
    case Resuming(_) => 1
    case _ => 0
  }

  const LOOP: nat := 4

  /** Steps of the reader within its loop, first while it goes round, then on its last way. */
  function Round(r: Reader): nat {
    match r
    case Checking(_, _) => 3
    case Posting(_, _) => 2
    case _ => 1
  }

  function LastRound(r: Reader): nat {
    match r
    case Posting(_, _) => 3
    case Waiting(_, _) => 2
    case _ => 1
  }

  /** Steps of the filler until there is a cache file. */
  function UntilMade(f: Filler): nat {
    match f
    case Storing(_, packet, _) => if packet == None then 10 else 1
    case Announcing(_, _, _) => 9
    case Looping(_, _, _) => 8
    case Testing(_) => 7
    case Starting(_) => 6
    case Planning(_) => 5
    case Requesting(_, _, _) => 4
    case Full => 3
    case Closing => 3
    case Sleeping => 2
    case Opening => 1
  }

  /** Steps of the filler until it stores a packet, when the reader is short of data. */
  function UntilStored(f: Filler, filepos: nat): nat {
    match f
    case Testing(from) => if from == filepos then 7 else 17
    case Full => 16
    case Storing(_, packet, _) => if packet == None then 14 else 3
    case Announcing(_, _, _) => 12
    case Looping(_, _, _) => 11
    case Closing => 10
    case Sleeping => 9
    case Opening => 8
    case Starting(_) => 6
    case Planning(_) => 5
    case Requesting(_, _, _) => 4
  }

  /** Steps of the filler until it stores a packet or sleeps. */
  function UntilAsleep(f: Filler): nat {
    match f
    case Storing(_, packet, _) => if packet == None then 14 else 3
    case Announcing(_, _, _) => 12
    case Looping(_, _, _) => 11
    case Opening => 8
    case Testing(_) => 7
    case Starting(_) => 6
    case Planning(_) => 5
    case Requesting(_, _, _) => 4
    case Full => 1
    case Closing => 1
    case Sleeping => 0
  }

  function Unfetched(c: Stream, starting: nat): nat {
    if starting <= |c.remote| then |c.remote| - starting else 0
  }

  datatype Rank = Rank(phase: nat, stage: nat, need: nat, a: nat, b: nat, d: nat, e: nat)

  /** Which way the read takes: there is no file, or one that the reader is already past, or one
      that is long enough or still grows. */
  function Stage(s: State): nat {
    if s.sh.file == None then 2 else if s.sh.starting < s.sh.filepos then 1 else 0
  }

  function RankOf(c: Stream, s: State): Rank {
    var phase, stage := Phase(s.reader), Stage(s);
    if stage == 2 then Rank(phase, stage, 0, UntilMade(s.filler), s.semdata, Round(s.reader), 0)
    else if phase == LOOP && stage == 0 && Need(s) > 0 then
      Rank(phase, stage, Need(s), UntilStored(s.filler, s.sh.filepos), s.semdata, Round(s.reader), 0)
    else
      Rank(phase, stage, 0, if phase == LOOP then LastRound(s.reader) else 0, s.sem, Unfetched(c, s.sh.starting),
           UntilAsleep(s.filler))
  }

  predicate Below(r: Rank, q: Rank) {
    || r.phase < q.phase
    || (r.phase == q.phase && (r.stage < q.stage || (r.stage == q.stage && BelowWithin(r, q))))
  }

  predicate BelowWithin(r: Rank, q: Rank) {
    || r.need < q.need
    || (r.need == q.need
        && (|| r.a < q.a
            || (r.a == q.a
                && (|| r.b < q.b
                    || (r.b == q.b && (r.d < q.d || (r.d == q.d && r.e < q.e)))))))
  }

  /** The read asks for no more than the filler keeps ahead of the reader, and one byte. */
  predicate Modest(c: Stream, s: State) {
    (s.reader.Entering? || Reading(s.reader)) ==>
      s.reader.len <= Window(c) + 1 && s.sh.pos + s.reader.len <= |c.remote|
  }

  lemma CheckLowersRank(c: Stream, s: State, t: State)
    requires Addressable(c) && Steady(c, s) && Modest(c, s)
    requires s.reader.Checking? && ReaderNext(c, s) == Some(t)
    ensures Modest(c, t)
    ensures t.reader == Idle || Below(RankOf(c, t), RankOf(c, s))
  {
    hide Serve;
    hide FillerSteady;
    hide WillWake;
    hide Quiet;
    hide UntilMade;
    hide UntilStored;
    hide UntilAsleep;
    hide Unfetched;
  }

  lemma WaitLowersRank(c: Stream, s: State, t: State)
    requires Modest(c, s)
    requires (s.reader.Posting? || s.reader.Waiting?) && ReaderNext(c, s) == Some(t)
    ensures Modest(c, t)
    ensures t.reader == Idle || Below(RankOf(c, t), RankOf(c, s))
  {
    hide UntilMade;
    hide UntilStored;
    hide UntilAsleep;
    hide Unfetched;
  }

  lemma LoopLowersRank(c: Stream, s: State, t: State)
    requires Addressable(c) && Steady(c, s) && Modest(c, s)
    requires Phase(s.reader) == LOOP && ReaderNext(c, s) == Some(t)
    ensures Modest(c, t)
    ensures t.reader == Idle || Below(RankOf(c, t), RankOf(c, s))
  {
    hide Steady;
    hide Modest;
    hide RankOf;
    hide ReaderNext;
    if s.reader.Checking? { CheckLowersRank(c, s, t); } else { WaitLowersRank(c, s, t); }
  }

  lemma ReaderLowersRank(c: Stream, s: State, t: State)
    requires Addressable(c) && Steady(c, s) && Modest(c, s)
    requires s.reader != Idle && ReaderNext(c, s) == Some(t)
    ensures Modest(c, t)
    ensures t.reader == Idle || Below(RankOf(c, t), RankOf(c, s))
  {
    if Phase(s.reader) == LOOP {
      LoopLowersRank(c, s, t);
    } else {
      PhaseFalls(c, s, t);
      RankPhase(c, s);
      RankPhase(c, t);
    }
  }

  lemma PhaseFalls(c: Stream, s: State, t: State)
    requires s.reader != Idle && Phase(s.reader) != LOOP && ReaderNext(c, s) == Some(t) && Modest(c, s)
    ensures Modest(c, t)
    ensures t.reader == Idle || Phase(t.reader) < Phase(s.reader)
  {
    hide Serve;
  }

  lemma RankPhase(c: Stream, s: State)
    ensures RankOf(c, s).phase == Phase(s.reader)
  {
  }

  lemma StoreLowersRank(c: Stream, s: State, t: State)
    requires Addressable(c) && Steady(c, s) && Modest(c, s)
    requires s.reader != Idle && s.filler.Storing? && FillerNext(c, s, true) == Some(t)
    ensures Modest(c, t)
    ensures Below(RankOf(c, t), RankOf(c, s))
  {
    hide ReaderSteady;
    hide WillWake;
    hide Quiet;
  }

  /** Without a file, the filler gets ever closer to making one. */
  lemma MakingLowersRank(c: Stream, s: State, t: State)
    requires s.sh.file == None && !s.filler.Storing? && FillerNext(c, s, true) == Some(t)
    ensures Below(RankOf(c, t), RankOf(c, s))
  {
    hide Plan;
    hide Fetched;
    hide Store;
    hide UntilStored;
    hide UntilAsleep;
    hide Need;
  }

  /** With a file, and data wanting, the filler gets closer to the next packet. */
  lemma GrowingLowersRank(c: Stream, s: State, t: State)
    requires Addressable(c) && Steady(c, s) && Modest(c, s)
    requires s.sh.file != None && Stage(s) == 0 && Phase(s.reader) == LOOP && Need(s) > 0
    requires !s.filler.Storing? && FillerNext(c, s, true) == Some(t)
    ensures Below(RankOf(c, t), RankOf(c, s))
  {
    hide WillWake;
    hide Quiet;
    hide Plan;
    hide Fetched;
    hide Store;
    hide UntilMade;
    hide UntilAsleep;
    hide Unfetched;
    hide LastRound;
  }

  /** With a file, and data enough or the reader ahead of it, the filler gets closer to sleep. */
  lemma IdlingLowersRank(c: Stream, s: State, t: State)
    requires Addressable(c) && Steady(c, s)
    requires s.sh.file != None && (Stage(s) == 1 || Phase(s.reader) != LOOP || Need(s) == 0)
    requires !s.filler.Storing? && FillerNext(c, s, true) == Some(t)
    ensures Below(RankOf(c, t), RankOf(c, s))
  {
    hide WillWake;
    hide Quiet;
    hide Plan;
    hide Fetched;
    hide Store;
    hide UntilMade;
    hide UntilStored;
    hide Unfetched;
    hide LastRound;
    hide Round;
  }

  lemma FillerLowersRank(c: Stream, s: State, t: State)
    requires Addressable(c) && Steady(c, s) && Modest(c, s)
    requires s.reader != Idle && FillerNext(c, s, true) == Some(t)
    ensures Modest(c, t)
    ensures Below(RankOf(c, t), RankOf(c, s))
  {
    FillerKeepsModest(c, s, t);
    hide Store;
    hide RankOf;
    hide Steady;
    hide FillerNext;
    if s.filler.Storing? {
      StoreLowersRank(c, s, t);
    } else if s.sh.file == None {
      MakingLowersRank(c, s, t);
    } else if Stage(s) == 0 && Phase(s.reader) == LOOP && Need(s) > 0 {
      GrowingLowersRank(c, s, t);
    } else {
      IdlingLowersRank(c, s, t);
    }
  }

  lemma FillerKeepsModest(c: Stream, s: State, t: State)
    requires Modest(c, s) && FillerNext(c, s, true) == Some(t)
    ensures Modest(c, t)
  {
    hide Plan;
    hide Fetched;
  }

  lemma {:induction false} ReturnsFrom(c: Stream, states: nat -> State, k: nat) returns (n: nat)
    requires Addressable(c)
    requires Schedule(c, states) && Steady(c, states(k)) && Modest(c, states(k))
    ensures states(n).reader == Idle
    decreases RankOf(c, states(k)).phase, RankOf(c, states(k)).stage, RankOf(c, states(k)).need,
              RankOf(c, states(k)).a, RankOf(c, states(k)).b, RankOf(c, states(k)).d, RankOf(c, states(k)).e
  {
    hide Steady;
    hide Next;
    hide Modest;
    hide RankOf;
    if states(k).reader == Idle {
      n := k;
    } else {
      var s, t := states(k), states(k + 1);
      assert Answered(c, s, t);
      var e :| Next(c, s, e) == Some(t) && (s.filler.Requesting? ==> e != FillerStep(false));
      EventKeepsSteady(c, s, e, t);
      StepLowersRank(c, s, e, t);
      if t.reader == Idle {
        n := k + 1;
      } else {
        n := ReturnsFrom(c, states, k + 1);
      }
    }
  }

  lemma StepLowersRank(c: Stream, s: State, e: Event, t: State)
    requires Addressable(c) && Steady(c, s) && Modest(c, s) && s.reader != Idle
    requires Next(c, s, e) == Some(t) && (s.filler.Requesting? ==> e != FillerStep(false))
    ensures Modest(c, t)
    ensures t.reader == Idle || Below(RankOf(c, t), RankOf(c, s))
  {
    hide Steady;
    hide Modest;
    hide RankOf;
    hide ReaderNext;
    hide FillerNext;
    match e
    case Call(_) =>
    case ReaderStep => ReaderLowersRank(c, s, t);
    case FillerStep(answered) =>
      AnswerOnlyMatters(c, s, answered);
      FillerLowersRank(c, s, t);
  }

  lemma AnswerOnlyMatters(c: Stream, s: State, answered: bool)
    requires s.filler.Requesting? ==> answered
    ensures FillerNext(c, s, answered) == FillerNext(c, s, true)
  {
  }

  // ----- a read the filler starves -----

  /** The window is full, one byte beyond what the filler keeps ahead, and still too short for
      the read. */
  predicate Starved(c: Stream, s: State, len: nat) {
    && s.sh.starting == Size(s.sh.file) == Window(c) + 1
    && s.sh.pos == 0
    && s.sh.filepos == 0
    && (s.reader == Entering(len) || (Reading(s.reader) && s.reader.len == len))
    && (InLoop(s.reader) ==> s.reader.prefetch <= PREFETCH && (s.reader.prefetch > 0 ==> c.flac))
    && (s.filler.Sleeping? || s.filler.Opening? || s.filler == Testing(0) || s.filler.Full?)
    && (s.reader.Waiting? ==> s.sem > 0 || s.semdata > 0 || !s.filler.Sleeping?)
    && ((s.reader.Entering? || s.reader.Resetting? || s.reader.Draining?) ==> s.filler.Sleeping? && s.sem == 0)
    && (s.reader.Draining? ==> s.semdata == 0)
  }

  /** One more step: the reader's, or the filler's when the reader waits; or else another call. */
  function Turn(c: Stream, s: State): State {
    var r := ReaderNext(c, s);
    var f := FillerNext(c, s, true);
    if r.Some? then r.value else if f.Some? then f.value else if s.reader == Idle then s.(reader := Entering(1)) else s
  }

  lemma StarvedStays(c: Stream, s: State, len: nat)
    requires Addressable(c) && Window(c) + 2 <= len <= |c.remote|
    requires Starved(c, s, len)
    ensures Starved(c, Turn(c, s), len) && Answered(c, s, Turn(c, s))
  {
    var r := ReaderNext(c, s);
    if r.Some? {
      assert Next(c, s, ReaderStep) == Some(Turn(c, s));
    } else {
      assert Next(c, s, FillerStep(true)) == Some(Turn(c, s));
    }
  }

  function After(c: Stream, s: State, n: nat): State {
    if n == 0 then s else Turn(c, After(c, s, n - 1))
  }

  lemma {:induction false} StarvedForever(c: Stream, s: State, len: nat, n: nat)
    requires Addressable(c) && Window(c) + 2 <= len <= |c.remote|
    requires Starved(c, s, len)
    ensures Starved(c, After(c, s, n), len) && Answered(c, After(c, s, n), After(c, s, n + 1))
  {
    hide Starved;
    hide Turn;
    hide Answered;
    if n > 0 {
      StarvedForever(c, s, len, n - 1);
      StarvedStays(c, After(c, s, n - 1), len);
    }
    StarvedStays(c, After(c, s, n), len);
  }

  /** A kept cache file one byte longer than the window: the read that wants one byte more never
      comes back. */
  lemma LongReadStarves(c: Stream, len: nat) returns (s: State)
    requires Addressable(c) && Window(c) + 2 <= len <= |c.remote| && len < 0x8000_0000
    ensures Reachable(c, s) && Asks(c, s, len) && !Returns(c, s)
  {
    hide Run;
    var sh := Shared(Some(c.remote[..Window(c) + 1]), 0, 0, Closed, 0, []);
    var s0 := State(sh, 0, 0, Idle, Sleeping);
    s := s0.(reader := Entering(len));
    ReachInitial(c, s0);
    ReachNext(c, s0, Call(len), s);
    var t := s.(sh := Enter(sh), reader := Resetting(len));
    assert Starved(c, t, len);
    assert Answered(c, s, t) by { assert Next(c, s, ReaderStep) == Some(t); }
    StarvedNeverReturns(c, s, t, len);
  }

  lemma StarvedNeverReturns(c: Stream, s: State, t: State, len: nat)
    requires Addressable(c) && Window(c) + 2 <= len <= |c.remote|
    requires Answered(c, s, t) && s.reader != Idle && Starved(c, t, len)
    ensures !Returns(c, s)
  {
    hide Answered;
    hide After;
    var states := (n: nat) => if n == 0 then s else After(c, t, n - 1);
    forall n: nat
      ensures Answered(c, states(n), states(n + 1)) && states(n).reader != Idle
    {
      if n == 0 {
        assert After(c, t, 0) == t by { AfterNothing(c, t); }
      } else {
        StarvedForever(c, t, len, n - 1);
        assert states(n + 1) == After(c, t, n);
      }
    }
    assert Schedule(c, states) && states(0) == s;
    assert forall n: nat :: states(n).reader != Idle;
  }

  lemma AfterNothing(c: Stream, s: State)
    ensures After(c, s, 0) == s
  {
  }

  /** Every read of len bytes comes back on every run exactly when len is at most one byte more
      than the filler keeps ahead: 5,000,000 bytes, or 15,000,000 for flac. */
  lemma ReadsReturnIff(c: Stream, len: nat)
    requires Addressable(c) && 1 <= len <= |c.remote| && len < 0x8000_0000
    ensures (forall s :: Reachable(c, s) && Asks(c, s, len) ==> Returns(c, s)) <==> len <= Window(c) + 1
  {
    if len <= Window(c) + 1 {
      forall s | Reachable(c, s) && Asks(c, s, len)
        ensures Returns(c, s)
      {
        ReachableSteady(c, s);
        ModestReturns(c, s);
      }
    } else {
      var s := LongReadStarves(c, len);
    }
  }

  lemma ModestReturns(c: Stream, s: State)
    requires Addressable(c)
    requires Steady(c, s) && Modest(c, s)
    ensures Returns(c, s)
  {
    hide Steady;
    hide Modest;
    forall states: nat -> State | Schedule(c, states) && states(0) == s
      ensures exists n: nat :: states(n).reader == Idle
    {
      var n := ReturnsFrom(c, states, 0);
    }
  }
}
