/** The read-ahead cache of one stream. A filler thread appends what it fetches to a cache file;
    a reader hands the file to the player. Both run under one mutex and wake each other through
    two counting semaphores. Every stretch of code between a lock and its unlock, every test made
    without the lock and every semaphore operation is one step. */
module Cache {
  import opened ByteStrings
  import opened Options

  /** What does not change while the stream is open: the remote file, and whether its name ends
      in .flac. */
  datatype Stream = Stream(remote: Text, flac: bool)

  datatype Descriptor = Closed | Append | ReadOnly

  /** bunny_cache_starting_filepos, bunny_cache_filepos and bunny_cache_fd with the cache file
      itself, then the position of the open file and what the player was given so far. */
  datatype Shared = Shared(
    file: Option<Text>,
    starting: nat,
    filepos: nat,
    fd: Descriptor,
    pos: nat,
    client: Text)

  const PREFETCH := 10_000_000
  const PACKET := 1_048_576

  function Window(c: Stream): nat {
    if c.flac then 15_000_000 else 5_000_000
  }

  function Prefetch(c: Stream, sh: Shared): nat {
    if sh.pos == 0 && c.flac then if PREFETCH > |c.remote| then |c.remote| else PREFETCH else 0
  }

  /** Subtraction of unsigned 64-bit numbers. */
  function Gap(a: nat, b: nat): (gap: nat)
    ensures b <= a < 0x1_0000_0000_0000_0000 ==> gap == a - b
  {
    (a - b) % 0x1_0000_0000_0000_0000
  }

  /** What is left of a file offset in a C int. */
  function ToInt(n: nat): (i: int)
    ensures i == n <==> n < 0x8000_0000
  {
    (n + 0x8000_0000) % 0x1_0000_0000 - 0x8000_0000
  }

  function Size(file: Option<Text>): nat {
    match file
    case None => 0
    case Some(bytes) => |bytes|
  }

  function Bytes(file: Option<Text>): Text {
    match file
    case None => []
    case Some(bytes) => bytes
  }

  /** The test that throws a cache file away: more than ten bytes read, the first ten all NUL. */
  predicate TenNuls(bytes: Text) {
    |bytes| > 10 && forall i | 0 <= i < 10 :: bytes[i] == 0
  }

  // ----- the reader's critical sections -----

  function Enter(sh: Shared): Shared {
    if sh.pos == 0 then sh.(filepos := 0, starting := Size(sh.file), fd := Closed)
    else sh.(filepos := sh.pos)
  }

  datatype Verdict = AtEnd | Short | NoData | Ready

  function Check(c: Stream, sh: Shared, len: nat, prefetch: nat): Verdict {
    if sh.filepos >= |c.remote| then AtEnd
    else if prefetch > 0 && sh.starting < prefetch then Short
    else if Gap(sh.starting, sh.filepos) < len then Short
    else if sh.starting <= sh.filepos then NoData
    else Ready
  }

  /** The file is reopened, read at the open file's position and closed again. */
  function Serve(sh: Shared, len: nat): Shared {
    match sh.file
    case None => sh.(fd := Closed)
    case Some(bytes) =>
      if sh.pos > |bytes| then sh.(fd := Closed, file := None)
      else if ToInt(sh.pos) != sh.pos || sh.pos + len > |bytes| then sh.(fd := Closed)
      else
        var got := bytes[sh.pos..sh.pos + len];
        var served := sh.(fd := Closed, pos := sh.pos + len, client := sh.client + got);
        if sh.pos == 0 && TenNuls(got) then served.(file := None) else served.(starting := |bytes|)
  }

  // ----- the filler's critical sections -----

  function Open(sh: Shared): Shared {
    sh.(file := Some(Bytes(sh.file)), starting := Size(sh.file), fd := Append)
  }

  /** How much to ask for, and whether that is the rest of the file. */
  function Plan(c: Stream, sh: Shared): (nat, bool) {
    var buflen :=
      if !c.flac then PACKET
      else if sh.filepos == 0 && sh.starting <= 8_000_000 then 4_000_000
      else 2_000_000;
    var remaining := Gap(|c.remote|, sh.starting);
    if remaining < buflen then (remaining, true) else (buflen, false)
  }

  /** A packet is appended; None is a request the server did not answer in full. */
  function Store(sh: Shared, packet: Option<Text>): Shared {
    match packet
    case None => sh
    case Some(bytes) =>
      var file := Bytes(sh.file) + bytes;
      sh.(file := Some(file), starting := |file|, fd := Append)
  }

  function Close(sh: Shared): Shared {
    sh.(fd := Closed)
  }

  /** Bytes from..from + buflen of the remote file, as far as they exist. */
  function Fetched(c: Stream, from: nat, buflen: nat): (packet: Text)
    ensures from + buflen <= |c.remote| ==> packet == c.remote[from..from + buflen]
  {
    var lo := if from <= |c.remote| then from else |c.remote|;
    var hi := if lo + buflen <= |c.remote| then lo + buflen else |c.remote|;
    c.remote[lo..hi]
  }

  // ----- the two threads -----

  /** Where the reader stands in one call. From Lacking on it has left the mutex at its no-data
      branch: it posts, waits once, and then reads the file without the mutex. */
  datatype Reader =
    | Idle
    | Entering(len: nat)
    | Resetting(len: nat)
    | Draining(len: nat)
    | Signalling(len: nat, prefetch: nat)
    | Checking(len: nat, prefetch: nat)
    | Posting(len: nat, prefetch: nat)
    | Waiting(len: nat, prefetch: nat)
    | Lacking(len: nat)
    | Napping(len: nat)
    | Resuming(len: nat)
    | Leaving(len: nat)

  /** Where the filler stands; from is its copy of the reader's position, taken once a round. */
  datatype Filler =
    | Sleeping
    | Opening
    | Testing(from: nat)
    | Full
    | Starting(from: nat)
    | Planning(from: nat)
    | Requesting(from: nat, buflen: nat, finished: bool)
    | Storing(from: nat, packet: Option<Text>, finished: bool)
    | Announcing(from: nat, finished: bool, done: bool)
    | Looping(from: nat, finished: bool, done: bool)
    | Closing

  datatype State = State(sh: Shared, sem: nat, semdata: nat, reader: Reader, filler: Filler)

  /** The player asks for len bytes, or one of the threads makes its next step; answered says
      whether the server sends the range the filler asks for. */
  datatype Event = Call(len: nat) | ReaderStep | FillerStep(answered: bool)

  predicate Wanted(c: Stream, s: State, from: nat) {
    Gap(s.sh.starting, from) <= Window(c) && s.sh.starting < |c.remote|
  }

  function ReaderNext(c: Stream, s: State): Option<State> {
    match s.reader
    case Idle => None
    case Entering(len) =>
      Some(s.(sh := Enter(s.sh), reader := if s.sh.pos == 0 then Resetting(len) else Signalling(len, 0)))
    case Resetting(len) => Some(s.(semdata := 0, reader := Draining(len)))
    case Draining(len) =>
      if s.semdata == 0 then Some(s.(reader := Signalling(len, Prefetch(c, s.sh)))) else None
    case Signalling(len, prefetch) => Some(s.(sem := s.sem + 1, reader := Checking(len, prefetch)))
    case Checking(len, prefetch) =>
      Some(match Check(c, s.sh, len, prefetch)
           case AtEnd => s.(reader := Idle)
           case Short => s.(reader := Posting(len, prefetch))
           case NoData => s.(reader := Lacking(len))
           case Ready => s.(sh := Serve(s.sh, len), reader := Leaving(len)))
    case Posting(len, prefetch) => Some(s.(sem := s.sem + 1, reader := Waiting(len, prefetch)))
    case Waiting(len, prefetch) =>
      if s.semdata > 0 then Some(s.(semdata := s.semdata - 1, reader := Checking(len, prefetch))) else None
    case Lacking(len) => Some(s.(sem := s.sem + 1, reader := Napping(len)))
    case Napping(len) =>
      if s.semdata > 0 then Some(s.(semdata := s.semdata - 1, reader := Resuming(len))) else None
    case Resuming(len) => Some(s.(sh := Serve(s.sh, len), reader := Leaving(len)))
    case Leaving(_) => Some(s.(reader := Idle))
  }

  function FillerNext(c: Stream, s: State, answered: bool): Option<State> {
    match s.filler
    case Sleeping => if s.sem > 0 then Some(s.(sem := s.sem - 1, filler := Opening)) else None
    case Opening => Some(s.(sh := Open(s.sh), filler := Testing(s.sh.filepos)))
    case Testing(from) =>
      Some(s.(filler := if from >= |c.remote| then Sleeping else if Wanted(c, s, from) then Starting(from) else Full))
    case Full => Some(s.(semdata := s.semdata + 1, filler := Sleeping))
    case Starting(from) => Some(s.(filler := if Wanted(c, s, from) then Planning(from) else Closing))
    case Planning(from) =>
      var (buflen, finished) := Plan(c, s.sh);
      Some(s.(filler := Requesting(from, buflen, finished)))
    case Requesting(from, buflen, finished) =>
      var packet := if answered then Some(Fetched(c, s.sh.starting, buflen)) else None;
      Some(s.(filler := Storing(from, packet, finished)))
    case Storing(from, packet, finished) =>
      Some(s.(sh := Store(s.sh, packet), filler := Announcing(from, finished, packet == None)))
    case Announcing(from, finished, done) =>
      Some(s.(semdata := s.semdata + 1, filler := Looping(from, finished, done)))
    case Looping(from, finished, done) =>
      var more := Wanted(c, s, from) && !finished && !done;
      Some(s.(filler := if more then Planning(from) else Closing))
    case Closing => Some(s.(sh := Close(s.sh), filler := Sleeping))
  }

  function Next(c: Stream, s: State, e: Event): Option<State> {
    match e
    case Call(len) => if s.reader == Idle && 1 <= len < 0x8000_0000 then Some(s.(reader := Entering(len))) else None
    case ReaderStep => ReaderNext(c, s)
    case FillerStep(answered) => FillerNext(c, s, answered)
  }

  /** The state after a series of events, if each of them could happen in its turn. */
  function Run(c: Stream, s: State, events: seq<Event>): Option<State>
    decreases |events|
  {
    if events == [] then Some(s)
    else
      var next := Next(c, s, events[0]);
      if next == None then None else Run(c, next.value, events[1..])
  }

  /** Before the first read: a cache file kept from an earlier play, the filler asleep. */
  predicate Initial(c: Stream, s: State) {
    && (s.sh.file == None || s.sh.file.value <= c.remote)
    && s.sh == Shared(s.sh.file, 0, 0, Closed, 0, [])
    && s.sem == 0
    && s.reader == Idle
    && s.filler == Sleeping
  }

  ghost predicate Reachable(c: Stream, s: State) {
    exists s0: State, events: seq<Event> :: Initial(c, s0) && Run(c, s0, events) == Some(s)
  }

  // ----- the sections as they run -----

  /** The globals of the cache and the open file. */
  class SharedCache {
    const stream: Stream
    var file: Option<Text>
    var starting: nat
    var filepos: nat
    var fd: Descriptor
    var pos: nat
    var client: Text

    constructor (stream: Stream, file: Option<Text>)
      ensures this.stream == stream && View() == Shared(file, 0, 0, Closed, 0, [])
    {
      this.stream := stream;
      this.file, starting, filepos, fd, pos, client := file, 0, 0, Closed, 0, [];
    }

    ghost function View(): Shared
      reads this
    {
      Shared(file, starting, filepos, fd, pos, client)
    }

    method EnterRead()
      modifies this
      ensures View() == Enter(old(View()))
    {
      filepos := pos;
      if pos == 0 {
        starting := pos;
        fd := ReadOnly;
        if file.Some? {
          starting := |file.value|;
        }
        fd := Closed;
      }
    }

    method CountNuls(buf: Text) returns (nuls: nat)
      requires |buf| > 10
      ensures nuls == 10 <==> TenNuls(buf)
    {
      nuls := 0;
      var i := 0;
      while i < 10
        invariant 0 <= i <= 10 && nuls <= i
        invariant nuls == i <==> forall k | 0 <= k < i :: buf[k] == 0
      {
        if buf[i] == 0 {
          nuls := nuls + 1;
        }
        i := i + 1;
      }
    }

    /** One pass through the reader's loop. */
    method CheckRead(len: nat, prefetch: nat) returns (verdict: Verdict)
      requires 1 <= len < 0x8000_0000
      modifies this
      ensures verdict == Check(stream, old(View()), len, prefetch)
      ensures View() == if verdict == Ready then Serve(old(View()), len) else old(View())
    {
      if filepos >= |stream.remote| {
        return AtEnd;
      }
      if prefetch > 0 && starting < prefetch {
        return Short;
      }
      if Gap(starting, filepos) < len {
        return Short;
      }
      if starting <= filepos {
        return NoData;
      }
      verdict := Ready;
      ServeRead(len);
    }

    /** The file is reopened and read; after a wait at the no-data branch this happens without the
        mutex. */
    method ServeRead(len: nat)
      requires 1 <= len < 0x8000_0000
      modifies this
      ensures View() == Serve(old(View()), len)
    {
      if fd != Closed {
        fd := Closed;
      }
      var done := false;
      if file.Some? {
        fd := ReadOnly;
        if pos > |file.value| {
          done := true;
          file := None;
          fd := Closed;
        }
      }
      if fd != Closed && !done {
        if ToInt(pos) == pos {
          var got := if pos + len <= |file.value| then file.value[pos..pos + len] else file.value[pos..];
          if |got| == len {
            if pos == 0 && |got| > 10 {
              var nuls := CountNuls(got);
              if nuls == 10 {
                fd := Closed;
                file := None;
              }
            }
            pos := pos + len;
            client := client + got;
            if fd != Closed {
              starting := |file.value|;
            }
          }
        }
        fd := Closed;
      }
    }

    method OpenForFill() returns (from: nat)
      modifies this
      ensures View() == Open(old(View())) && from == old(filepos)
    {
      fd := Append;
      if file.None? {
        file := Some([]);
      }
      starting := |file.value|;
      from := filepos;
    }

    method PlanRequest() returns (buflen: nat, finished: bool)
      ensures (buflen, finished) == Plan(stream, View())
    {
      buflen, finished := PACKET, false;
      if stream.flac {
        if filepos == 0 && starting <= 8_000_000 {
          buflen := 4_000_000;
        } else {
          buflen := 2_000_000;
        }
      }
      var remaining := Gap(|stream.remote|, starting);
      if remaining < buflen {
        buflen, finished := remaining, true;
      }
    }

    method StorePacket(packet: Option<Text>)
      requires fd == Append ==> file.Some?
      modifies this
      ensures View() == Store(old(View()), packet)
    {
      if packet.Some? {
        if fd != Append {
          fd := Append;
          if file.None? {
            file := Some([]);
          }
        }
        file := Some(file.value + packet.value);
        starting := |file.value|;
      }
    }

    method CloseAfterFill()
      modifies this
      ensures View() == Close(old(View()))
    {
      if fd != Closed {
        fd := Closed;
      }
    }
  }
}
