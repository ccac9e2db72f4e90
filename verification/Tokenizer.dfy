/** The command line of the control connection, cut into words inside its own buffer. */
module Tokenizer {
  import opened ByteStrings

  const QUOTE: Byte := 34
  const BACKSLASH: Byte := 92

  // ----- what the words of a line are -----

  /** Is the next character escaped, and is it inside quotes? */
  datatype Mode = Mode(escaped: bool, quoted: bool)

  const PLAIN: Mode := Mode(false, false)

  function After(m: Mode, c: Byte): Mode {
    Mode(c == BACKSLASH && !m.escaped, if c == QUOTE && !m.escaped then !m.quoted else m.quoted)
  }

  predicate IsBreak(m: Mode, c: Byte) {
    c == SPACE && !m.escaped && !m.quoted
  }

  /** The line cut at its breaks; words may be empty. */
  function Split(line: Text, m: Mode): (words: seq<Text>)
    ensures |words| >= 1
  {
    if line == [] then [[]]
    else if IsBreak(m, line[0]) then [[]] + Split(line[1..], m)
    else
      var rest := Split(line[1..], After(m, line[0]));
      [[line[0]] + rest[0]] + rest[1..]
  }

  predicate Special(c: Byte) {
    c == BACKSLASH || c == SPACE || c == QUOTE
  }

  /** A backslash disappears in front of a special character and stays in front of any other. */
  function Unescape(w: Text): (t: Text)
    ensures |t| <= |w|
  {
    if |w| < 2 then w
    else if w[0] != BACKSLASH then [w[0]] + Unescape(w[1..])
    else if Special(w[1]) then [w[1]] + Unescape(w[2..])
    else [w[0], w[1]] + Unescape(w[2..])
  }

  /** The quotes around a word; a leading one goes even without its partner. */
  function Strip(w: Text): (t: Text)
    ensures |t| <= |w|
  {
    if w == [] || w[0] != QUOTE then w
    else if w[|w| - 1] == QUOTE then if |w| == 1 then [] else w[1..|w| - 1]
    else w[1..]
  }

  /** What the tokenizer makes of a line. */
  function Tokens(line: Text): seq<Text> {
    var words := Split(line, PLAIN);
    seq(|words|, i requires 0 <= i < |words| => Unescape(Strip(words[i])))
  }

  // ----- quoting -----

  function QuoteWord(w: Text): Text {
    if w == [] then []
    else (if Special(w[0]) then [BACKSLASH, w[0]] else [w[0]]) + QuoteWord(w[1..])
  }

  function Join(words: seq<Text>): Text
    requires words != []
  {
    if |words| == 1 then QuoteWord(words[0]) else QuoteWord(words[0]) + [SPACE] + Join(words[1..])
  }

  lemma SplitPlain(c: Byte, rest: Text)
    requires c != SPACE && c != BACKSLASH && c != QUOTE
    ensures Split([c] + rest, PLAIN) == [[c] + Split(rest, PLAIN)[0]] + Split(rest, PLAIN)[1..]
  {
    assert ([c] + rest)[1..] == rest;
  }

  lemma SplitEscaped(c: Byte, rest: Text)
    requires Special(c)
    ensures Split([BACKSLASH, c] + rest, PLAIN) ==
            [[BACKSLASH, c] + Split(rest, PLAIN)[0]] + Split(rest, PLAIN)[1..]
  {
    var line := [BACKSLASH, c] + rest;
    var mid := [c] + rest;
    assert line[1..] == mid && mid[1..] == rest;
    var r := Split(rest, PLAIN);
    assert Split(mid, Mode(true, false)) == [[c] + r[0]] + r[1..];
    assert [BACKSLASH] + ([c] + r[0]) == [BACKSLASH, c] + r[0];
  }

  /** A quoted word in front of a line stays in one piece. */
  lemma {:induction false} SplitQuoted(w: Text, tail: Text)
    ensures Split(QuoteWord(w) + tail, PLAIN) ==
            [QuoteWord(w) + Split(tail, PLAIN)[0]] + Split(tail, PLAIN)[1..]
  {
    hide Split;
    var r := Split(tail, PLAIN);
    if w == [] {
      assert [] + tail == tail && [] + r[0] == r[0];
    } else {
      var q := QuoteWord(w[1..]);
      var head := if Special(w[0]) then [BACKSLASH, w[0]] else [w[0]];
      SplitQuoted(w[1..], tail);
      assert QuoteWord(w) == head + q;
      hide QuoteWord;
      assert head + q + tail == head + (q + tail);
      assert head + (q + r[0]) == head + q + r[0];
      if Special(w[0]) { SplitEscaped(w[0], q + tail); } else { SplitPlain(w[0], q + tail); }
    }
  }

  lemma {:induction false} UnescapeQuoted(w: Text)
    ensures Unescape(QuoteWord(w)) == w
  {
    if w != [] {
      var q := QuoteWord(w[1..]);
      UnescapeQuoted(w[1..]);
      if Special(w[0]) {
        assert QuoteWord(w)[2..] == q;
      } else if q == [] {
        assert w[1..] == [];
        assert w == [w[0]];
      } else {
        assert QuoteWord(w)[1..] == q;
      }
    }
  }

  lemma StripQuoted(w: Text)
    ensures Strip(QuoteWord(w)) == QuoteWord(w)
  {
  }

  lemma SplitAtSpace(rest: Text)
    ensures Split([SPACE] + rest, PLAIN) == [[]] + Split(rest, PLAIN)
  {
    assert ([SPACE] + rest)[1..] == rest;
  }

  lemma {:induction false} SplitJoined(words: seq<Text>)
    requires words != []
    ensures |Split(Join(words), PLAIN)| == |words|
    ensures forall i | 0 <= i < |words| :: Split(Join(words), PLAIN)[i] == QuoteWord(words[i])
  {
    hide Split;
    hide QuoteWord;
    var q := QuoteWord(words[0]);
    assert q + [] == q;
    if |words| == 1 {
      SplitQuoted(words[0], []);
      assert Split([], PLAIN) == [[]] by { SplitNothing(); }
    } else {
      SplitJoined(words[1..]);
      SplitAtSpace(Join(words[1..]));
      SplitQuoted(words[0], [SPACE] + Join(words[1..]));
      assert Join(words) == q + ([SPACE] + Join(words[1..]));
      forall i | 1 <= i < |words|
        ensures Split(Join(words), PLAIN)[i] == QuoteWord(words[i])
      {
        assert words[i] == words[1..][i - 1];
      }
    }
  }

  lemma SplitNothing()
    ensures Split([], PLAIN) == [[]]
  {
  }

  /** Tokenizing undoes quoting. */
  lemma TokensOfJoined(words: seq<Text>)
    requires words != []
    ensures Tokens(Join(words)) == words
  {
    hide Split;
    hide Join;
    hide Unescape;
    hide Strip;
    hide QuoteWord;
    SplitJoined(words);
    forall i | 0 <= i < |words|
      ensures Tokens(Join(words))[i] == words[i]
    {
      UnescapeQuoted(words[i]);
      StripQuoted(words[i]);
    }
  }

  // ----- the buffer -----

  /** A zero-terminated text at an offset of a buffer. */
  predicate TextAt(mem: Text, at: nat, t: Text) {
    at + |t| < |mem| && mem[at..at + |t|] == t && mem[at + |t|] == 0
  }

  predicate Moved(mem: Text, mem': Text, pc: nat, len: nat) {
    && pc + len < |mem| == |mem'|
    && (forall k | pc <= k < pc + len :: mem'[k] == mem[k + 1])
    && (forall k | 0 <= k < |mem| && (k < pc || pc + len <= k) :: mem'[k] == mem[k])
  }

  /** memmove by one place towards the front. */
  method MoveDown(raw: array<Byte>, pc: nat, len: nat)
    requires pc + len < raw.Length
    modifies raw
    ensures Moved(old(raw[..]), raw[..], pc, len)
  {
    var i := 0;
    while i < len
      invariant 0 <= i <= len
      invariant forall k | 0 <= k < pc || pc + i <= k < raw.Length :: raw[k] == old(raw[k])
      invariant forall k | pc <= k < pc + i :: raw[k] == old(raw[k + 1])
    {
      raw[pc + i] := raw[pc + i + 1];
      i := i + 1;
    }
  }

  /** strlen of the text at an offset. */
  method Strlen(raw: array<Byte>, at: nat, ghost t: Text) returns (len: nat)
    requires TextAt(raw[..], at, t) && 0 !in t
    ensures len == |t|
  {
    len := 0;
    while raw[at + len] != 0
      invariant 0 <= len <= |t|
      decreases |t| - len
    {
      assert len < |t| ==> raw[at + len] == raw[..][at..at + |t|][len] == t[len];
      len := len + 1;
    }
  }

  /** The line a buffer holds. */
  ghost predicate Holds(raw: array<Byte>, line: Text)
    reads raw
  {
    raw[..] == line + [0] && 0 !in line
  }

  // ----- the three passes -----

  method CountWords(raw: array<Byte>, ghost line: Text) returns (argc: nat)
    requires Holds(raw, line)
    ensures argc == if line == [] then 0 else |Split(line, PLAIN)|
  {
    argc := if raw[0] == 0 then 0 else 1;
    var hasBackslash, hasQuote, pc := 0, false, 0;
    ghost var m := PLAIN;
    assert line[0..] == line;
    while raw[pc] != 0
      invariant 0 <= pc <= |line|
      invariant m == Mode(hasBackslash == 1, hasQuote) && 0 <= hasBackslash <= 1
      invariant line != [] ==> argc + |Split(line[pc..], m)| == |Split(line, PLAIN)| + 1
      invariant line == [] ==> argc == 0
      decreases |line| - pc
    {
      assert line[pc..][0] == raw[pc] && line[pc..][1..] == line[pc + 1..];
      match raw[pc] {
        case 92 =>
          if hasBackslash == 0 { hasBackslash := 2; }
        case 32 =>
          if hasBackslash == 0 && !hasQuote { argc := argc + 1; }
        case 34 =>
          if hasBackslash == 0 { hasQuote := !hasQuote; }
        case _ =>
      }
      if hasBackslash != 0 { hasBackslash := hasBackslash - 1; }
      m := if IsBreak(m, raw[pc]) then m else After(m, raw[pc]);
      pc := pc + 1;
    }
    assert pc == |line|;
    assert line[pc..] == [];
  }

  /** Where word i of a cut line begins. */
  function Start(words: seq<Text>, i: nat): nat
    requires i <= |words|
  {
    if i == 0 then 0 else Start(words, i - 1) + |words[i - 1]| + 1
  }

  lemma {:induction false} StartGrows(words: seq<Text>, i: nat, j: nat)
    requires i < j <= |words|
    ensures Start(words, i) + |words[i]| < Start(words, j)
  {
    if i < j - 1 { StartGrows(words, i, j - 1); }
  }

  /** The words stand one behind the other, each behind its predecessor's NUL. */
  predicate Laid(mem: Text, words: seq<Text>) {
    forall i | 0 <= i < |words| :: TextAt(mem, Start(words, i), words[i])
  }

  lemma TextStays(mem: Text, mem': Text, at: nat, t: Text)
    requires TextAt(mem, at, t) && at + |t| < |mem'|
    requires forall k | at <= k <= at + |t| :: mem'[k] == mem[k]
    ensures TextAt(mem', at, t)
  {
    assert mem'[at..at + |t|] == mem[at..at + |t|];
  }

  /** The second pass so far: words[..i] are cut off, and word i goes on at pc. */
  ghost predicate Cut(mem: Text, line: Text, words: seq<Text>, i: nat, pc: nat, m: Mode)
    requires i < |words| && pc <= |line|
  {
    var rest := Split(line[pc..], m);
    && |mem| == |line| + 1
    && Start(words, i) <= pc
    && (forall j | 0 <= j < i :: TextAt(mem, Start(words, j), words[j]))
    && (forall k | pc <= k <= |line| :: mem[k] == if k < |line| then line[k] else 0)
    && i + |rest| == |words|
    && mem[Start(words, i)..pc] + rest[0] == words[i]
    && rest[1..] == words[i + 1..]
  }

  lemma CutStep(mem: Text, line: Text, words: seq<Text>, i: nat, pc: nat, m: Mode)
    requires i < |words| && pc < |line| && Cut(mem, line, words, i, pc, m) && !IsBreak(m, line[pc])
    ensures Cut(mem, line, words, i, pc + 1, After(m, line[pc]))
  {
    hide TextAt;
    var from := Start(words, i);
    assert line[pc..][0] == line[pc] && line[pc..][1..] == line[pc + 1..];
    var next := Split(line[pc + 1..], After(m, line[pc]));
    assert Split(line[pc..], m) == [[line[pc]] + next[0]] + next[1..];
    assert mem[from..pc + 1] == mem[from..pc] + [line[pc]];
    assert mem[from..pc] + ([line[pc]] + next[0]) == mem[from..pc] + [line[pc]] + next[0];
  }

  lemma CutBreak(mem: Text, line: Text, words: seq<Text>, i: nat, pc: nat, m: Mode)
    requires i < |words| && pc < |line| && Cut(mem, line, words, i, pc, m) && IsBreak(m, line[pc])
    ensures i + 1 < |words| && Start(words, i + 1) == pc + 1
    ensures Cut(mem[pc := 0], line, words, i + 1, pc + 1, m)
  {
    hide TextAt;
    var from, mem' := Start(words, i), mem[pc := 0];
    var next := Split(line[pc + 1..], m);
    BreakSplits(line, pc, m);
    BreakEnds(mem, line, words, i, pc, m);
    BreakKeeps(mem, line, words, i, pc, m);
    hide Split;
    hide Start;
    assert mem'[pc + 1..pc + 1] + next[0] == next[0];
  }

  /** A break ends word i, and the words behind it are those of the rest. */
  lemma BreakEnds(mem: Text, line: Text, words: seq<Text>, i: nat, pc: nat, m: Mode)
    requires i < |words| && pc < |line| && Cut(mem, line, words, i, pc, m) && IsBreak(m, line[pc])
    ensures i + 1 < |words| && Start(words, i + 1) == pc + 1
    ensures mem[Start(words, i)..pc] == words[i] && Split(line[pc + 1..], m) == words[i + 1..]
  {
    hide TextAt;
    BreakSplits(line, pc, m);
    var next := Split(line[pc + 1..], m);
    var from := Start(words, i);
    assert ([[]] + next)[1..] == next;
    assert mem[from..pc] + [] == mem[from..pc];
  }

  lemma BreakKeeps(mem: Text, line: Text, words: seq<Text>, i: nat, pc: nat, m: Mode)
    requires i < |words| && pc < |line| && Cut(mem, line, words, i, pc, m)
    requires mem[Start(words, i)..pc] == words[i]
    ensures forall j | 0 <= j < i + 1 :: TextAt(mem[pc := 0], Start(words, j), words[j])
  {
    hide TextAt;
    hide Split;
    hide Start;
    CutWord(mem, Start(words, i), pc);
    forall j | 0 <= j < i + 1
      ensures TextAt(mem[pc := 0], Start(words, j), words[j])
    {
      if j < i {
        StartGrows(words, j, i);
        TextLength(mem, Start(words, j), words[j]);
        TextStays(mem, mem[pc := 0], Start(words, j), words[j]);
      }
    }
  }

  lemma BreakSplits(line: Text, pc: nat, m: Mode)
    requires pc < |line| && IsBreak(m, line[pc])
    ensures Split(line[pc..], m) == [[]] + Split(line[pc + 1..], m)
  {
    assert line[pc..][0] == line[pc] && line[pc..][1..] == line[pc + 1..];
  }

  lemma CutWord(mem: Text, from: nat, pc: nat)
    requires from <= pc < |mem|
    ensures TextAt(mem[pc := 0], from, mem[from..pc])
  {
    assert mem[pc := 0][from..pc] == mem[from..pc];
  }

  lemma TextLength(mem: Text, at: nat, t: Text)
    requires TextAt(mem, at, t)
    ensures at + |t| < |mem|
  {
  }

  lemma CutDone(mem: Text, line: Text, words: seq<Text>, i: nat, m: Mode)
    requires i < |words| && Cut(mem, line, words, i, |line|, m)
    ensures i == |words| - 1 && Laid(mem, words)
  {
    hide Start;
    hide TextAt;
    var from := Start(words, i);
    assert line[|line|..] == [];
    assert mem[from..|line|] + [] == mem[from..|line|] == words[i];
    LastText(mem, from, words[i]);
    forall j | 0 <= j < |words|
      ensures TextAt(mem, Start(words, j), words[j])
    {
      assert j < i || j == i;
    }
  }

  lemma LastText(mem: Text, from: nat, t: Text)
    requires 1 <= |mem| && from <= |mem| - 1 && mem[from..|mem| - 1] == t && mem[|mem| - 1] == 0
    ensures TextAt(mem, from, t)
  {
  }

  lemma StartOfFirst(words: seq<Text>)
    ensures Start(words, 0) == 0
  {
  }

  lemma CutStart(line: Text, words: seq<Text>)
    requires words == Split(line, PLAIN)
    ensures Cut(line + [0], line, words, 0, 0, PLAIN)
  {
    assert line[0..] == line;
    assert (line + [0])[0..0] + words[0] == words[0];
  }

  /** The second pass cuts the line at its breaks and fills exactly the slots that were counted,
      with NULL, written -1, behind them. */
  method CutWords(raw: array<Byte>, argv: array<int>, ghost line: Text)
    requires Holds(raw, line) && line != [] && argv.Length == |Split(line, PLAIN)| + 1
    modifies raw, argv
    ensures Laid(raw[..], Split(line, PLAIN))
    ensures forall i | 0 <= i < argv.Length - 1 :: argv[i] == Start(Split(line, PLAIN), i)
    ensures argv[argv.Length - 1] == -1
  {
    hide Split;
    hide Cut;
    hide Start;
    hide TextAt;
    hide Laid;
    ghost var words := Split(line, PLAIN);
    StartOfFirst(words);
    ghost var m := PLAIN;
    var i, pc, hasBackslash, hasQuote := 0, 0, 0, false;
    argv[0] := 0;
    CutStart(line, words);
    while raw[pc] != 0
      invariant 0 <= pc <= |line| && raw.Length == |line| + 1
      invariant 0 <= i < |words| && Cut(raw[..], line, words, i, pc, m)
      invariant raw[pc] == if pc < |line| then line[pc] else 0
      invariant m == Mode(hasBackslash == 1, hasQuote) && 0 <= hasBackslash <= 1
      invariant forall j | 0 <= j <= i :: argv[j] == Start(words, j)
      decreases |line| - pc
    {
      ghost var c := line[pc];
      if IsBreak(m, c) { CutBreak(raw[..], line, words, i, pc, m); } else { CutStep(raw[..], line, words, i, pc, m); }
      match raw[pc] {
        case 92 =>
          if hasBackslash == 0 { hasBackslash := 2; }
        case 32 =>
          if hasBackslash == 0 && !hasQuote {
            ghost var mem := raw[..];
            raw[pc] := 0;
            assert raw[..] == mem[pc := 0];
            i := i + 1;
            argv[i] := pc + 1;
            pc := pc + 1;
            CutRest(raw[..], line, words, i, pc, m);
            continue;
          }
        case 34 =>
          if hasBackslash == 0 { hasQuote := !hasQuote; }
        case _ =>
      }
      if hasBackslash != 0 { hasBackslash := hasBackslash - 1; }
      m := After(m, c);
      pc := pc + 1;
      CutRest(raw[..], line, words, i, pc, m);
    }
    CutEnds(line, pc, raw[pc]);
    CutDone(raw[..], line, words, i, m);
    i := i + 1;
    argv[i] := -1;
  }

  lemma CutRest(mem: Text, line: Text, words: seq<Text>, i: nat, pc: nat, m: Mode)
    requires i < |words| && pc <= |line| && Cut(mem, line, words, i, pc, m)
    ensures |mem| == |line| + 1 && mem[pc] == if pc < |line| then line[pc] else 0
  {
  }

  lemma CutEnds(line: Text, pc: nat, c: Byte)
    requires 0 !in line && pc <= |line| && c == 0 && (pc < |line| ==> c == line[pc])
    ensures pc == |line|
  {
  }

  /** Nothing changed before offset at or behind at + n. */
  ghost predicate Outside(mem: Text, mem': Text, at: nat, n: nat) {
    |mem'| == |mem| && forall k | 0 <= k < |mem| && (k < at || at + n < k) :: mem'[k] == mem[k]
  }

  lemma OutsideNothing(mem: Text, at: nat, n: nat)
    ensures Outside(mem, mem, at, n)
  {
  }

  lemma OutsideMoved(mem: Text, mem': Text, mem'': Text, at: nat, n: nat, pc: nat, len: nat)
    requires Outside(mem, mem', at, n) && Moved(mem', mem'', pc, len) && at <= pc && pc + len <= at + n
    ensures Outside(mem, mem'', at, n)
  {
    forall k | 0 <= k < |mem| && (k < at || at + n < k)
      ensures mem''[k] == mem[k]
    {
      assert mem'[k] == mem[k];
    }
  }

  lemma OutsideTrans(mem: Text, mem': Text, mem'': Text, at: nat, n: nat, m: nat)
    requires Outside(mem, mem', at, n) && Outside(mem', mem'', at, m) && m <= n
    ensures Outside(mem, mem'', at, n)
  {
  }

  lemma CharAt(mem: Text, at: nat, t: Text, j: nat)
    requires TextAt(mem, at, t) && j <= |t|
    ensures mem[at + j] == if j < |t| then t[j] else 0
  {
    if j < |t| { assert mem[at..at + |t|][j] == t[j]; }
  }

  /** Moving down from one of its characters to its NUL, or one place further, takes that character
      out of a text. */
  lemma TakenOut(mem: Text, mem': Text, at: nat, t: Text, j: nat, len: nat)
    requires TextAt(mem, at, t) && j < |t| && |t| - j <= len && Moved(mem, mem', at + j, len)
    ensures TextAt(mem', at, t[..j] + t[j + 1..])
  {
    var s := t[..j] + t[j + 1..];
    forall k | 0 <= k < |s|
      ensures mem'[at + k] == s[k]
    {
      CharAt(mem, at, t, k);
      CharAt(mem, at, t, k + 1);
    }
    assert mem'[at..at + |s|] == s;
  }

  lemma Shortened(mem: Text, at: nat, t: Text)
    requires TextAt(mem, at, t) && t != []
    ensures TextAt(mem[at + |t| - 1 := 0], at, t[..|t| - 1])
  {
    var mem' := mem[at + |t| - 1 := 0];
    assert mem'[at..at + |t| - 1] == mem[at..at + |t|][..|t| - 1];
  }

  /** A word without the quotes it may have. */
  method StripInPlace(raw: array<Byte>, at: nat, ghost w: Text)
    requires TextAt(raw[..], at, w) && 0 !in w
    modifies raw
    ensures TextAt(raw[..], at, Strip(w))
    ensures Outside(old(raw[..]), raw[..], at, |w|)
  {
    ghost var mem := raw[..];
    CharAt(mem, at, w, 0);
    if raw[at] == QUOTE {
      hide TextAt;
      hide Outside;
      hide Moved;
      OutsideNothing(mem, at, |w|);
      var len := Strlen(raw, at, w);
      CharAt(mem, at, w, len - 1);
      if len > 0 && raw[at + len - 1] == QUOTE {
        Shortened(mem, at, w);
        raw[at + len - 1] := 0;
        ghost var cut := raw[..];
        assert cut == mem[at + len - 1 := 0];
        OutsideCut(mem, at, len);
        MoveDown(raw, at, len);
        OutsideMoved(mem, cut, raw[..], at, len, at, len);
        StrippedBoth(mem, cut, raw[..], at, w);
      } else {
        MoveDown(raw, at, len);
        OutsideMoved(mem, mem, raw[..], at, len, at, len);
        TakenOut(mem, raw[..], at, w, 0, len);
        assert w[..0] + w[1..] == Strip(w);
      }
    }
  }

  lemma OutsideCut(mem: Text, at: nat, len: nat)
    requires 0 < len && at + len < |mem|
    ensures Outside(mem, mem[at + len - 1 := 0], at, len)
  {
  }

  /** The closing quote becomes a NUL, and the opening one is moved over. */
  lemma StrippedBoth(mem: Text, cut: Text, mem': Text, at: nat, w: Text)
    requires TextAt(mem, at, w) && w != [] && w[0] == QUOTE && w[|w| - 1] == QUOTE
    requires cut == mem[at + |w| - 1 := 0] && Moved(cut, mem', at, |w|)
    ensures TextAt(mem', at, Strip(w))
  {
    var t := w[..|w| - 1];
    Shortened(mem, at, w);
    if |w| > 1 {
      TakenOut(cut, mem', at, t, 0, |w|);
      assert t[..0] + t[1..] == Strip(w);
    } else {
      CharAt(mem, at, w, 1);
      assert mem'[at] == cut[at + 1] == 0;
      EmptyText(mem', at);
    }
  }

  lemma EmptyText(mem: Text, at: nat)
    requires at < |mem| && mem[at] == 0
    ensures TextAt(mem, at, [])
  {
  }

  /** How far the third pass has come: t is the word as it stands, its first j characters are
      dealt with, except that a backslash just before them may still have to go. */
  predicate Unescaping(w: Text, t: Text, j: nat, escaped: bool) {
    && j <= |t| <= |w|
    && 0 !in t
    && (escaped ==> j > 0 && t[j - 1] == BACKSLASH && Unescape(w) == t[..j - 1] + Unescape(t[j - 1..]))
    && (!escaped ==> Unescape(w) == t[..j] + Unescape(t[j..]))
  }

  lemma EscapedSpecial(w: Text, t: Text, j: nat)
    requires Unescaping(w, t, j, true) && j < |t| && Special(t[j])
    ensures Unescaping(w, t[..j - 1] + t[j..], j, false)
  {
    var c, rest, tail := t[j], t[j + 1..], t[j - 1..];
    assert tail[0] == BACKSLASH && tail[1] == c && tail[2..] == rest;
    var u := t[..j - 1] + t[j..];
    assert u[..j] == t[..j - 1] + [c] && u[j..] == rest;
    assert t[..j - 1] + ([c] + Unescape(rest)) == u[..j] + Unescape(u[j..]);
    assert forall x | x in u :: x in t;
  }

  lemma EscapedOther(w: Text, t: Text, j: nat)
    requires Unescaping(w, t, j, true) && j < |t| && !Special(t[j])
    ensures Unescaping(w, t, j + 1, false)
  {
    var c, rest, tail := t[j], t[j + 1..], t[j - 1..];
    assert tail[0] == BACKSLASH && tail[1] == c && tail[2..] == rest;
    assert t[..j + 1] == t[..j - 1] + [BACKSLASH, c];
    assert t[..j - 1] + ([BACKSLASH, c] + Unescape(rest)) == t[..j + 1] + Unescape(rest);
  }

  lemma NotEscaped(w: Text, t: Text, j: nat)
    requires Unescaping(w, t, j, false) && j < |t|
    ensures Unescaping(w, t, j + 1, t[j] == BACKSLASH)
  {
    var c, rest, tail := t[j], t[j + 1..], t[j..];
    if c != BACKSLASH {
      assert tail[0] == c && tail[1..] == rest;
      assert rest == [] ==> tail == [c];
      assert t[..j + 1] == t[..j] + [c];
      assert t[..j] + ([c] + Unescape(rest)) == t[..j + 1] + Unescape(rest);
    }
  }

  lemma UnescapingStep(w: Text, t: Text, j: nat, escaped: bool)
    requires Unescaping(w, t, j, escaped) && j < |t|
    ensures escaped ==> j > 0
    ensures escaped && Special(t[j]) ==> Unescaping(w, t[..j - 1] + t[j..], j, false)
    ensures !(escaped && Special(t[j])) ==> Unescaping(w, t, j + 1, !escaped && t[j] == BACKSLASH)
  {
    hide Unescape;
    if !escaped { NotEscaped(w, t, j); } else if Special(t[j]) { EscapedSpecial(w, t, j); } else { EscapedOther(w, t, j); }
  }

  lemma UnescapingDone(w: Text, t: Text, escaped: bool)
    requires Unescaping(w, t, |t|, escaped)
    ensures Unescape(w) == t
  {
    if escaped {
      assert t[|t| - 1..] == [BACKSLASH];
    } else {
      assert t[|t|..] == [];
    }
  }

  /** The character at pc goes; the rest of its text moves down. */
  method DropChar(raw: array<Byte>, pc: nat, ghost at: nat, ghost t: Text)
    requires TextAt(raw[..], at, t) && 0 !in t && at <= pc < at + |t|
    modifies raw
    ensures TextAt(raw[..], at, t[..pc - at] + t[pc - at + 1..])
    ensures Outside(old(raw[..]), raw[..], at, |t|)
  {
    hide TextAt;
    hide Outside;
    hide Moved;
    ghost var mem := raw[..];
    TailText(mem, at, t, pc - at);
    TextLength(mem, at, t);
    var n := Strlen(raw, pc, t[pc - at..]);
    MoveDown(raw, pc, n);
    TakenOut(mem, raw[..], at, t, pc - at, n);
    OutsideNothing(mem, at, |t|);
    OutsideMoved(mem, mem, raw[..], at, |t|, pc, n);
  }

  /** The third pass over one word. */
  method UnescapeInPlace(raw: array<Byte>, at: nat, ghost w: Text)
    requires TextAt(raw[..], at, w) && 0 !in w
    modifies raw
    ensures TextAt(raw[..], at, Unescape(w))
    ensures Outside(old(raw[..]), raw[..], at, |w|)
  {
    hide TextAt;
    hide Unescape;
    hide Unescaping;
    hide Outside;
    hide Moved;
    assert Outside(raw[..], raw[..], at, |w|) by { OutsideNothing(raw[..], at, |w|); }
    ghost var t := w;
    var pc, hasBackslash := at, 0;
    UnescapingStart(w);
    CharAt(raw[..], at, t, 0);
    TextLength(raw[..], at, t);
    while raw[pc] != 0
      invariant at <= pc <= at + |t| < raw.Length && 0 <= hasBackslash <= 1
      invariant TextAt(raw[..], at, t) && |t| <= |w| && 0 !in t
      invariant Unescaping(w, t, pc - at, hasBackslash == 1)
      invariant raw[pc] == if pc - at < |t| then t[pc - at] else 0
      invariant Outside(old(raw[..]), raw[..], at, |w|)
      decreases |t| - (pc - at)
    {
      ghost var j := pc - at;
      UnescapingStep(w, t, j, hasBackslash == 1);
      if raw[pc] == BACKSLASH && hasBackslash == 0 {
        hasBackslash := 2;
      } else if Special(raw[pc]) && hasBackslash != 0 {
        pc := pc - 1;
        ghost var mem := raw[..];
        DropChar(raw, pc, at, t);
        OutsideTrans(old(raw[..]), mem, raw[..], at, |w|, |t|);
        t := t[..j - 1] + t[j..];
      }
      if hasBackslash != 0 {
        hasBackslash := hasBackslash - 1;
      }
      pc := pc + 1;
      UnescapingBounds(w, t, pc - at, hasBackslash == 1);
      CharAt(raw[..], at, t, pc - at);
      TextLength(raw[..], at, t);
    }
    ZeroEnds(t, pc - at, raw[pc]);
    UnescapingDone(w, t, hasBackslash == 1);
  }

  lemma UnescapingStart(w: Text)
    requires 0 !in w
    ensures Unescaping(w, w, 0, false)
  {
    assert w[..0] + Unescape(w[0..]) == Unescape(w);
  }

  lemma UnescapingBounds(w: Text, t: Text, j: nat, escaped: bool)
    requires Unescaping(w, t, j, escaped)
    ensures j <= |t| <= |w| && 0 !in t
  {
  }

  lemma TailText(mem: Text, at: nat, t: Text, j: nat)
    requires TextAt(mem, at, t) && j <= |t| && 0 !in t
    ensures TextAt(mem, at + j, t[j..]) && 0 !in t[j..]
  {
    assert mem[at + j..at + |t|] == mem[at..at + |t|][j..];
  }

  lemma ZeroEnds(t: Text, j: nat, c: Byte)
    requires j <= |t| && 0 !in t && c == 0 && (j < |t| ==> c == t[j])
    ensures j == |t|
  {
  }

  // ----- the whole tokenizer -----

  /** Words before the i-th are done, the others as they were cut. */
  ghost predicate Parsed(mem: Text, words: seq<Text>, i: nat) {
    forall j | 0 <= j < |words| ::
      TextAt(mem, Start(words, j), if j < i then Unescape(Strip(words[j])) else words[j])
  }

  lemma ParsedStep(mem: Text, mem': Text, words: seq<Text>, i: nat)
    requires i < |words| && Parsed(mem, words, i)
    requires TextAt(mem', Start(words, i), Unescape(Strip(words[i])))
    requires Outside(mem, mem', Start(words, i), |words[i]|)
    ensures Parsed(mem', words, i + 1)
  {
    hide Unescape;
    hide Strip;
    hide Start;
    forall j | 0 <= j < |words|
      ensures TextAt(mem', Start(words, j), if j < i + 1 then Unescape(Strip(words[j])) else words[j])
    {
      var t := if j < i then Unescape(Strip(words[j])) else words[j];
      if j < i {
        StartGrows(words, j, i);
        TextStays(mem, mem', Start(words, j), t);
      } else if j > i {
        StartGrows(words, i, j);
        TextStays(mem, mem', Start(words, j), t);
      }
    }
  }

  lemma {:induction false} SplitHasNoNul(line: Text, m: Mode)
    requires 0 !in line
    ensures forall w | w in Split(line, m) :: 0 !in w
  {
    if line != [] {
      var rest := line[1..];
      assert 0 !in rest && line[0] in line;
      if IsBreak(m, line[0]) { SplitHasNoNul(rest, m); } else { SplitHasNoNul(rest, After(m, line[0])); }
    }
  }

  /** A line becomes its tokens: argc of them, each behind its argv entry, and NULL at the end. */
  method Tokenize(raw: array<Byte>, ghost line: Text) returns (argc: nat, argv: array<int>)
    requires Holds(raw, line) && line != []
    modifies raw
    ensures fresh(argv) && argc == |Tokens(line)| && argv.Length == argc + 1 && argv[argc] == -1
    ensures forall i | 0 <= i < argc :: argv[i] >= 0 && TextAt(raw[..], argv[i], Tokens(line)[i])
  {
    hide Split;
    hide Start;
    hide TextAt;
    hide Unescape;
    hide Strip;
    ghost var words := Split(line, PLAIN);
    argc := CountWords(raw, line);
    argv := new int[argc + 1];
    CutWords(raw, argv, line);
    SplitHasNoNul(line, PLAIN);
    var i := 0;
    while argv[i] != -1
      invariant 0 <= i <= argc == |words| && raw.Length == |line| + 1
      invariant argv[argc] == -1 && forall j | 0 <= j < argc :: argv[j] == Start(words, j)
      invariant Parsed(raw[..], words, i)
      decreases argc - i
    {
      ghost var mem := raw[..];
      var pc := argv[i];
      hide Outside;
      assert TextAt(raw[..], pc, words[i]) && words[i] in words;
      StripInPlace(raw, pc, words[i]);
      StripNoNul(words[i]);
      ghost var stripped := raw[..];
      UnescapeInPlace(raw, pc, Strip(words[i]));
      OutsideTrans(mem, stripped, raw[..], pc, |words[i]|, |Strip(words[i])|);
      ParsedStep(mem, raw[..], words, i);
      i := i + 1;
    }
    forall j | 0 <= j < argc
      ensures argv[j] >= 0 && TextAt(raw[..], argv[j], Tokens(line)[j])
    {
      assert j < i;
      assert TextAt(raw[..], Start(words, j), Unescape(Strip(words[j])));
    }
  }

  lemma StripNoNul(w: Text)
    requires 0 !in w
    ensures 0 !in Strip(w)
  {
  }
}
