/** Command lines with quoted words: quotes keep spaces together, and those around a word go. */
module TokenizerQuotes {
  import opened ByteStrings
  import opened Tokenizer

  /** One character as it is typed: as it is, behind a backslash that means it, or behind a backslash
      that stays because it means nothing there. */
  datatype Key = Plain(c: Byte) | Escaped(c: Byte) | Kept(c: Byte)

  /** A word as it is typed, in the open or between quotes. */
  datatype Arg = Bare(keys: seq<Key>) | Quoted(keys: seq<Key>)

  predicate WellTyped(k: Key, quoted: bool) {
    match k
    case Plain(c) => c != BACKSLASH && c != QUOTE && (quoted || c != SPACE)
    case Escaped(c) => Special(c)
    case Kept(c) => !Special(c)
  }

  predicate AllTyped(ks: seq<Key>, quoted: bool) {
    forall i | 0 <= i < |ks| :: WellTyped(ks[i], quoted)
  }

  predicate GoodArg(a: Arg) {
    AllTyped(a.keys, a.Quoted?)
  }

  function KeyText(k: Key): Text {
    if k.Plain? then [k.c] else [BACKSLASH, k.c]
  }

  function KeyMeans(k: Key): Text {
    if k.Kept? then [BACKSLASH, k.c] else [k.c]
  }

  function Typed(ks: seq<Key>): Text {
    if ks == [] then [] else KeyText(ks[0]) + Typed(ks[1..])
  }

  function Meant(ks: seq<Key>): Text {
    if ks == [] then [] else KeyMeans(ks[0]) + Meant(ks[1..])
  }

  function ArgText(a: Arg): Text {
    match a
    case Bare(ks) => Typed(ks)
    case Quoted(ks) => [QUOTE] + Typed(ks) + [QUOTE]
  }

  function LineOf(args: seq<Arg>): Text
    requires args != []
  {
    if |args| == 1 then ArgText(args[0]) else ArgText(args[0]) + [SPACE] + LineOf(args[1..])
  }

  const INSIDE: Mode := Mode(false, true)

  function ModeOf(quoted: bool): Mode {
    Mode(false, quoted)
  }

  lemma SplitKey(k: Key, quoted: bool, rest: Text)
    requires WellTyped(k, quoted)
    ensures Split(KeyText(k) + rest, ModeOf(quoted)) ==
            [KeyText(k) + Split(rest, ModeOf(quoted))[0]] + Split(rest, ModeOf(quoted))[1..]
  {
    var r := Split(rest, ModeOf(quoted));
    if k.Plain? {
      assert ([k.c] + rest)[1..] == rest;
    } else {
      var line, mid := [BACKSLASH, k.c] + rest, [k.c] + rest;
      assert line[1..] == mid && mid[1..] == rest;
      assert Split(mid, Mode(true, quoted)) == [[k.c] + r[0]] + r[1..];
      assert [BACKSLASH] + ([k.c] + r[0]) == [BACKSLASH, k.c] + r[0];
    }
  }

  /** Typed characters are never cut, whatever follows. */
  lemma {:induction false} SplitTyped(ks: seq<Key>, quoted: bool, tail: Text)
    requires AllTyped(ks, quoted)
    ensures Split(Typed(ks) + tail, ModeOf(quoted)) ==
            [Typed(ks) + Split(tail, ModeOf(quoted))[0]] + Split(tail, ModeOf(quoted))[1..]
  {
    hide Split;
    var r := Split(tail, ModeOf(quoted));
    if ks == [] {
      assert [] + tail == tail && [] + r[0] == r[0];
    } else {
      var head, q := KeyText(ks[0]), Typed(ks[1..]);
      SplitTyped(ks[1..], quoted, tail);
      assert Typed(ks) == head + q;
      hide Typed;
      hide KeyText;
      assert head + q + tail == head + (q + tail);
      assert head + (q + r[0]) == head + q + r[0];
      SplitKey(ks[0], quoted, q + tail);
    }
  }

  lemma SplitOpening(rest: Text)
    ensures Split([QUOTE] + rest, PLAIN) == [[QUOTE] + Split(rest, INSIDE)[0]] + Split(rest, INSIDE)[1..]
    ensures Split([QUOTE] + rest, INSIDE) == [[QUOTE] + Split(rest, PLAIN)[0]] + Split(rest, PLAIN)[1..]
  {
    assert ([QUOTE] + rest)[1..] == rest;
  }

  /** A typed word in front of a line stays in one piece. */
  lemma SplitArg(a: Arg, tail: Text)
    requires GoodArg(a)
    ensures Split(ArgText(a) + tail, PLAIN) == [ArgText(a) + Split(tail, PLAIN)[0]] + Split(tail, PLAIN)[1..]
  {
    hide Split;
    match a
    case Bare(ks) => SplitTyped(ks, false, tail);
    case Quoted(ks) =>
      var q, close, r := Typed(ks), [QUOTE] + tail, Split(tail, PLAIN);
      SplitOpening(tail);
      SplitTyped(ks, true, close);
      SplitOpening(q + close);
      assert ArgText(a) + tail == [QUOTE] + (q + close);
      assert [QUOTE] + (q + ([QUOTE] + r[0])) == ArgText(a) + r[0];
  }

  lemma LineCons(args: seq<Arg>)
    requires |args| > 1
    ensures LineOf(args) == ArgText(args[0]) + ([SPACE] + LineOf(args[1..]))
  {
    hide ArgText;
  }

  lemma {:induction false} SplitLine(args: seq<Arg>)
    requires args != [] && forall a | a in args :: GoodArg(a)
    ensures |Split(LineOf(args), PLAIN)| == |args|
    ensures forall i | 0 <= i < |args| :: Split(LineOf(args), PLAIN)[i] == ArgText(args[i])
  {
    hide Split;
    hide ArgText;
    hide GoodArg;
    var t := ArgText(args[0]);
    assert args[0] in args;
    if |args| == 1 {
      assert t + [] == t;
      SplitArg(args[0], []);
      SplitNothing();
    } else {
      assert forall a | a in args[1..] :: a in args;
      SplitLine(args[1..]);
      LineCons(args);
      hide LineOf;
      SplitAtSpace(LineOf(args[1..]));
      SplitArg(args[0], [SPACE] + LineOf(args[1..]));
      assert t + [] == t;
      forall i | 1 <= i < |args|
        ensures Split(LineOf(args), PLAIN)[i] == ArgText(args[i])
      {
        assert args[i] == args[1..][i - 1];
      }
    }
  }

  lemma UnescapeKey(k: Key, quoted: bool, rest: Text)
    requires WellTyped(k, quoted)
    ensures Unescape(KeyText(k) + rest) == KeyMeans(k) + Unescape(rest)
  {
    var t := KeyText(k) + rest;
    if k.Plain? {
      assert rest == [] ==> t == [k.c];
      assert t[1..] == rest;
    } else {
      assert t[2..] == rest;
    }
  }

  lemma {:induction false} UnescapeTyped(ks: seq<Key>, quoted: bool)
    requires AllTyped(ks, quoted)
    ensures Unescape(Typed(ks)) == Meant(ks)
  {
    hide Unescape;
    if ks != [] {
      UnescapeTyped(ks[1..], quoted);
      UnescapeKey(ks[0], quoted, Typed(ks[1..]));
    } else {
      assert Unescape([]) == [] by { UnescapeNothing(); }
    }
  }

  lemma UnescapeNothing()
    ensures Unescape([]) == []
  {
  }

  /** A typed word means its characters: the quotes around it go, and the backslashes in front of
      special characters. */
  lemma ArgMeans(a: Arg)
    requires GoodArg(a)
    ensures Unescape(Strip(ArgText(a))) == Meant(a.keys)
  {
    UnescapeTyped(a.keys, a.Quoted?);
    hide Unescape;
    hide Meant;
    match a
    case Bare(ks) => assert Strip(Typed(ks)) == Typed(ks);
    case Quoted(ks) =>
      var t := ArgText(a);
      assert t[1..|t| - 1] == Typed(ks);
  }

  /** A line of words typed in any way has exactly the words that are meant: quotes keep spaces in a
      word, and go with it. */
  lemma TokensOfLine(args: seq<Arg>)
    requires args != [] && forall a | a in args :: GoodArg(a)
    ensures |Tokens(LineOf(args))| == |args|
    ensures forall i | 0 <= i < |args| :: Tokens(LineOf(args))[i] == Meant(args[i].keys)
  {
    hide Split;
    hide LineOf;
    hide Unescape;
    hide Strip;
    hide ArgText;
    hide GoodArg;
    SplitLine(args);
    forall i | 0 <= i < |args|
      ensures Tokens(LineOf(args))[i] == Meant(args[i].keys)
    {
      assert args[i] in args;
      ArgMeans(args[i]);
    }
  }

  // ----- a quote that is not closed -----

  lemma UnclosedSplit(ks: seq<Key>)
    requires AllTyped(ks, true)
    ensures Split([QUOTE] + Typed(ks), PLAIN) == [[QUOTE] + Typed(ks)]
  {
    hide Typed;
    SplitOpening(Typed(ks));
    SplitTyped(ks, true, []);
    assert Typed(ks) + [] == Typed(ks);
    assert Split([], INSIDE) == [[]];
  }

  lemma Associate(a: Text, b: Text, c: Text)
    ensures a + (b + c) == (a + b) + c
  {
  }

  lemma {:induction false} TypedConcat(a: seq<Key>, b: seq<Key>)
    ensures Typed(a + b) == Typed(a) + Typed(b) && Meant(a + b) == Meant(a) + Meant(b)
  {
    if a == [] {
      assert a + b == b;
    } else {
      hide KeyText;
      hide KeyMeans;
      assert (a + b)[1..] == a[1..] + b && (a + b)[0] == a[0];
      TypedConcat(a[1..], b);
      Associate(KeyText(a[0]), Typed(a[1..]), Typed(b));
      Associate(KeyMeans(a[0]), Meant(a[1..]), Meant(b));
    }
  }

  lemma TypedLast(ks: seq<Key>) returns (pre: Text)
    requires ks != []
    ensures var front, last := ks[..|ks| - 1], ks[|ks| - 1];
      && Typed(ks) == pre + [last.c]
      && pre == Typed(front) + (if last.Plain? then [] else [BACKSLASH])
      && Meant(ks) == Meant(front) + KeyMeans(last)
  {
    var front, last := ks[..|ks| - 1], ks[|ks| - 1];
    assert ks == front + [last];
    TypedConcat(front, [last]);
    assert [last][1..] == [];
    pre := Typed(front) + if last.Plain? then [] else [BACKSLASH];
  }

  lemma StripOpen(front: Text, last: Byte)
    ensures Strip([QUOTE] + (front + [last])) == if last == QUOTE then front else front + [last]
  {
    var line := [QUOTE] + (front + [last]);
    assert line[|line| - 1] == last;
    assert line[1..] == front + [last];
    assert line[1..|line| - 1] == front;
  }

  lemma OneToken(line: Text, word: Text)
    requires Split(line, PLAIN) == [word]
    ensures Tokens(line) == [Unescape(Strip(word))]
  {
  }

  lemma {:induction false} UnescapeBefore(ks: seq<Key>)
    requires AllTyped(ks, true)
    ensures Unescape(Typed(ks) + [BACKSLASH]) == Meant(ks) + [BACKSLASH]
  {
    hide Unescape;
    if ks == [] {
      assert Typed(ks) + [BACKSLASH] == [BACKSLASH] == Meant(ks) + [BACKSLASH];
      assert Unescape([BACKSLASH]) == [BACKSLASH] by { OneCharStays(BACKSLASH); }
    } else {
      var rest := Typed(ks[1..]) + [BACKSLASH];
      UnescapeBefore(ks[1..]);
      UnescapeKey(ks[0], true, rest);
      assert Typed(ks) + [BACKSLASH] == KeyText(ks[0]) + rest;
      assert KeyMeans(ks[0]) + (Meant(ks[1..]) + [BACKSLASH]) == Meant(ks) + [BACKSLASH];
    }
  }

  lemma OneCharStays(c: Byte)
    ensures Unescape([c]) == [c]
  {
  }

  /** A quote that is not closed takes in the rest of the line, and goes, too; the word is right
      unless it ends with an escaped quote, which then goes in its place. */
  lemma UnclosedIff(ks: seq<Key>)
    requires AllTyped(ks, true)
    ensures Tokens([QUOTE] + Typed(ks)) == [Meant(ks)] <==> ks == [] || ks[|ks| - 1] != Escaped(QUOTE)
  {
    UnclosedSplit(ks);
    OneToken([QUOTE] + Typed(ks), [QUOTE] + Typed(ks));
    UnescapeTyped(ks, true);
    hide Split;
    hide Unescape;
    hide Tokens;
    if ks == [] {
      assert [QUOTE] + Typed(ks) == [QUOTE] && Typed(ks) == [];
    } else {
      var front, last := ks[..|ks| - 1], ks[|ks| - 1];
      var pre := TypedLast(ks);
      StripOpen(pre, last.c);
      hide Typed;
      hide Strip;
      if last == Escaped(QUOTE) {
        UnescapeBefore(front);
        hide Meant;
        assert (Meant(front) + [BACKSLASH])[|Meant(front)|] != (Meant(front) + [QUOTE])[|Meant(front)|];
      } else {
        assert last.c != QUOTE by { assert WellTyped(last, true); }
      }
    }
  }
}
