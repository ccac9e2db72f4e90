/** Every text of RFC 8259 is parsed, however it is laid out and spelled: with any white space
    between its tokens, any escapes in its strings, any way of writing its numbers. */
module JsonDocuments {
  import opened ByteStrings
  import opened JsonText
  import opened JsonNumber
  import opened JsonTokens
  import opened JsonNumeral
  import opened JsonSpelling
  import opened JsonGrammar
  import opened JsonRoundTrip
  import opened Options

  /** A value as it is written; last is the white space in front of the closing bracket. */
  datatype Doc =
    | Num(number: Written)
    | Str(pieces: seq<Piece>)
    | Word(word: Literal)
    | Nest(tag: Tag, entries: seq<Entry>, last: Text)

  datatype Literal = TrueWord | FalseWord | NullWord

  /** A member as it is written: white space in front of it, its key with the white space around the
      colon, its value and the white space behind it. An array ignores the key. */
  datatype Entry = Entry(lead: Text, key: seq<Piece>, before: Text, after: Text, value: Doc, trail: Text)

  /** White space in section 2 of RFC 8259. */
  predicate White(t: Text) {
    forall i | 0 <= i < |t| :: t[i] in {9, 10, 13, 32}
  }

  predicate WellFormed(d: Doc)
    decreases d, 0
  {
    match d
    case Num(x) => WellWritten(x)
    case Str(ps) => AllWellSpelled(ps)
    case Word(_) => true
    case Nest(tag, es, last) => White(last) && AllWellFormed(tag, es)
  }

  predicate AllWellFormed(tag: Tag, es: seq<Entry>)
    decreases es, 1
  {
    es != [] ==> EntryWellFormed(tag, es[0]) && AllWellFormed(tag, es[1..])
  }

  predicate EntryWellFormed(tag: Tag, e: Entry)
    decreases e, 1
  {
    && White(e.lead) && White(e.before) && White(e.after) && White(e.trail)
    && (tag == ObjectTag ==> AllWellSpelled(e.key)) && WellFormed(e.value)
  }

  function StringThen(ps: seq<Piece>, post: Text): Text
    requires AllWellSpelled(ps)
  {
    [QUOTE] + Spelled(ps) + [QUOTE] + post
  }

  function LiteralThen(w: Literal, post: Text): Text {
    match w
    case TrueWord => [116] + RUE + post
    case FalseWord => [102] + ALSE + post
    case NullWord => [110] + ULL + post
  }

  /** The text of a value, with post behind it. */
  function TextThen(d: Doc, post: Text): Text
    requires WellFormed(d)
    decreases d, 0
  {
    match d
    case Num(x) => WrittenText(x) + post
    case Str(ps) => StringThen(ps, post)
    case Word(w) => LiteralThen(w, post)
    case Nest(tag, es, last) => [OpeningOf(tag)] + EntriesThen(tag, es, last + ([ClosingOf(tag)] + post))
  }

  /** The texts of members with commas between them, with post behind them. */
  function EntriesThen(tag: Tag, es: seq<Entry>, post: Text): Text
    requires AllWellFormed(tag, es)
    decreases es, 1
  {
    if es == [] then post
    else
      assert EntryWellFormed(tag, es[0]) && WellFormed(es[0].value);
      es[0].lead + KeyThen(tag, es[0], TextThen(es[0].value, es[0].trail + MoreThen(tag, es[1..], post)))
  }

  function MoreThen(tag: Tag, es: seq<Entry>, post: Text): Text
    requires AllWellFormed(tag, es)
    decreases es, 2
  {
    if es == [] then post else [COMMA] + EntriesThen(tag, es, post)
  }

  function KeyThen(tag: Tag, e: Entry, value: Text): Text
    requires EntryWellFormed(tag, e)
  {
    if tag == ArrayTag then value else StringThen(e.key, e.before + ([COLON] + (e.after + value)))
  }

  /** The value that is meant. */
  ghost function DocValue(d: Doc): Value
    requires WellFormed(d)
    decreases d, 0
  {
    match d
    case Num(x) => Number(ConvertedValue(NumeralOf(x)))
    case Str(ps) => String(CString(Meant(ps)))
    case Word(w) => if w == TrueWord then True else if w == FalseWord then False else Null
    case Nest(tag, es, _) => List(tag, Members(tag, es))
  }

  ghost function Members(tag: Tag, es: seq<Entry>): seq<Member>
    requires AllWellFormed(tag, es)
    decreases es, 1
  {
    if es == [] then [] else [Member(KeyOf(tag, es[0]), DocValue(es[0].value))] + Members(tag, es[1..])
  }

  function KeyOf(tag: Tag, e: Entry): Text
    requires EntryWellFormed(tag, e)
  {
    if tag == ArrayTag then [] else CString(Meant(e.key))
  }

  // ----- white space -----

  lemma WhiteIsBlank(t: Text)
    requires White(t)
    ensures Blank(t)
  {
  }

  lemma WhiteDelimits(t: Text, post: Text)
    requires White(t) && (t == [] ==> Delimited(post))
    ensures Delimited(t + post)
  {
    if t == [] { assert t + post == post; } else { assert (t + post)[0] == t[0]; }
  }

  lemma CloseDelimits(tag: Tag, last: Text, post: Text)
    requires White(last)
    ensures Delimited(last + ([ClosingOf(tag)] + post))
  {
    WhiteDelimits(last, [ClosingOf(tag)] + post);
  }

  // ----- values -----

  lemma ScalarRead(d: Doc, post: Text)
    requires WellFormed(d) && !d.Nest? && Delimited(post)
    ensures ParseValue(Lexed(TextThen(d, post))) == Some((DocValue(d), Lexed(post)))
    ensures StartsValue(Lexed(TextThen(d, post)))
  {
    hide NextToken;
    hide CString;
    hide Spelled;
    hide ConvertedValue;
    var u := TextThen(d, post);
    match d
    case Num(x) =>
      NumberTokenWritten(x, post);
      FirstIsNumeral(x, post);
      assert u[|WrittenText(x)|..] == post;
    case Str(ps) => SpelledHead(ps, post);
    case Word(TrueWord) => WordPrinted(116, RUE, True, post);
    case Word(FalseWord) => WordPrinted(102, ALSE, False, post);
    case Word(NullWord) => WordPrinted(110, ULL, Null, post);
  }

  lemma SpelledHead(ps: seq<Piece>, post: Text)
    requires AllWellSpelled(ps) && Delimited(post)
    ensures Lexed(StringThen(ps, post)) == Next(StringThen(ps, post), Leaf(String(CString(Meant(ps)))), Lexed(post))
  {
    hide NextToken;
    hide Lexed;
    hide CString;
    var u := StringThen(ps, post);
    StringTokenSpelled(ps, post);
    hide Spelled;
    assert u[|Spelled(ps)| + 2..] == post;
    LexedHead(u, |Spelled(ps)| + 2, Leaf(String(CString(Meant(ps)))), post);
  }

  lemma StartsSolid(d: Doc, post: Text)
    requires WellFormed(d)
    ensures TextThen(d, post) != [] && !IsSpace(TextThen(d, post)[0])
  {
    hide Spelled;
    if d.Num? { FirstIsNumeral(d.number, post); }
  }

  lemma SpelledAfterKey(value: Text, before: Text, after: Text)
    requires White(before) && White(after) && value != [] && !IsSpace(value[0]) && StartsValue(Lexed(value))
    ensures ParseAfterKey(Lexed(before + ([COLON] + (after + value))), false) == ParseValue(Lexed(value))
  {
    hide NextToken;
    hide Lexed;
    WhiteIsBlank(before);
    WhiteIsBlank(after);
    SkipBlank(before, [COLON] + (after + value));
    LexedPunctuation(COLON, after + value);
    SkipBlank(after, value);
    assert ParseAfterKey(Lexed([COLON] + (after + value)), false) == ParseAfterKey(Lexed(after + value), true);
    assert ParseAfterKey(Lexed(value), true) == ParseValue(Lexed(value));
  }

  /** One member, in front of whose value the key may stand. */
  lemma EntryRead(tag: Tag, e: Entry, value: Text, separator: bool)
    requires EntryWellFormed(tag, e) && value != [] && !IsSpace(value[0]) && StartsValue(Lexed(value))
    ensures ParseMembers(tag, Lexed(e.lead + KeyThen(tag, e, value)), separator)
         == MemberThen(tag, KeyOf(tag, e), ParseValue(Lexed(value)))
  {
    hide NextToken;
    hide Lexed;
    hide CString;
    hide Spelled;
    hide WellFormed;
    hide FollowedBy;
    var u := KeyThen(tag, e, value);
    WhiteIsBlank(e.lead);
    SkipBlank(e.lead, u);
    if tag == ObjectTag {
      var rest := e.before + ([COLON] + (e.after + value));
      WhiteDelimits(e.before, [COLON] + (e.after + value));
      SpelledHead(e.key, rest);
      SpelledAfterKey(value, e.before, e.after);
    } else {
      ElementStep(value, separator);
    }
  }

  lemma FirstEntry(tag: Tag, e: Entry, post: Text, separator: bool)
    requires EntryWellFormed(tag, e)
    requires ParseValue(Lexed(TextThen(e.value, post))) == Some((DocValue(e.value), Lexed(post)))
    requires StartsValue(Lexed(TextThen(e.value, post)))
    ensures ParseMembers(tag, Lexed(e.lead + KeyThen(tag, e, TextThen(e.value, post))), separator)
         == FollowedBy(tag, Member(KeyOf(tag, e), DocValue(e.value)), Lexed(post))
  {
    StartsSolid(e.value, post);
    EntryRead(tag, e, TextThen(e.value, post), separator);
    hide ParseMembers;
    hide Lexed;
    hide FollowedBy;
  }

  /** A value is read as what is meant, and nothing behind it. */
  lemma {:induction false} DocRead(d: Doc, post: Text)
    requires WellFormed(d) && Delimited(post)
    ensures ParseValue(Lexed(TextThen(d, post))) == Some((DocValue(d), Lexed(post)))
    ensures StartsValue(Lexed(TextThen(d, post)))
    decreases d, 0
  {
    if d.Nest? {
      hide Lexed;
      hide ParseMembers;
      hide EntriesThen;
      var end := d.last + ([ClosingOf(d.tag)] + post);
      EntriesRead(d.tag, d.entries, d.last, post, true);
      OpenStep(d.tag, TextThen(d, post), EntriesThen(d.tag, d.entries, end));
    } else {
      ScalarRead(d, post);
    }
  }

  lemma {:induction false} EntriesRead(tag: Tag, es: seq<Entry>, last: Text, post: Text, separator: bool)
    requires AllWellFormed(tag, es) && White(last)
    ensures ParseMembers(tag, Lexed(EntriesThen(tag, es, last + ([ClosingOf(tag)] + post))), separator)
         == Some((Members(tag, es), Lexed(post)))
    decreases es, 1
  {
    hide Lexed;
    hide ParseMembers;
    var end := last + ([ClosingOf(tag)] + post);
    if es == [] {
      EndRead(tag, last, post, separator);
    } else {
      var e, more := es[0], es[0].trail + MoreThen(tag, es[1..], end);
      MoreDelimits(tag, e.trail, es[1..], last, post);
      hide MoreThen;
      DocRead(e.value, more);
      FirstEntry(tag, e, more, separator);
      MoreRead(tag, e.trail, es[1..], last, post);
    }
  }

  lemma EndRead(tag: Tag, last: Text, post: Text, separator: bool)
    requires White(last)
    ensures ParseMembers(tag, Lexed(last + ([ClosingOf(tag)] + post)), separator) == Some(([], Lexed(post)))
  {
    hide Lexed;
    hide ParseMembers;
    var u := [ClosingOf(tag)] + post;
    WhiteIsBlank(last);
    SkipBlank(last, u);
    CloseStep(tag, u, post, separator);
  }

  lemma MoreDelimits(tag: Tag, trail: Text, es: seq<Entry>, last: Text, post: Text)
    requires AllWellFormed(tag, es) && White(last) && White(trail)
    ensures Delimited(trail + MoreThen(tag, es, last + ([ClosingOf(tag)] + post)))
  {
    hide EntriesThen;
    var end := last + ([ClosingOf(tag)] + post);
    CloseDelimits(tag, last, post);
    WhiteDelimits(trail, MoreThen(tag, es, end));
  }

  /** What stands behind a member: a comma and more members, or the closing bracket. */
  lemma {:induction false} MoreRead(tag: Tag, trail: Text, es: seq<Entry>, last: Text, post: Text)
    requires AllWellFormed(tag, es) && White(last) && White(trail)
    ensures ParseMembers(tag, Lexed(trail + MoreThen(tag, es, last + ([ClosingOf(tag)] + post))), false)
         == Some((Members(tag, es), Lexed(post)))
    decreases es, 2
  {
    hide Lexed;
    hide ParseMembers;
    hide EntriesThen;
    hide AllWellFormed;
    var end := last + ([ClosingOf(tag)] + post);
    if es == [] {
      assert trail + end == (trail + last) + ([ClosingOf(tag)] + post);
      assert Members(tag, es) == [];
      EndRead(tag, trail + last, post, false);
    } else {
      var inner := EntriesThen(tag, es, end);
      WhiteIsBlank(trail);
      SkipBlank(trail, [COMMA] + inner);
      CommaStep(tag, [COMMA] + inner, inner);
      EntriesRead(tag, es, last, post, true);
    }
  }

  /** Every text of RFC 8259 is parsed to the value it means, up to the white space behind it, if and
      only if it nests at most 32 deep and its nodes can be supplied. */
  lemma EveryTextParses(lead: Text, d: Doc, trail: Text, supply: nat)
    requires WellFormed(d) && White(lead) && White(trail)
    ensures Run(Lexed(lead + TextThen(d, trail)), Start(supply)) == Parsed(DocValue(d), Lexed(trail))
       <==> Depth(DocValue(d)) <= 32 && Nodes(DocValue(d)) <= supply
  {
    hide Lexed;
    assert trail + [] == trail;
    WhiteDelimits(trail, []);
    DocRead(d, trail);
    StartsSolid(d, trail);
    hide TextThen;
    hide DocValue;
    WhiteIsBlank(lead);
    SkipBlank(lead, TextThen(d, trail));
    ParserIsGrammar(Lexed(lead + TextThen(d, trail)), supply, DocValue(d), Lexed(trail));
  }
}
