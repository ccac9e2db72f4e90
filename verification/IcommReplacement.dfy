/** When the replacements made while reading leave the check byte of a message alone. */
module IcommReplacement {
  import opened ByteStrings
  import opened IcommText
  import opened IcommMessage
  import opened IcommFrame

  const BACKSLASH: Byte := 92
  const SEMICOLON: Byte := 59
  const DOUBLE_QUOTE: Byte := 34
  const SINGLE_QUOTE: Byte := 39

  function Count(t: Text, c: Byte): nat {
    if t == [] then 0 else Count(t[..|t| - 1], c) + if t[|t| - 1] == c then 1 else 0
  }

  /** How often a character occurs in the fields from id on that are present. */
  function CountFrom(m: Message, id: nat, c: Byte): nat
    requires 1 <= id
    decreases 127 - id
  {
    if id >= 127 then 0 else (if m.Has(id) then Count(m.Field(id), c) else 0) + CountFrom(m, id + 1, c)
  }

  predicate Odd(n: nat) {
    n % 2 == 1
  }

  /** Each of the four characters that are replaced occurs an even number of times. */
  predicate EvenReplaced(m: Message) {
    && !Odd(CountFrom(m, 2, BACKSLASH))
    && !Odd(CountFrom(m, 2, SEMICOLON))
    && !Odd(CountFrom(m, 2, DOUBLE_QUOTE))
    && !Odd(CountFrom(m, 2, SINGLE_QUOTE))
  }

  // ----- differences of check bytes -----

  /** What replacing an odd number of each of the four characters does to the check byte. */
  function Difference(b: bool, s: bool, d: bool, q: bool): bv8 {
    Xor(Xor(if b then 0x7C else 0, if s then 0x1B else 0), Xor(if d then 0x02 else 0, if q then 0x07 else 0))
  }

  lemma DifferenceZero(b: bool, s: bool, d: bool, q: bool)
    ensures Difference(b, s, d, q) == 0 <==> !b && !s && !d && !q
  {
  }

  lemma DifferenceXor(b: bool, s: bool, d: bool, q: bool, b': bool, s': bool, d': bool, q': bool)
    ensures Xor(Difference(b, s, d, q), Difference(b', s', d', q')) == Difference(b != b', s != s', d != d', q != q')
  {
  }

  lemma OddSum(a: nat, b: nat)
    ensures Odd(a + b) <==> Odd(a) != Odd(b)
  {
  }

  /** The difference for the characters of a text. */
  function TextDifference(t: Text): bv8 {
    Difference(Odd(Count(t, BACKSLASH)), Odd(Count(t, SEMICOLON)), Odd(Count(t, DOUBLE_QUOTE)), Odd(Count(t, SINGLE_QUOTE)))
  }

  function FieldsDifference(m: Message, id: nat): bv8
    requires 1 <= id
  {
    Difference(Odd(CountFrom(m, id, BACKSLASH)), Odd(CountFrom(m, id, SEMICOLON)),
               Odd(CountFrom(m, id, DOUBLE_QUOTE)), Odd(CountFrom(m, id, SINGLE_QUOTE)))
  }

  lemma XorSelf(a: bv8, b: bv8)
    ensures Xor(a, b) == 0 <==> a == b
  {
  }

  lemma XorSwap(a: bv8, b: bv8, c: bv8, d: bv8)
    ensures Xor(Xor(a, b), Xor(c, d)) == Xor(Xor(a, c), Xor(b, d))
  {
    hide Xor;
    XorLaws(a, b, Xor(c, d));
    XorLaws(b, c, d);
    XorLaws(c, b, d);
    XorLaws(a, c, Xor(b, d));
  }

  lemma BytesReplaced()
    ensures Xor(Bits(BACKSLASH), Bits(SPACE)) == 0x7C && Xor(Bits(SEMICOLON), Bits(SPACE)) == 0x1B
    ensures Xor(Bits(DOUBLE_QUOTE), Bits(SPACE)) == 0x02 && Xor(Bits(SINGLE_QUOTE), Bits(SPACE)) == 0x07
  {
    SameWord(Bits(BACKSLASH), 0x5C);
    SameWord(Bits(SEMICOLON), 0x3B);
    SameWord(Bits(DOUBLE_QUOTE), 0x22);
    SameWord(Bits(SINGLE_QUOTE), 0x27);
    SameWord(Bits(SPACE), 0x20);
  }

  lemma ByteDifference(c: Byte)
    ensures Xor(Bits(c), Bits(CleanByte(c)))
         == Difference(c == BACKSLASH, c == SEMICOLON, c == DOUBLE_QUOTE, c == SINGLE_QUOTE)
  {
    hide Bits;
    BytesReplaced();
    XorSelf(Bits(c), Bits(c));
  }

  lemma {:induction false} LrcOfClean(t: Text)
    ensures Xor(Lrc(t), Lrc(Clean(t))) == TextDifference(t)
  {
    hide Bits;
    if t == [] {
      assert Clean(t) == [];
    } else {
      var u, c := t[..|t| - 1], t[|t| - 1];
      LrcOfClean(u);
      assert Clean(t)[..|t| - 1] == Clean(u);
      hide Xor;
      hide Difference;
      XorSwap(Lrc(u), Bits(c), Lrc(Clean(u)), Bits(CleanByte(c)));
      ByteDifference(c);
      DifferenceXor(Odd(Count(u, BACKSLASH)), Odd(Count(u, SEMICOLON)),
                    Odd(Count(u, DOUBLE_QUOTE)), Odd(Count(u, SINGLE_QUOTE)),
                    c == BACKSLASH, c == SEMICOLON, c == DOUBLE_QUOTE, c == SINGLE_QUOTE);
    }
  }

  lemma LrcOfParts(a: Text, b: Text, a': Text, b': Text)
    ensures Xor(Lrc(a + b), Lrc(a' + b')) == Xor(Xor(Lrc(a), Lrc(a')), Xor(Lrc(b), Lrc(b')))
  {
    hide Lrc;
    hide Xor;
    LrcConcat(a, b);
    LrcConcat(a', b');
    XorSwap(Lrc(a), Lrc(b), Lrc(a'), Lrc(b'));
  }

  /** What stands in front of both texts makes no difference. */
  lemma LrcBehind(p: Text, a: Text, b: Text)
    ensures Xor(Lrc(p + a), Lrc(p + b)) == Xor(Lrc(a), Lrc(b))
  {
    hide Lrc;
    hide Xor;
    LrcOfParts(p, a, p, b);
    XorSelf(Lrc(p), Lrc(p));
    XorLaws(Xor(Lrc(a), Lrc(b)), 0, 0);
  }

  lemma LrcOfField(id: nat, t: Text)
    requires id < 128
    ensures Xor(Lrc(FieldText(id, t)), Lrc(FieldText(id, Clean(t)))) == TextDifference(t)
  {
    hide Lrc;
    hide Xor;
    hide Def;
    hide Precision;
    hide TextDifference;
    LrcOfClean(t);
    if !Def(id).Fixed? {
      LrcBehind(Precision(|t|, PrefixDigits(Def(id))), t, Clean(t));
    }
  }

  lemma {:induction false} LrcOfFields(m: Message, id: nat)
    requires Full(m) && 2 <= id
    ensures Xor(Lrc(FieldsText(m, id)), Lrc(FieldsText(CleanMessage(m), id))) == FieldsDifference(m, id)
    decreases 127 - id
  {
    hide Xor;
    hide Lrc;
    hide Full;
    hide FieldText;
    hide CleanMessage;
    hide Count;
    hide Odd;
    hide Clean;
    if id >= 127 {
      DifferenceZero(false, false, false, false);
      XorSelf(Lrc([]), Lrc([]));
      NoneOdd();
    } else if m.Has(id) {
      hide Difference;
      var t := m.Field(id);
      PresentFits(m, id);
      CleanFieldsText(m, id);
      LrcOfFields(m, id + 1);
      LrcOfParts(FieldText(id, t), FieldsText(m, id + 1), FieldText(id, Clean(t)), FieldsText(CleanMessage(m), id + 1));
      LrcOfField(id, t);
      OddSums(m, id, t);
    } else {
      SkippedField(m, id);
      CleanFieldsText(m, id);
      LrcOfFields(m, id + 1);
    }
  }

  lemma NoneOdd()
    ensures !Odd(0)
  {
  }

  lemma OddSums(m: Message, id: nat, t: Text)
    requires 2 <= id <= 126 && m.Has(id) && t == m.Field(id)
    ensures Xor(TextDifference(t), FieldsDifference(m, id + 1)) == FieldsDifference(m, id)
  {
    hide Xor;
    hide Difference;
    hide Odd;
    hide Count;
    OddSum(Count(t, BACKSLASH), CountFrom(m, id + 1, BACKSLASH));
    OddSum(Count(t, SEMICOLON), CountFrom(m, id + 1, SEMICOLON));
    OddSum(Count(t, DOUBLE_QUOTE), CountFrom(m, id + 1, DOUBLE_QUOTE));
    OddSum(Count(t, SINGLE_QUOTE), CountFrom(m, id + 1, SINGLE_QUOTE));
    DifferenceXor(Odd(Count(t, BACKSLASH)), Odd(Count(t, SEMICOLON)),
                  Odd(Count(t, DOUBLE_QUOTE)), Odd(Count(t, SINGLE_QUOTE)),
                  Odd(CountFrom(m, id + 1, BACKSLASH)), Odd(CountFrom(m, id + 1, SEMICOLON)),
                  Odd(CountFrom(m, id + 1, DOUBLE_QUOTE)), Odd(CountFrom(m, id + 1, SINGLE_QUOTE)));
  }

  /** Replacement leaves the check byte of a printed message alone exactly when each of the four
      characters occurs an even number of times in its fields. */
  lemma CheckKeptIff(m: Message)
    requires Full(m)
    ensures Lrc(PlainText(CleanMessage(m))) == Lrc(PlainText(m)) <==> EvenReplaced(m)
  {
    hide Lrc;
    hide Xor;
    hide Full;
    hide FieldsText;
    hide CleanMessage;
    hide Difference;
    hide CountFrom;
    hide Odd;
    var head := PrintType(m.mtype) + HeaderText(m);
    var a, b := FieldsText(m, 2), FieldsText(CleanMessage(m), 2);
    CleanPlainText(m);
    LrcBehind(head, a, b);
    LrcOfFields(m, 2);
    XorSelf(Lrc(head + a), Lrc(head + b));
    DifferenceZero(Odd(CountFrom(m, 2, BACKSLASH)), Odd(CountFrom(m, 2, SEMICOLON)),
                   Odd(CountFrom(m, 2, DOUBLE_QUOTE)), Odd(CountFrom(m, 2, SINGLE_QUOTE)));
  }
}
