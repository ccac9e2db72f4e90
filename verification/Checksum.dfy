/** The checksums of LabJack packets: a folded sum of the first bytes in byte 0, a 16-bit sum of
    the data in bytes 4 and 5; and their second implementation. */
module Checksum {
  import opened ByteStrings

  const WORD: nat := 0x1_0000

  function Sum(s: Text): (n: nat)
    ensures n <= 255 * |s|
  {
    if s == [] then 0 else Sum(s[..|s| - 1]) + s[|s| - 1] as int
  }

  /** Quotient and remainder of a division by 256 are added, twice; the result is cut to a byte. */
  function DoubleFold(a: nat): Byte {
    var once := a % 256 + a / 256;
    (once % 256 + once / 256) % 256
  }

  /** The fold of a 16-bit sum needs no cutting: it is the sum modulo 255, with 255 in place of 0
      unless the sum itself is 0. */
  lemma FoldIs(a: nat)
    requires a < WORD
    ensures var once := a % 256 + a / 256; once % 256 + once / 256 < 256
    ensures DoubleFold(a) == if a == 0 then 0 else 1 + (a - 1) % 255
    ensures DoubleFold(a) % 255 == a % 255
  {
    var once := a % 256 + a / 256;
    assert a == 255 * (a / 256) + once;
    assert once == 255 * (once / 256) + (once % 256 + once / 256);
    var fold := once % 256 + once / 256;
    FoldMod(a / 256 + once / 256, fold, a);
  }

  lemma FoldMod(q: nat, fold: nat, a: nat)
    requires a == 255 * q + fold && fold < 256 && (fold == 0 ==> a == 0)
    ensures fold == if a == 0 then 0 else 1 + (a - 1) % 255
    ensures fold % 255 == a % 255
  {
  }

  lemma FoldFits(a: nat)
    requires a < WORD
    ensures var once := a % 256 + a / 256; once % 256 + once / 256 < 256
  {
    FoldIs(a);
  }

  /** The steps of the programs compute the fold of a 16-bit sum. */
  lemma FoldSteps(a: nat)
    requires a < WORD
    ensures var once := (a - 256 * (a / 256)) + a / 256;
      once >= 0 && (once - 256 * (once / 256)) + once / 256 == DoubleFold(a)
  {
    FoldFits(a);
    DivMod(a);
    DivMod(a % 256 + a / 256);
  }

  lemma DivMod(a: nat)
    ensures a - 256 * (a / 256) == a % 256
  {
  }

  // ----- packets -----

  /** The sum of the data as extendedChecksum16 returns it, in 16 bits. */
  function Sum16(b: Text): nat
    requires |b| >= 6
  {
    Sum(b[6..]) % WORD
  }

  function Sum8(b: Text): Byte
    requires |b| >= 6
  {
    DoubleFold(Sum(b[1..6]))
  }

  function Stamped(b: Text): Text
    requires |b| >= 6
  {
    var c := b[4 := Sum16(b) % 256][5 := Sum16(b) / 256 % 256];
    c[0 := Sum8(c)]
  }

  /** What the receiver of a packet checks. */
  predicate Verifies(b: Text)
    requires |b| >= 6
  {
    b[4] == Sum16(b) % 256 && b[5] == Sum16(b) / 256 % 256 && b[0] == Sum8(b)
  }

  lemma {:induction false} SumUpdate(s: Text, k: nat, c: Byte)
    requires k < |s|
    ensures Sum(s[k := c]) == Sum(s) - s[k] as int + c as int
  {
    var t := s[k := c];
    if k == |s| - 1 {
      assert t[..|s| - 1] == s[..|s| - 1];
    } else {
      assert t[..|s| - 1] == s[..|s| - 1][k := c];
      SumUpdate(s[..|s| - 1], k, c);
    }
  }

  lemma StampedParts(b: Text)
    requires |b| >= 6
    ensures Stamped(b)[6..] == b[6..]
    ensures Stamped(b)[1..6] == [b[1], b[2], b[3], Sum16(b) % 256, Sum16(b) / 256 % 256]
  {
  }

  /** A stamped packet verifies, and stamping leaves its command and its data alone. */
  lemma StampedVerifies(b: Text)
    requires |b| >= 6
    ensures Verifies(Stamped(b)) && |Stamped(b)| == |b|
    ensures forall k | (1 <= k < 4 || 6 <= k < |b|) :: Stamped(b)[k] == b[k]
  {
    StampedParts(b);
    var c := b[4 := Sum16(b) % 256][5 := Sum16(b) / 256 % 256];
    assert c[1..6] == Stamped(b)[1..6];
  }

  /** Verifying packets are exactly the stamped ones. */
  lemma VerifiesIff(b: Text)
    requires |b| >= 6
    ensures Verifies(b) <==> Stamped(b) == b
  {
    var c := b[4 := Sum16(b) % 256][5 := Sum16(b) / 256 % 256];
    if Verifies(b) {
      assert c == b;
    }
    if Stamped(b) == b {
      StampedVerifies(b);
    }
  }

  // ----- changed packets -----

  /** A change of data moves the 16-bit sum. */
  lemma DataChangeDetected(b: Text, k: nat, x: Byte)
    requires |b| >= 6 && Verifies(b) && 6 <= k < |b| && x != b[k]
    ensures !Verifies(b[k := x])
  {
    var c := b[k := x];
    assert c[6..] == b[6..][k - 6 := x];
    SumUpdate(b[6..], k - 6, x);
    SumsDiffer(Sum(b[6..]), x as int - b[k] as int);
  }

  lemma SumsDiffer(s: nat, d: int)
    requires -256 < d < 256 && d != 0 && s + d >= 0
    ensures s % WORD % 256 != (s + d) % WORD % 256 || s % WORD / 256 % 256 != (s + d) % WORD / 256 % 256
  {
    assert s % WORD != (s + d) % WORD;
  }

  /** A change in the command moves the folded sum unless 0 and 255 are exchanged while another of
      the summed bytes is not 0. */
  lemma CommandChangeIff(b: Text, k: nat, x: Byte)
    requires |b| >= 6 && Verifies(b) && 1 <= k < 4 && x != b[k]
    ensures Verifies(b[k := x]) <==>
            ((b[k] == 0 && x == 255) || (b[k] == 255 && x == 0)) && Sum(b[1..6]) != b[k] as int
  {
    var c := b[k := x];
    assert c[6..] == b[6..];
    assert c[1..6] == b[1..6][k - 1 := x];
    SumUpdate(b[1..6], k - 1, x);
    SumUpdate(b[1..6], k - 1, 0);
    FoldIs(Sum(b[1..6]));
    FoldIs(Sum(c[1..6]));
    FoldsAgree(Sum(b[1..6]) - b[k] as int, b[k], x);
  }

  lemma FoldsAgree(rest: nat, u: Byte, v: Byte)
    requires rest <= 1275 && u != v
    ensures (if rest + u as int == 0 then 0 else 1 + (rest + u as int - 1) % 255)
            == (if rest + v as int == 0 then 0 else 1 + (rest + v as int - 1) % 255)
            <==> ((u == 0 && v == 255) || (u == 255 && v == 0)) && rest != 0
  {
  }

  /** Changing a single byte of a good packet is noticed, except for one exchange of 0 and 255 in
      the three command bytes. */
  lemma SingleChangeIff(b: Text, k: nat, x: Byte)
    requires |b| >= 6 && Verifies(b) && k < |b| && x != b[k]
    ensures Verifies(b[k := x]) <==>
            1 <= k < 4 && ((b[k] == 0 && x == 255) || (b[k] == 255 && x == 0)) && Sum(b[1..6]) != b[k] as int
  {
    var c := b[k := x];
    if k >= 6 {
      DataChangeDetected(b, k, x);
    } else if 1 <= k < 4 {
      CommandChangeIff(b, k, x);
    } else if k == 0 {
      assert c[1..6] == b[1..6];
    } else {
      assert c[6..] == b[6..];
    }
  }

  /** A change that is not noticed: the first command byte of a packet goes from 0 to 255. */
  lemma UnnoticedChange()
    ensures var b := Stamped([0, 0, 1, 0, 0, 0]);
      Verifies(b) && b[1] == 0 && Verifies(b[1 := 255]) && b[1 := 255] != b
  {
    var p: Text := [0, 0, 1, 0, 0, 0];
    var b := Stamped(p);
    StampedVerifies(p);
    assert p[6..] == [] && Sum([]) == 0;
    SumOfFive(b[1..6]);
    SingleChangeIff(b, 1, 255);
    assert b[1 := 255][1] != b[1];
  }

  /** normalChecksum8 gathers its sum in 16 bits; it is the byte sum modulo 255 exactly when a
      multiple of 255 words overflowed. */
  lemma NormalCongruentIff(s: nat)
    ensures DoubleFold(s % WORD) % 255 == s % 255 <==> s / WORD % 255 == 0
  {
    hide DoubleFold;
    var r, w := s % WORD, s / WORD;
    assert s == r + 255 * (257 * w) + w;
    FoldIs(r);
    ModAdd(r, 257 * w, w);
  }

  function Full(n: nat): Text {
    if n == 0 then [] else Full(n - 1) + [255]
  }

  lemma {:induction false} SumFull(n: nat)
    ensures Sum(Full(n)) == 255 * n
  {
    if n > 0 {
      SumFull(n - 1);
      assert Full(n)[..|Full(n)| - 1] == Full(n - 1);
    }
  }

  /** One overflow is enough to lose the congruence: 257 bytes 255 and a byte 1 add up to 65536, and
      the sum folds to 0. */
  lemma OverflowLosesCongruence()
    ensures var b := Full(257) + [1];
      DoubleFold(Sum(b) % WORD) % 255 == 0 && Sum(b) % 255 == 1
  {
    var b := Full(257) + [1];
    assert b[..|b| - 1] == Full(257);
    SumFull(257);
    assert Sum(b) == WORD;
  }

  lemma ModAdd(r: nat, q: nat, w: nat)
    ensures (r + 255 * q + w) % 255 == r % 255 <==> w % 255 == 0
  {
  }

  // ----- as they run -----

  lemma SumNext(b: Text, lo: nat, i: nat)
    requires lo <= i < |b|
    ensures Sum(b[lo..i + 1]) == Sum(b[lo..i]) + b[i] as int
  {
    assert b[lo..i + 1][..i - lo] == b[lo..i];
  }

  lemma ModStep(s: nat, x: Byte)
    ensures (s % WORD + x as int) % WORD == (s + x as int) % WORD
  {
  }

  method NormalChecksum8(b: array<Byte>, n: nat) returns (r: Byte)
    requires 1 <= n <= b.Length
    ensures r == DoubleFold(Sum(b[1..n]) % WORD)
    ensures Sum(b[1..n]) / WORD % 255 == 0 <==> r % 255 == Sum(b[1..n]) % 255
  {
    var i, a := 1, 0;
    while i < n
      invariant 1 <= i <= n && a == Sum(b[1..i]) % WORD
    {
      SumNext(b[..], 1, i);
      assert b[..][1..i + 1] == b[1..i + 1] && b[..][1..i] == b[1..i];
      ModStep(Sum(b[1..i]), b[i]);
      a := (a + b[i]) % WORD;
      i := i + 1;
    }
    hide Sum;
    NormalCongruentIff(Sum(b[1..n]));
    FoldSteps(a);
    hide DoubleFold;
    var bb := a / 256;
    a := (a - 256 * bb) + bb;
    bb := a / 256;
    r := (a - 256 * bb) + bb;
  }

  method NormalChecksum(b: array<Byte>, n: nat)
    requires 1 <= n <= b.Length
    modifies b
    ensures b[..] == old(b[..])[0 := DoubleFold(Sum(old(b[1..n])) % WORD)]
  {
    var r := NormalChecksum8(b, n);
    b[0] := r;
  }

  /** The sum of bytes from to n - 1 in an int. */
  method SumBytes(b: array<Byte>, from: nat, n: nat) returns (a: nat)
    requires from <= n <= b.Length
    ensures a == Sum(b[from..n])
  {
    var i := from;
    a := 0;
    while i < n
      invariant from <= i <= n && a == Sum(b[from..i])
    {
      SumNext(b[..], from, i);
      assert b[..][from..i + 1] == b[from..i + 1] && b[..][from..i] == b[from..i];
      a := a + b[i];
      i := i + 1;
    }
  }

  method ExtendedChecksum16(b: array<Byte>, n: nat) returns (a: nat)
    requires 6 <= n <= b.Length
    ensures a == Sum16(b[..n])
  {
    var sum := SumBytes(b, 6, n);
    assert b[..n][6..] == b[6..n];
    a := sum % WORD;
  }

  method ExtendedChecksum8(b: array<Byte>) returns (r: Byte)
    requires 6 <= b.Length
    ensures r == DoubleFold(Sum(b[1..6]))
  {
    var a := SumBytes(b, 1, 6);
    FoldSteps(a);
    hide DoubleFold;
    var bb := a / 256;
    a := (a - 256 * bb) + bb;
    bb := a / 256;
    r := (a - 256 * bb) + bb;
  }

  /** A packet of n bytes is stamped where it stands, and verifies. */
  method ExtendedChecksum(b: array<Byte>, n: nat)
    requires 6 <= n <= b.Length
    modifies b
    ensures b[..n] == Stamped(old(b[..n])) && Verifies(b[..n])
    ensures b[n..] == old(b[n..])
  {
    var a := ExtendedChecksum16(b, n);
    b[4] := a % 256;
    b[5] := a / 256 % 256;
    var r := ExtendedChecksum8(b);
    assert b[..n][1..6] == b[1..6];
    assert b[..n] == old(b[..n])[4 := a % 256][5 := a / 256 % 256];
    b[0] := r;
    StampedVerifies(old(b[..n]));
  }

  // ----- the second implementation -----

  method CalculateChecksum8(buffer: array<Byte>) returns (r: Byte)
    requires 6 <= buffer.Length
    ensures r == DoubleFold(Sum(buffer[1..6]))
  {
    var checksum := SumBytes(buffer, 1, 6);
    FoldSteps(checksum);
    hide DoubleFold;
    var temp := checksum / 256;
    checksum := (checksum - 256 * temp) + temp;
    temp := checksum / 256;
    r := (checksum - 256 * temp) + temp;
  }

  /** The sum is not cut to 16 bits: it is the other implementation's exactly below 65536, and the
      two bytes that are stamped from it are always the same. */
  method CalculateChecksum16(buffer: array<Byte>, len: nat) returns (checksum: nat)
    requires 6 <= len <= buffer.Length
    ensures checksum == Sum(buffer[6..len])
    ensures checksum == Sum16(buffer[..len]) <==> checksum < WORD
    ensures checksum % 256 == Sum16(buffer[..len]) % 256
    ensures checksum / 256 % 256 == Sum16(buffer[..len]) / 256 % 256
  {
    checksum := SumBytes(buffer, 6, len);
    assert buffer[..len][6..] == buffer[6..len];
    SameBytes(checksum);
  }

  lemma SameBytes(s: nat)
    ensures s % 256 == s % WORD % 256 && s / 256 % 256 == s % WORD / 256 % 256
  {
    LowBytes(s / WORD, s % WORD);
  }

  lemma LowBytes(q: nat, r: nat)
    ensures (WORD * q + r) % 256 == r % 256 && (WORD * q + r) / 256 % 256 == r / 256 % 256
  {
    assert WORD * q + r == 256 * (256 * q + r / 256) + r % 256;
    assert (WORD * q + r) / 256 == 256 * q + r / 256;
  }

  const CONFIGU3_COMMAND_LENGTH := 26

  /** The packet that asks for the configuration: nothing but its command bytes and checksums, and
      good for the first implementation. */
  method BuildConfigU3Bytes(sendBuffer: array<Byte>)
    requires sendBuffer.Length >= CONFIGU3_COMMAND_LENGTH
    modifies sendBuffer
    ensures sendBuffer[..26] == [0x0B, 0xF8, 0x0A, 0x08] + seq(22, _ => 0)
    ensures Verifies(sendBuffer[..26])
    ensures sendBuffer[26..] == old(sendBuffer[26..])
  {
    sendBuffer[1] := 0xF8;
    sendBuffer[2] := 0x0A;
    sendBuffer[3] := 0x08;
    sendBuffer[6] := 0;
    var i := 7;
    while i < CONFIGU3_COMMAND_LENGTH
      invariant 7 <= i <= 26
      invariant sendBuffer[1] == 0xF8 && sendBuffer[2] == 0x0A && sendBuffer[3] == 0x08
      invariant forall k | 6 <= k < i :: sendBuffer[k] == 0
      invariant sendBuffer[26..] == old(sendBuffer[26..])
    {
      sendBuffer[i] := 0;
      i := i + 1;
    }
    hide Sum;
    hide DoubleFold;
    SumOfZeros(sendBuffer[6..26]);
    var checksum := CalculateChecksum16(sendBuffer, CONFIGU3_COMMAND_LENGTH);
    sendBuffer[4] := checksum % 256;
    sendBuffer[5] := checksum / 256 % 256;
    var sum := CalculateChecksum8(sendBuffer);
    SumOfFive(sendBuffer[1..6]);
    sendBuffer[0] := sum;
    ConfigPacket(sendBuffer[..26]);
  }

  lemma ConfigPacket(p: Text)
    requires |p| == 26 && p[1] == 0xF8 && p[2] == 0x0A && p[3] == 0x08 && p[0] == DoubleFold(266)
    requires forall k | 4 <= k < 26 :: p[k] == 0
    ensures Verifies(p) && p == [0x0B, 0xF8, 0x0A, 0x08] + seq(22, _ => 0)
  {
    FoldOf266();
    ConfigVerifies(p);
    hide DoubleFold;
    hide Verifies;
    assert |p| == |[0x0B, 0xF8, 0x0A, 0x08] + seq(22, _ => 0)|;
  }

  lemma FoldOf266()
    ensures DoubleFold(266) == 0x0B
  {
    hide DoubleFold;
    FoldIs(266);
  }

  lemma ConfigVerifies(p: Text)
    requires |p| == 26 && p[1] == 0xF8 && p[2] == 0x0A && p[3] == 0x08 && p[0] == DoubleFold(266)
    requires forall k | 4 <= k < 26 :: p[k] == 0
    ensures Verifies(p)
  {
    hide Sum;
    hide DoubleFold;
    SumOfZeros(p[6..]);
    SumOfFive(p[1..6]);
  }

  lemma {:induction false} SumOfZeros(s: Text)
    requires forall k | 0 <= k < |s| :: s[k] == 0
    ensures Sum(s) == 0
  {
    if s != [] { SumOfZeros(s[..|s| - 1]); }
  }

  lemma SumOfFive(s: Text)
    requires |s| == 5
    ensures Sum(s) == s[0] as int + s[1] as int + s[2] as int + s[3] as int + s[4] as int
  {
    SumNext(s, 0, 4);
    SumNext(s, 0, 3);
    SumNext(s, 0, 2);
    SumNext(s, 0, 1);
    SumNext(s, 0, 0);
    assert s[0..5] == s && s[0..0] == [];
  }
}
