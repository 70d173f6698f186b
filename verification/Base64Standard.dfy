/** Base64 by the letter of sections 4 and 10 of RFC 4648: the alphabet, the padding, what every text decodes to. */
module Base64Standard {
  import opened ByteNumbers
  import opened Base64
  import Base64Parallel
  import Base64ParallelDecode
  import Base64Streams

  // ----- the alphabet -----

  const UPPER: string := "ABCDEFGHIJKLMNOPQRSTUVWXYZ"
  const LOWER: string := "abcdefghijklmnopqrstuvwxyz"
  const NUMERALS: string := "0123456789"
  const ALPHABET: string := UPPER + LOWER + NUMERALS + "+/"

  lemma InOrder(k: nat)
    ensures k < 26 ==> UPPER[k] == 'A' + k as char && LOWER[k] == 'a' + k as char
    ensures k < 10 ==> NUMERALS[k] == '0' + k as char
  {
  }

  lemma AlphabetAt(k: nat)
    requires k < 64
    ensures |ALPHABET| == 64
    ensures ALPHABET[k] as nat == if k < 26 then 65 + k
                             else if k < 52 then 97 + (k - 26)
                             else if k < 62 then 48 + (k - 52)
                             else if k == 62 then 43
                             else 47
  {
    InOrder(if k < 26 then k else if k < 52 then k - 26 else if k < 62 then k - 52 else 0);
  }

  lemma EncCharIs(v: byte)
    requires v < 64
    ensures v as nat < 64
    ensures EncChar(v) as nat == if v < 26 then 65 + v as nat
                                 else if v < 52 then 97 + (v as nat - 26)
                                 else if v < 62 then 48 + (v as nat - 52)
                                 else if v == 62 then 43
                                 else 47
    ensures (v < 26 <==> v as nat < 26) && (v < 52 <==> v as nat < 52) && (v < 62 <==> v as nat < 62)
    ensures v == 62 <==> v as nat == 62
  {
  }

  /** The character of the alphabet at place k. */
  predicate AtPlace(c: byte, k: nat) {
    k < 64 && Value(c) == ALPHABET[k] as nat
  }

  /** A value is encoded as the character at that place of the alphabet. */
  lemma EncodesByPlace(v: byte)
    requires v < 64
    ensures Value(v) < 64 && AtPlace(EncChar(v), Value(v))
  {
    hide EncChar, Value;
    EncCharIs(v);
    ValueIsConversion(v);
    ValueIsConversion(EncChar(v));
    AlphabetAt(v as nat);
  }

  lemma DecCharIs(c: byte)
    ensures var n := c as nat;
            && (IsValue(DecChar(c)) <==> 65 <= n <= 90 || 97 <= n <= 122 || 48 <= n <= 57 || n == 43 || n == 47)
            && (IsPad(DecChar(c)) <==> n == 61)
            && (IsValue(DecChar(c)) ==>
                  DecChar(c) as nat == if n == 43 then 62 else if n == 47 then 63
                                       else if n <= 57 then n - 48 + 52 else if n <= 90 then n - 65 else n - 97 + 26)
  {
  }

  ghost predicate InAlphabet(c: byte) {
    exists k :: AtPlace(c, k)
  }

  /** A character is decoded to its place in the alphabet; '=' alone is padding, and everything else is foreign. */
  lemma DecodesByPlace(c: byte)
    ensures forall k: nat :: AtPlace(c, k) <==> IsValue(DecChar(c)) && Value(DecChar(c)) == k
    ensures IsValue(DecChar(c)) <==> InAlphabet(c)
    ensures IsPad(DecChar(c)) <==> Value(c) == 61
  {
    hide DecChar, IsValue, IsPad, Value;
    DecCharIs(c);
    ValueIsConversion(c);
    ValueIsConversion(DecChar(c));
    forall k: nat
      ensures AtPlace(c, k) <==> IsValue(DecChar(c)) && Value(DecChar(c)) == k
    {
      if k < 64 {
        AlphabetAt(k);
      }
    }
    assert IsValue(DecChar(c)) ==> AtPlace(c, Value(DecChar(c)));
  }

  // ----- encoded text -----

  function Pair(x: bool, y: bool): nat {
    (if x then 2 else 0) + if y then 1 else 0
  }

  /** The upper two bits of a nibble as a number, and the lower two. */
  function Upper(x: Nibble): nat {
    Pair(x.b3, x.b2)
  }

  function Lower(x: Nibble): nat {
    Pair(x.b1, x.b0)
  }

  lemma NibbleInPairs(x: Nibble)
    ensures ValueOfNibble(x) == 4 * Upper(x) + Lower(x)
  {
  }

  lemma ValueInPairs(b: byte)
    ensures var x := BitsOfByte(b);
            Value(b) == 64 * Upper(x.high) + 16 * Lower(x.high) + 4 * Upper(x.low) + Lower(x.low)
  {
    hide BitsOfByte, Upper, Lower, ValueOfNibble;
    NibbleInPairs(BitsOfByte(b).high);
    NibbleInPairs(BitsOfByte(b).low);
  }

  predicate HasPairs(b: byte, p3: nat, p2: nat, p1: nat, p0: nat) {
    var x := BitsOfByte(b);
    Upper(x.high) == p3 && Lower(x.high) == p2 && Upper(x.low) == p1 && Lower(x.low) == p0
  }

  lemma ValueOfPairs(b: byte, p3: nat, p2: nat, p1: nat, p0: nat)
    requires HasPairs(b, p3, p2, p1, p0)
    ensures Value(b) == 64 * p3 + 16 * p2 + 4 * p1 + p0
  {
    hide BitsOfByte, Upper, Lower, Value;
    ValueInPairs(b);
  }

  // How the pairs of bits of three bytes are dealt out.

  lemma Sextet0Pairs(a: byte)
    ensures var x := BitsOfByte(a);
            HasPairs(Sextet0(a), 0, Upper(x.high), Lower(x.high), Upper(x.low))
  {
  }

  lemma Sextet1Pairs(a: byte, b: byte)
    ensures var x, y := BitsOfByte(a), BitsOfByte(b);
            HasPairs(Sextet1(a, b), 0, Lower(x.low), Upper(y.high), Lower(y.high))
  {
  }

  lemma Sextet2Pairs(b: byte, c: byte)
    ensures var y, z := BitsOfByte(b), BitsOfByte(c);
            HasPairs(Sextet2(b, c), 0, Upper(y.low), Lower(y.low), Upper(z.high))
  {
  }

  lemma Sextet3Pairs(c: byte)
    ensures var z := BitsOfByte(c);
            HasPairs(Sextet3(c), 0, Lower(z.high), Upper(z.low), Lower(z.low))
  {
  }

  lemma SextetsAreDigits(a: byte, b: byte, c: byte)
    ensures 262144 * Value(Sextet0(a)) + 4096 * Value(Sextet1(a, b)) + 64 * Value(Sextet2(b, c)) + Value(Sextet3(c))
         == 65536 * Value(a) + 256 * Value(b) + Value(c)
  {
    hide BitsOfByte, Upper, Lower, Value, HasPairs, Sextet0, Sextet1, Sextet2, Sextet3;
    var x, y, z := BitsOfByte(a), BitsOfByte(b), BitsOfByte(c);
    ValueInPairs(a);
    ValueInPairs(b);
    ValueInPairs(c);
    Sextet0Pairs(a);
    Sextet1Pairs(a, b);
    Sextet2Pairs(b, c);
    Sextet3Pairs(c);
    ValueOfPairs(Sextet0(a), 0, Upper(x.high), Lower(x.high), Upper(x.low));
    ValueOfPairs(Sextet1(a, b), 0, Lower(x.low), Upper(y.high), Lower(y.high));
    ValueOfPairs(Sextet2(b, c), 0, Upper(y.low), Lower(y.low), Upper(z.high));
    ValueOfPairs(Sextet3(c), 0, Lower(z.high), Upper(z.low), Lower(z.low));
  }

  /** The places of the four characters are the digits, to base 64, of the number of which the bytes are those to base 256. */
  lemma GroupInNumbers(a: byte, b: byte, c: byte) returns (k0: nat, k1: nat, k2: nat, k3: nat)
    ensures k0 < 64 && k1 < 64 && k2 < 64 && k3 < 64
    ensures 262144 * k0 + 4096 * k1 + 64 * k2 + k3 == 65536 * Value(a) + 256 * Value(b) + Value(c)
    ensures var t := Group(a, b, c);
            && AtPlace(t[0], k0) && AtPlace(t[1], k1) && AtPlace(t[2], k2) && AtPlace(t[3], k3)
  {
    hide EncChar, Group, Sextet0, Sextet1, Sextet2, Sextet3, AtPlace, Value;
    GroupSextets(a, b, c);
    SextetsFit(a, b, c);
    EncodesByPlace(Sextet0(a));
    EncodesByPlace(Sextet1(a, b));
    EncodesByPlace(Sextet2(b, c));
    EncodesByPlace(Sextet3(c));
    SextetsAreDigits(a, b, c);
    k0, k1, k2, k3 := Value(Sextet0(a)), Value(Sextet1(a, b)), Value(Sextet2(b, c)), Value(Sextet3(c));
  }

  lemma GroupInAlphabet(a: byte, b: byte, c: byte)
    ensures forall i | 0 <= i < 4 :: InAlphabet(Group(a, b, c)[i])
  {
    hide Group, AtPlace, Value;
    var k0, k1, k2, k3 := GroupInNumbers(a, b, c);
  }

  lemma PadIs()
    ensures Value(PAD) == 61
  {
  }

  function Padding(n: nat): nat {
    if n % 3 == 0 then 0 else if n % 3 == 1 then 2 else 1
  }

  /** Four characters for three bytes, none, one or two '=' at the end, and characters of the alphabet in front of them. */
  lemma {:induction false} RfcShape(s: seq<byte>)
    ensures var t := Rfc(s);
            && |t| == (|s| + 2) / 3 * 4
            && (forall i | 0 <= i < |t| - Padding(|s|) :: InAlphabet(t[i]))
            && (forall i | 0 <= i < |t| :: i >= |t| - Padding(|s|) ==> Value(t[i]) == 61)
    decreases |s|
  {
    hide Group, InAlphabet, Value;
    PadIs();
    if |s| >= 3 {
      GroupInAlphabet(s[0], s[1], s[2]);
      RfcShape(s[3..]);
      assert Padding(|s|) == Padding(|s| - 3);
    } else if |s| > 0 {
      GroupInAlphabet(s[0], if |s| > 1 then s[1] else 0, 0);
    }
  }

  /** The number of byte i of `s`, and zero behind its end. */
  function ByteAt(s: seq<byte>, i: nat): nat {
    if i < |s| then Value(s[i]) else 0
  }

  function GroupOf(s: seq<byte>, j: nat): (g: seq<byte>)
    requires 3 * j < |s|
    ensures 0 < |g| <= 3
  {
    if 3 * j + 3 <= |s| then s[3 * j..3 * j + 3] else s[3 * j..]
  }

  /** A group of bytes is encoded on its own. */
  lemma RfcByGroups(s: seq<byte>, j: nat)
    requires 3 * j < |s|
    ensures |Rfc(s)| >= 4 * j + 4 && Rfc(s)[4 * j..4 * j + 4] == Rfc(GroupOf(s, j))
  {
    hide Rfc, GroupOf;
    var g := GroupOf(s, j);
    GroupInside(s, j);
    var front, rest := s[..3 * j], s[3 * j + |g|..];
    RfcLength(front);
    RfcLength(g);
    Base64Parallel.RfcConcatenates(front, g + rest);
    if |g| == 3 {
      Base64Parallel.RfcConcatenates(g, rest);
      InTheMiddle(Rfc(front), Rfc(g), Rfc(rest));
    } else {
      InTheMiddle(Rfc(front), Rfc(g), []);
    }
  }

  lemma GroupInside(s: seq<byte>, j: nat)
    requires 3 * j < |s|
    ensures var g := GroupOf(s, j);
            && 3 * j + |g| <= |s|
            && s == s[..3 * j] + (g + s[3 * j + |g|..])
            && (|g| < 3 ==> g + s[3 * j + |g|..] == g)
  {
  }

  lemma InTheMiddle(x: text, y: text, z: text)
    ensures (x + (y + z))[|x|..|x| + |y|] == y && y + [] == y
  {
  }

  lemma NoByte()
    ensures Value(0) == 0
  {
  }

  /** Four characters of an encoding in numbers; missing bytes are zero, and their characters are '='. */
  lemma RfcOfGroup(g: seq<byte>) returns (k0: nat, k1: nat, k2: nat, k3: nat)
    requires 0 < |g| <= 3
    ensures k0 < 64 && k1 < 64 && k2 < 64 && k3 < 64
    ensures 262144 * k0 + 4096 * k1 + 64 * k2 + k3 == 65536 * ByteAt(g, 0) + 256 * ByteAt(g, 1) + ByteAt(g, 2)
    ensures |Rfc(g)| == 4 && AtPlace(Rfc(g)[0], k0) && AtPlace(Rfc(g)[1], k1)
    ensures if |g| > 1 then AtPlace(Rfc(g)[2], k2) else Value(Rfc(g)[2]) == 61
    ensures if |g| > 2 then AtPlace(Rfc(g)[3], k3) else Value(Rfc(g)[3]) == 61
  {
    hide Group, AtPlace, Value;
    PadIs();
    NoByte();
    k0, k1, k2, k3 := GroupInNumbers(g[0], if |g| > 1 then g[1] else 0, if |g| > 2 then g[2] else 0);
  }

  /** The test vectors of section 10: "", "f", "fo", "foo", "foob", "fooba" and "foobar". */
  lemma TestVectors()
    ensures Rfc([]) == []
    ensures Rfc([0x66]) == [0x5A, 0x67, 0x3D, 0x3D]
    ensures Rfc([0x66, 0x6F]) == [0x5A, 0x6D, 0x38, 0x3D]
    ensures Rfc([0x66, 0x6F, 0x6F]) == [0x5A, 0x6D, 0x39, 0x76]
    ensures Rfc([0x66, 0x6F, 0x6F, 0x62]) == [0x5A, 0x6D, 0x39, 0x76, 0x59, 0x67, 0x3D, 0x3D]
    ensures Rfc([0x66, 0x6F, 0x6F, 0x62, 0x61]) == [0x5A, 0x6D, 0x39, 0x76, 0x59, 0x6D, 0x45, 0x3D]
    ensures Rfc([0x66, 0x6F, 0x6F, 0x62, 0x61, 0x72]) == [0x5A, 0x6D, 0x39, 0x76, 0x59, 0x6D, 0x46, 0x79]
  {
    hide Group;
    TestGroups();
    assert [0x66 as byte, 0x6F, 0x6F, 0x62][3..] == [0x62];
    assert [0x66 as byte, 0x6F, 0x6F, 0x62, 0x61][3..] == [0x62, 0x61];
    assert [0x66 as byte, 0x6F, 0x6F, 0x62, 0x61, 0x72][3..] == [0x62, 0x61, 0x72];
  }

  lemma TestGroups()
    ensures Group(0x66, 0, 0)[..2] == [0x5A, 0x67]
    ensures Group(0x66, 0x6F, 0)[..3] == [0x5A, 0x6D, 0x38]
    ensures Group(0x66, 0x6F, 0x6F) == [0x5A, 0x6D, 0x39, 0x76]
    ensures Group(0x62, 0, 0)[..2] == [0x59, 0x67]
    ensures Group(0x62, 0x61, 0)[..3] == [0x59, 0x6D, 0x45]
    ensures Group(0x62, 0x61, 0x72) == [0x59, 0x6D, 0x46, 0x79]
  {
  }

  // ----- decoded text -----

  /** The place of character i, and zero from the first character on that has none. */
  function PlaceAt(t: text, i: nat): nat {
    if i < FirstForeign(t) then Value(DecChar(t[i])) else 0
  }

  lemma BytesOfSextets(q0: byte, q1: byte, q2: byte, q3: byte)
    requires q0 < 64 && q1 < 64 && q2 < 64 && q3 < 64
    ensures 65536 * Value(Finish2(Rest6(q0), q1)) + 256 * Value(Finish4(Rest4(q1), q2)) + Value(Finish6(Rest2(q2), q3))
         == 262144 * Value(q0) + 4096 * Value(q1) + 64 * Value(q2) + Value(q3)
  {
    hide Value, Finish2, Finish4, Finish6, Rest6, Rest4, Rest2;
    var a, b, c := Finish2(Rest6(q0), q1), Finish4(Rest4(q1), q2), Finish6(Rest2(q2), q3);
    SextetsOfBytes(q0, q1, q2, q3);
    SextetsAreDigits(a, b, c);
  }

  lemma SextetsOfBytes(q0: byte, q1: byte, q2: byte, q3: byte)
    requires q0 < 64 && q1 < 64 && q2 < 64 && q3 < 64
    ensures var a, b, c := Finish2(Rest6(q0), q1), Finish4(Rest4(q1), q2), Finish6(Rest2(q2), q3);
            Sextet0(a) == q0 && Sextet1(a, b) == q1 && Sextet2(b, c) == q2 && Sextet3(c) == q3
  {
  }

  /** The bytes that the characters in front give, one step after the other. */
  lemma FrontBytes(t: text, q0: byte, q1: byte, q2: byte, q3: byte)
    requires var p := FirstForeign(t);
             && p >= 2 && q0 == DecChar(t[0]) && q1 == DecChar(t[1])
             && (p > 2 ==> q2 == DecChar(t[2])) && (p > 3 ==> q3 == DecChar(t[3]))
    ensures var d := DecodedBytes(t);
            && |d| == FirstForeign(t) * 3 / 4
            && d[0] == Finish2(Rest6(q0), q1)
            && (|d| > 1 ==> d[1] == Finish4(Rest4(q1), q2))
            && (|d| > 2 ==> d[2] == Finish6(Rest2(q2), q3))
  {
    hide DecChar, DecodeLoop, FirstForeign, NextState, Emits, Rest6, Rest4, Rest2, Finish2, Finish4, Finish6;
    DecodedLength(t);
    FrontEmits(q0, q1, q2, q3);
    var st1 := NextState(DEC_START, q0);
    var st2 := NextState(st1, q1);
    var st3 := NextState(st2, q2);
    OneStep(DEC_START, t);
    OneStep(st1, t[1..]);
    if FirstForeign(t) > 2 {
      OneStep(st2, t[2..]);
    }
    if FirstForeign(t) > 3 {
      OneStep(st3, t[3..]);
      ThreeInFront(Finish2(Rest6(q0), q1), Finish4(Rest4(q1), q2), Finish6(Rest2(q2), q3),
                   DecodeLoop(NextState(st3, q3), t[3..][1..]).out);
    }
  }

  lemma FrontEmits(q0: byte, q1: byte, q2: byte, q3: byte)
    ensures var st1 := NextState(DEC_START, q0);
            var st2 := NextState(st1, q1);
            && Emits(DEC_START, q0) == []
            && Emits(st1, q1) == [Finish2(Rest6(q0), q1)]
            && Emits(st2, q2) == [Finish4(Rest4(q1), q2)]
            && Emits(NextState(st2, q2), q3) == [Finish6(Rest2(q2), q3)]
  {
    hide Rest6, Rest4, Rest2, Finish2, Finish4, Finish6;
  }

  lemma OneStep(st: DecState, t: text)
    requires |t| > 0 && FirstForeign(t) > 0
    ensures DecodeLoop(st, t).out == Emits(st, DecChar(t[0])) + DecodeLoop(NextState(st, DecChar(t[0])), t[1..]).out
    ensures FirstForeign(t[1..]) == FirstForeign(t) - 1
  {
    hide DecChar, NextState, Emits;
  }

  /** The number of byte i of the decoded text. */
  predicate Has(d: seq<byte>, i: nat, n: nat) {
    i < |d| ==> Value(d[i]) == n
  }

  /** The group in front, in numbers. */
  lemma FrontInNumbers(t: text) returns (n0: nat, n1: nat, n2: nat)
    requires FirstForeign(t) >= 2
    ensures n0 < 256 && n1 < 256 && n2 < 256
    ensures 65536 * n0 + 256 * n1 + n2
         == 262144 * PlaceAt(t, 0) + 4096 * PlaceAt(t, 1) + 64 * PlaceAt(t, 2) + PlaceAt(t, 3)
    ensures Has(DecodedBytes(t), 0, n0) && Has(DecodedBytes(t), 1, n1) && Has(DecodedBytes(t), 2, n2)
  {
    hide DecChar, DecodedBytes, FirstForeign, Value, BytesFor, Rest6, Rest4, Rest2, Finish2, Finish4, Finish6;
    var p := FirstForeign(t);
    var q0, q1 := DecChar(t[0]), DecChar(t[1]);
    var q2 := if p > 2 then DecChar(t[2]) else 0;
    var q3 := if p > 3 then DecChar(t[3]) else 0;
    NoByte();
    PlacesFit(t);
    FrontBytes(t, q0, q1, q2, q3);
    BytesOfSextets(q0, q1, q2, q3);
    n0, n1, n2 := Value(Finish2(Rest6(q0), q1)), Value(Finish4(Rest4(q1), q2)), Value(Finish6(Rest2(q2), q3));
  }

  lemma PlacesFit(t: text)
    ensures forall i | 0 <= i < FirstForeign(t) :: DecChar(t[i]) < 64
  {
    hide FirstForeign;
    forall i | 0 <= i < FirstForeign(t)
      ensures DecChar(t[i]) < 64
    {
      assert IsValue(DecChar(t[i]));
      ValuesFit(t[i]);
    }
  }

  lemma ValuesFit(c: byte)
    requires IsValue(DecChar(c))
    ensures DecChar(c) < 64
  {
  }

  /**
   What any text decodes to: three bytes for four characters of the alphabet, up to the first character that is none,
   each three the digits to base 256 of the number whose digits to base 64 are the places of the four; characters that
   are missing in the last group count as zero.
   */
  lemma DecodedInNumbers(t: text, j: nat) returns (n0: nat, n1: nat, n2: nat)
    requires 4 * j + 1 < FirstForeign(t)
    ensures |DecodedBytes(t)| == FirstForeign(t) * 3 / 4
    ensures n0 < 256 && n1 < 256 && n2 < 256
    ensures 65536 * n0 + 256 * n1 + n2
         == 262144 * PlaceAt(t, 4 * j) + 4096 * PlaceAt(t, 4 * j + 1) + 64 * PlaceAt(t, 4 * j + 2) + PlaceAt(t, 4 * j + 3)
    ensures var d := DecodedBytes(t);
            Has(d, 3 * j, n0) && Has(d, 3 * j + 1, n1) && Has(d, 3 * j + 2, n2)
  {
    hide DecChar, DecodedBytes, FirstForeign, Value;
    DecodedLength(t);
    var a, b := t[..4 * j], t[4 * j..];
    assert a + b == t;
    if j > 0 {
      Base64Streams.ForeignInBlock(t, 4 * j);
    } else {
      assert b == t;
      Base64Streams.NoForeign(t);
    }
    Base64ParallelDecode.UnpaddedDecodes(a, b);
    n0, n1, n2 := FrontInNumbers(b);
  }

  lemma DecodedLength(t: text)
    ensures |DecodedBytes(t)| == FirstForeign(t) * 3 / 4
  {
    hide DecodeLoop, FirstForeign;
    LoopWrites(DEC_START, t);
  }
}
