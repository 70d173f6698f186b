/** Bytes, 32-bit words and the little-endian layouts the packets use. */
module Bytes {
  import opened ByteNumbers

  type word = bv32

  function Xor(a: word, b: word): word {
    a ^ b
  }

  function Widen(b: byte): word {
    b as word
  }

  /** A byte in lane k of a word, lane 0 being the least significant. */
  function Lane(b: byte, k: nat): word
    requires k < 4
  {
    if k == 0 then Widen(b) else if k == 1 then Widen(b) << 8 else if k == 2 then Widen(b) << 16 else Widen(b) << 24
  }

  function ByteAt(w: word, k: nat): byte
    requires k < 4
  {
    if k == 0 then (w & 0xFF) as byte
    else if k == 1 then ((w >> 8) & 0xFF) as byte
    else if k == 2 then ((w >> 16) & 0xFF) as byte
    else ((w >> 24) & 0xFF) as byte
  }

  /** The four bytes of a word as `memcpy` lays them out on a little-endian machine. */
  function WordBytes(w: word): (s: seq<byte>)
    ensures |s| == 4
  {
    [ByteAt(w, 0), ByteAt(w, 1), ByteAt(w, 2), ByteAt(w, 3)]
  }

  /** A little-endian word load from four consecutive bytes. */
  function LoadWord(s: seq<byte>): word
    requires |s| == 4
  {
    Xor(Xor(Xor(Lane(s[0], 0), Lane(s[1], 1)), Lane(s[2], 2)), Lane(s[3], 3))
  }

  lemma LoadStored(w: word)
    ensures LoadWord(WordBytes(w)) == w
  {
  }

  lemma StoreLoaded(s: seq<byte>)
    requires |s| == 4
    ensures WordBytes(LoadWord(s)) == s
  {
    hide Xor, Lane, ByteAt;
    BytesOfLanes(s[0], s[1], s[2], s[3]);
  }

  lemma BytesOfLanes(b0: byte, b1: byte, b2: byte, b3: byte)
    ensures var w := Xor(Xor(Xor(Lane(b0, 0), Lane(b1, 1)), Lane(b2, 2)), Lane(b3, 3));
            ByteAt(w, 0) == b0 && ByteAt(w, 1) == b1 && ByteAt(w, 2) == b2 && ByteAt(w, 3) == b3
  {
  }

  /** A 32-bit length as its four little-endian bytes. */
  function LengthBytes(n: nat): (s: seq<byte>)
    requires n < 0x1_0000_0000
    ensures |s| == 4
  {
    [ByteOf(n % 256), ByteOf(n / 256 % 256), ByteOf(n / 65536 % 256), ByteOf(n / 16777216)]
  }

  /** The length that four little-endian bytes denote. */
  function LoadLength(s: seq<byte>): (n: nat)
    requires |s| == 4
    ensures n < 0x1_0000_0000
  {
    Value(s[0]) + 256 * Value(s[1]) + 65536 * Value(s[2]) + 16777216 * Value(s[3])
  }

  lemma LoadStoredLength(n: nat)
    requires n < 0x1_0000_0000
    ensures LoadLength(LengthBytes(n)) == n
  {
    hide ByteOf, Value;
    ValueOfByte(n % 256);
    ValueOfByte(n / 256 % 256);
    ValueOfByte(n / 65536 % 256);
    ValueOfByte(n / 16777216);
    SumOfDigits(n);
  }

  lemma StoreLoadedLength(s: seq<byte>)
    requires |s| == 4
    ensures LengthBytes(LoadLength(s)) == s
  {
    hide ByteOf, Value;
    DigitsOfSum(Value(s[0]), Value(s[1]), Value(s[2]), Value(s[3]));
    ByteOfValue(s[0]);
    ByteOfValue(s[1]);
    ByteOfValue(s[2]);
    ByteOfValue(s[3]);
  }

  lemma SumOfDigits(n: nat)
    ensures n == n % 256 + 256 * (n / 256 % 256) + 65536 * (n / 65536 % 256) + 16777216 * (n / 16777216)
  {
    assert n / 65536 == n / 256 / 256;
    assert n / 16777216 == n / 65536 / 256;
  }

  lemma DigitsOfSum(a: nat, b: nat, c: nat, d: nat)
    requires a < 256 && b < 256 && c < 256 && d < 256
    ensures var n := a + 256 * b + 65536 * c + 16777216 * d;
            n % 256 == a && n / 256 % 256 == b && n / 65536 % 256 == c && n / 16777216 == d
  {
    var n := a + 256 * b + 65536 * c + 16777216 * d;
    assert n / 256 == b + 256 * c + 65536 * d;
    assert n / 65536 == c + 256 * d;
  }
}
