/** Bytes and the numbers below 256, related bit by bit. */
module ByteNumbers {

  type byte = bv8

  datatype Nibble = Nibble(b3: bool, b2: bool, b1: bool, b0: bool)

  datatype Bits = Bits(high: Nibble, low: Nibble)

  function BitsOfByte(b: byte): Bits {
    Bits(Nibble(b & 128 != 0, b & 64 != 0, b & 32 != 0, b & 16 != 0),
         Nibble(b & 8 != 0, b & 4 != 0, b & 2 != 0, b & 1 != 0))
  }

  function ByteOfBits(x: Bits): byte {
    (if x.high.b3 then 128 else 0) | (if x.high.b2 then 64 else 0)
    | (if x.high.b1 then 32 else 0) | (if x.high.b0 then 16 else 0)
    | (if x.low.b3 then 8 else 0) | (if x.low.b2 then 4 else 0)
    | (if x.low.b1 then 2 else 0) | (if x.low.b0 then 1 else 0)
  }

  function ValueOfNibble(x: Nibble): (n: nat)
    ensures n < 16
  {
    (if x.b3 then 8 else 0) + (if x.b2 then 4 else 0) + (if x.b1 then 2 else 0) + (if x.b0 then 1 else 0)
  }

  function NibbleOfValue(n: nat): Nibble
    requires n < 16
  {
    Nibble(n >= 8, n % 8 >= 4, n % 4 >= 2, n % 2 >= 1)
  }

  function ValueOfBits(x: Bits): (n: nat)
    ensures n < 256
  {
    16 * ValueOfNibble(x.high) + ValueOfNibble(x.low)
  }

  function BitsOfValue(n: nat): Bits
    requires n < 256
  {
    Bits(NibbleOfValue(n / 16), NibbleOfValue(n % 16))
  }

  function ByteOf(n: nat): byte
    requires n < 256
  {
    ByteOfBits(BitsOfValue(n))
  }

  function Value(b: byte): (n: nat)
    ensures n < 256
  {
    ValueOfBits(BitsOfByte(b))
  }

  lemma ValueOfNibbleOfValue(n: nat)
    requires n < 16
    ensures ValueOfNibble(NibbleOfValue(n)) == n
  {
  }

  lemma NibbleOfValueOfNibble(x: Nibble)
    ensures NibbleOfValue(ValueOfNibble(x)) == x
  {
  }

  lemma ValueOfBitsOfValue(n: nat)
    requires n < 256
    ensures ValueOfBits(BitsOfValue(n)) == n
  {
    hide ValueOfNibble, NibbleOfValue;
    ValueOfNibbleOfValue(n / 16);
    ValueOfNibbleOfValue(n % 16);
  }

  lemma BitsOfValueOfBits(x: Bits)
    ensures BitsOfValue(ValueOfBits(x)) == x
  {
    hide ValueOfNibble, NibbleOfValue;
    NibbleOfValueOfNibble(x.high);
    NibbleOfValueOfNibble(x.low);
  }

  lemma BitsOfByteOfBits(x: Bits)
    ensures BitsOfByte(ByteOfBits(x)) == x
  {
  }

  lemma ByteOfBitsOfByte(b: byte)
    ensures ByteOfBits(BitsOfByte(b)) == b
  {
  }

  lemma ValueOfByte(n: nat)
    requires n < 256
    ensures Value(ByteOf(n)) == n
  {
    hide BitsOfValue, ValueOfBits, BitsOfByte, ByteOfBits;
    BitsOfByteOfBits(BitsOfValue(n));
    ValueOfBitsOfValue(n);
  }

  lemma ByteOfValue(b: byte)
    ensures ByteOf(Value(b)) == b
  {
    hide BitsOfValue, ValueOfBits, BitsOfByte, ByteOfBits;
    BitsOfValueOfBits(BitsOfByte(b));
    ByteOfBitsOfByte(b);
  }

  lemma ValueIsConversion(b: byte)
    ensures Value(b) == b as nat
  {
  }
}
