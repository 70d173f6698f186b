/** The 32-bit decode tables: four characters become three bytes of one little-endian word. */
module Base64Tables {
  import opened ByteNumbers
  import opened Bytes
  import opened Base64

  const NO_ENTRY: word := 0xFFFF_FFFF

  // The four tables for a character's value, as they are generated; NO_ENTRY stands for any other character.

  function Entry0(q: byte): word {
    if IsValue(q) then (q as word) << 2 else NO_ENTRY
  }

  function Entry1(q: byte): word {
    if IsValue(q) then (((q as word) & 0x30) >> 4) | (((q as word) & 0x0F) << 12) else NO_ENTRY
  }

  function Entry2(q: byte): word {
    if IsValue(q) then (((q as word) & 0x03) << 22) | (((q as word) & 0x3C) << 6) else NO_ENTRY
  }

  function Entry3(q: byte): word {
    if IsValue(q) then (q as word) << 16 else NO_ENTRY
  }

  /** `x.asint` for four characters. */
  function FourEntries(src: text): word
    requires |src| == 4
  {
    Joined(DecChar(src[0]), DecChar(src[1]), DecChar(src[2]), DecChar(src[3]))
  }

  function Joined(a: byte, b: byte, c: byte, d: byte): word {
    Entry0(a) | Entry1(b) | Entry2(c) | Entry3(d)
  }

  /** The most significant bit marks an invalid character. */
  predicate Marked(x: word) {
    x & 0x8000_0000 != 0
  }

  lemma ValuesAreSmall(c: byte)
    requires IsValue(DecChar(c))
    ensures DecChar(c) < 64
  {
  }

  lemma MarkedIff(a: byte, b: byte, c: byte, d: byte)
    requires IsValue(a) ==> a < 64
    requires IsValue(b) ==> b < 64
    requires IsValue(c) ==> c < 64
    requires IsValue(d) ==> d < 64
    ensures !Marked(Joined(a, b, c, d)) <==> IsValue(a) && IsValue(b) && IsValue(c) && IsValue(d)
  {
  }

  lemma JoinedBytes(a: byte, b: byte, c: byte, d: byte)
    requires a < 64 && b < 64 && c < 64 && d < 64
    ensures ByteAt(Joined(a, b, c, d), 0) == Finish2(Rest6(a), b)
    ensures ByteAt(Joined(a, b, c, d), 1) == Finish4(Rest4(b), c)
    ensures ByteAt(Joined(a, b, c, d), 2) == Finish6(Rest2(c), d)
  {
  }
}
