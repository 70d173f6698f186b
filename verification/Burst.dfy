/**
 Why a CRC-32 protects a packet: a string followed by its own CRC always leaves the register
 at one fixed value, and damage confined to four consecutive bytes always moves it elsewhere.
 */
module Burst {
  import opened ByteNumbers
  import opened Bytes
  import opened Register

  /** The register after a string and its own CRC. */
  const RESIDUE: word := Shift(0xFFFF_FFFF, 32)

  lemma ResidueIffCrc(payload: seq<byte>, check: seq<byte>)
    requires |check| == 4
    ensures LoadWord(check) == Crc(payload, 0) <==> Run(0xFFFF_FFFF, payload + check) == RESIDUE
  {
    hide Xor, Run, Shift, LoadWord, Complement;
    var state := Run(0xFFFF_FFFF, payload);
    ComplementOfZero();
    RunConcatenates(0xFFFF_FFFF, payload, check);
    RunWord(state, check);
    XorToOnes(state, LoadWord(check));
    if Run(0xFFFF_FFFF, payload + check) == RESIDUE {
      ShiftIsInjective(Xor(state, LoadWord(check)), 0xFFFF_FFFF, 32);
    }
  }

  lemma ComplementOfZero()
    ensures Complement(0) == 0xFFFF_FFFF
  {
  }

  lemma XorToOnes(a: word, b: word)
    ensures Xor(a, b) == 0xFFFF_FFFF <==> b == Complement(a)
  {
    hide Xor, Complement;
    XorComplement(a);
    if Xor(a, b) == 0xFFFF_FFFF {
      XorCommutes(a, b);
      XorCommutes(a, Complement(a));
      XorCancels(b, Complement(a), a);
    }
  }

  lemma XorComplement(a: word)
    ensures Xor(a, Complement(a)) == 0xFFFF_FFFF
  {
  }

  /** Four bytes determine the register change: the register is exactly 32 bits wide. */
  lemma RunWordIsInjective(c: word, x: seq<byte>, y: seq<byte>)
    requires |x| == |y| == 4
    requires Run(c, x) == Run(c, y)
    ensures x == y
  {
    hide Xor, Run, Shift, LoadWord, WordBytes;
    RunWord(c, x);
    RunWord(c, y);
    ShiftIsInjective(Xor(c, LoadWord(x)), Xor(c, LoadWord(y)), 32);
    XorCommutes(c, LoadWord(x));
    XorCommutes(c, LoadWord(y));
    XorCancels(LoadWord(x), LoadWord(y), c);
    StoreLoaded(x);
    StoreLoaded(y);
  }

  lemma RunShortIsInjective(c: word, x: seq<byte>, y: seq<byte>)
    requires |x| == |y| <= 4
    requires Run(c, x) == Run(c, y)
    ensures x == y
  {
    hide Run;
    var pad := seq(4 - |x|, i => 0 as byte);
    RunConcatenates(c, x, pad);
    RunConcatenates(c, y, pad);
    RunWordIsInjective(c, x + pad, y + pad);
    assert x == (x + pad)[..|x|];
    assert y == (y + pad)[..|y|];
  }

  /** Two strings of one length that differ only inside [at, at + width). */
  ghost predicate DifferOnlyWithin(a: seq<byte>, b: seq<byte>, at: nat, width: nat) {
    && |a| == |b|
    && at + width <= |a|
    && a != b
    && forall i | 0 <= i < |a| && !(at <= i < at + width) :: a[i] == b[i]
  }

  lemma AlignedBurstMovesRegister(c: word, a: seq<byte>, b: seq<byte>, at: nat, width: nat)
    requires width <= 4
    requires DifferOnlyWithin(a, b, at, width)
    ensures Run(c, a) != Run(c, b)
  {
    hide Run;
    if Run(c, a) == Run(c, b) {
      var head, x, y, tail := a[..at], a[at..at + width], b[at..at + width], a[at + width..];
      assert a == head + x + tail;
      assert b == head + y + tail;
      RunConcatenates(c, head + x, tail);
      RunConcatenates(c, head + y, tail);
      RunIsInjective(Run(c, head + x), Run(c, head + y), tail);
      RunConcatenates(c, head, x);
      RunConcatenates(c, head, y);
      RunShortIsInjective(Run(c, head), x, y);
      assert false;
    }
  }

  // ----- bursts that are not aligned to bytes -----

  /** The s low bits of a byte. The register takes a byte's low bit first. */
  function LowBits(s: nat): byte {
    if s == 0 then 0 else (LowBits(s - 1) << 1) | 1
  }

  function Difference(x: byte, y: byte): byte {
    x ^ y
  }

  predicate ClearBelow(d: byte, s: nat) {
    d & LowBits(s) == 0
  }

  predicate ClearFrom(d: byte, s: nat) {
    d & !LowBits(s) == 0
  }

  /** Two strings of one length that differ only in 32 consecutive bits, from bit s of byte `at`. */
  ghost predicate DifferOnlyIn32Bits(a: seq<byte>, b: seq<byte>, at: nat, s: nat) {
    && |a| == |b|
    && 0 < s < 8
    && at + 5 <= |a|
    && a != b
    && (forall i | 0 <= i < |a| && !(at <= i < at + 5) :: a[i] == b[i])
    && ClearBelow(Difference(a[at], b[at]), s)
    && ClearFrom(Difference(a[at + 4], b[at + 4]), s)
  }

  predicate LowZero(c: word, n: nat)
    decreases n
  {
    n == 0 || (!Odd(c) && LowZero(Half(c), n - 1))
  }

  function Drop(c: word, n: nat): word
    decreases n
  {
    if n == 0 then c else Drop(Half(c), n - 1)
  }

  lemma {:induction false} ShiftDropsLowZeros(c: word, n: nat)
    requires LowZero(c, n)
    ensures Shift(c, n) == Drop(c, n)
    decreases n
  {
    hide Step, Half, Odd;
    if n > 0 {
      StepOfEven(c);
      ShiftAdds(c, 1, n - 1);
      assert Shift(c, 1) == Step(c);
      ShiftDropsLowZeros(Half(c), n - 1);
    }
  }

  lemma DropFew(c: word)
    ensures Drop(c, 1) == c >> 1 && Drop(c, 2) == c >> 2 && Drop(c, 3) == c >> 3 && Drop(c, 4) == c >> 4
    ensures Drop(c, 5) == c >> 5 && Drop(c, 6) == c >> 6 && Drop(c, 7) == c >> 7
  {
    hide Half;
    HalvesCompose(c);
    assert Drop(c, 1) == Half(c);
    assert Drop(Half(c), 1) == Half(Half(c));
  }

  lemma LowFew(c: word)
    ensures LowZero(c, 1) == (c & 0x01 == 0) && LowZero(c, 2) == (c & 0x03 == 0)
    ensures LowZero(c, 3) == (c & 0x07 == 0) && LowZero(c, 4) == (c & 0x0F == 0)
    ensures LowZero(c, 5) == (c & 0x1F == 0) && LowZero(c, 6) == (c & 0x3F == 0)
    ensures LowZero(c, 7) == (c & 0x7F == 0)
  {
    hide Half, Odd;
    HalvesCompose(c);
    OddBits(c);
    assert LowZero(c, 1) == !Odd(c);
    assert LowZero(c, 2) == (!Odd(c) && !Odd(c >> 1));
    assert LowZero(c, 3) == (!Odd(c) && LowZero(c >> 1, 2));
  }

  lemma OddBits(c: word)
    ensures (c & 0x01 == 0) == !Odd(c)
    ensures (c & 0x03 == 0) == (!Odd(c) && !Odd(c >> 1))
    ensures (c & 0x07 == 0) == (!Odd(c) && !Odd(c >> 1) && !Odd(c >> 2))
    ensures (c & 0x0F == 0) == (!Odd(c) && !Odd(c >> 1) && !Odd(c >> 2) && !Odd(c >> 3))
    ensures (c & 0x1F == 0) == (!Odd(c) && !Odd(c >> 1) && !Odd(c >> 2) && !Odd(c >> 3) && !Odd(c >> 4))
    ensures (c & 0x3F == 0)
         == (!Odd(c) && !Odd(c >> 1) && !Odd(c >> 2) && !Odd(c >> 3) && !Odd(c >> 4) && !Odd(c >> 5))
    ensures (c & 0x7F == 0)
         == (!Odd(c) && !Odd(c >> 1) && !Odd(c >> 2) && !Odd(c >> 3) && !Odd(c >> 4) && !Odd(c >> 5) && !Odd(c >> 6))
  {
  }

  /** The s low bits of a byte, moved to its top. */
  function Top(d: byte, s: nat): byte
    requires 0 < s < 8
  {
    if s == 1 then d << 7
    else if s == 2 then d << 6
    else if s == 3 then d << 5
    else if s == 4 then d << 4
    else if s == 5 then d << 3
    else if s == 6 then d << 2
    else d << 1
  }

  lemma LowBitsFew()
    ensures LowBits(1) == 0x01 && LowBits(2) == 0x03 && LowBits(3) == 0x07 && LowBits(4) == 0x0F
    ensures LowBits(5) == 0x1F && LowBits(6) == 0x3F && LowBits(7) == 0x7F
  {
  }

  lemma TopRaw(d: byte)
    ensures ((d << 7) as word) & 0x7F == 0 && (d & 0xFE == 0 ==> ((d << 7) as word) >> 7 == d as word)
    ensures ((d << 6) as word) & 0x3F == 0 && (d & 0xFC == 0 ==> ((d << 6) as word) >> 6 == d as word)
    ensures ((d << 5) as word) & 0x1F == 0 && (d & 0xF8 == 0 ==> ((d << 5) as word) >> 5 == d as word)
    ensures ((d << 4) as word) & 0x0F == 0 && (d & 0xF0 == 0 ==> ((d << 4) as word) >> 4 == d as word)
    ensures ((d << 3) as word) & 0x07 == 0 && (d & 0xE0 == 0 ==> ((d << 3) as word) >> 3 == d as word)
    ensures ((d << 2) as word) & 0x03 == 0 && (d & 0xC0 == 0 ==> ((d << 2) as word) >> 2 == d as word)
    ensures ((d << 1) as word) & 0x01 == 0 && (d & 0x80 == 0 ==> ((d << 1) as word) >> 1 == d as word)
  {
  }

  lemma OverlapRaw(w: word, d: byte)
    ensures w & 0x01 == 0 && w >> 1 == ((d << 7) as word) << 24 ==> w == 0
    ensures w & 0x03 == 0 && w >> 2 == ((d << 6) as word) << 24 ==> w == 0
    ensures w & 0x07 == 0 && w >> 3 == ((d << 5) as word) << 24 ==> w == 0
    ensures w & 0x0F == 0 && w >> 4 == ((d << 4) as word) << 24 ==> w == 0
    ensures w & 0x1F == 0 && w >> 5 == ((d << 3) as word) << 24 ==> w == 0
    ensures w & 0x3F == 0 && w >> 6 == ((d << 2) as word) << 24 ==> w == 0
    ensures w & 0x7F == 0 && w >> 7 == ((d << 1) as word) << 24 ==> w == 0
  {
  }

  lemma TopDropsBack(d: byte, s: nat)
    requires 0 < s < 8
    requires ClearFrom(d, s)
    ensures LowZero(Widen(Top(d, s)), 8 - s) && Drop(Widen(Top(d, s)), 8 - s) == Widen(d)
  {
    hide LowZero, Drop, LowBits;
    LowFew(Widen(Top(d, s)));
    DropFew(Widen(Top(d, s)));
    LowBitsFew();
    TopRaw(d);
  }

  lemma TopMeetsNothing(w: word, d: byte, s: nat)
    requires 0 < s < 8
    requires LowZero(w, s) && Drop(w, s) == Lane(Top(d, s), 3)
    ensures w == 0
  {
    hide LowZero, Drop;
    LowFew(w);
    DropFew(w);
    OverlapRaw(w, d);
  }

  /** A word without its s low bits never shifts to s low bits, unless it is zero. */
  lemma NoUnalignedBurst(w: word, d: byte, s: nat)
    requires 0 < s < 8
    requires LowZero(w, s) && ClearFrom(d, s)
    requires Shift(w, 32) == Widen(d)
    ensures w == 0
  {
    hide LowZero, Drop, ClearFrom, Top, Lane, Widen, Shift;
    var top := Top(d, s);
    TopDropsBack(d, s);
    ShiftDropsLowZeros(Widen(top), 8 - s);
    ShiftByLane(top, 3);
    ShiftAdds(Lane(top, 3), 24, 8 - s);
    ShiftAdds(w, s, 32 - s);
    ShiftIsInjective(Shift(w, s), Lane(top, 3), 32 - s);
    ShiftDropsLowZeros(w, s);
    TopMeetsNothing(w, d, s);
  }

  function Lowest(w: word): word {
    w & 0xFF
  }

  lemma LowestLane(x: seq<byte>, y: seq<byte>)
    requires |x| == |y| == 4
    ensures Lowest(Xor(LoadWord(x), LoadWord(y))) == Widen(Difference(x[0], y[0]))
  {
    hide Xor, LoadWord, Widen, Lowest, Difference;
    LowestByteOfWord(x);
    LowestByteOfWord(y);
    LowestOfXor(LoadWord(x), LoadWord(y));
    WidenOfDifference(x[0], y[0]);
  }

  lemma LowestByteOfWord(x: seq<byte>)
    requires |x| == 4
    ensures Lowest(LoadWord(x)) == Widen(x[0])
  {
    hide Xor, Lane, Widen, Lowest;
    LowestLaneOf(x[0], x[1], x[2], x[3]);
  }

  lemma LowestLaneOf(b0: byte, b1: byte, b2: byte, b3: byte)
    ensures Lowest(Xor(Xor(Xor(Lane(b0, 0), Lane(b1, 1)), Lane(b2, 2)), Lane(b3, 3))) == Widen(b0)
  {
  }

  lemma LowestOfXor(v: word, w: word)
    ensures Lowest(Xor(v, w)) == Xor(Lowest(v), Lowest(w))
  {
  }

  lemma WidenOfDifference(x: byte, y: byte)
    ensures Widen(Difference(x, y)) == Xor(Widen(x), Widen(y))
  {
  }

  lemma LowZeroOfLowestByte(w: word, d: byte, s: nat)
    requires 0 < s < 8
    requires Lowest(w) == Widen(d)
    requires ClearBelow(d, s)
    ensures LowZero(w, s)
  {
    hide LowZero;
    LowFew(w);
    LowBitsFew();
  }

  lemma RearrangeXor(k: word, u: word, v: word, p: word, q: word)
    requires Xor(Xor(k, u), p) == Xor(Xor(k, v), q)
    ensures Xor(u, v) == Xor(p, q)
  {
    hide Xor;
    XorCommutes(k, u);
    XorCommutes(k, v);
    XorAssociates(u, k, p);
    XorAssociates(v, k, q);
    XorSwapsMiddle(u, Xor(k, p), v, Xor(k, q));
    XorSelf(Xor(u, Xor(k, p)));
    XorSwapsMiddle(k, p, k, q);
    XorSelf(k);
    XorZero(Xor(p, q));
    XorToZero(Xor(u, v), Xor(p, q));
  }

  lemma XorSelf(a: word)
    ensures Xor(a, a) == 0
  {
  }

  lemma XorToZero(a: word, b: word)
    requires Xor(a, b) == 0
    ensures a == b
  {
  }

  /** Five bytes that differ only in 32 consecutive bits are told apart from any register. */
  lemma RunFiveTellsApart(c: word, x: seq<byte>, y: seq<byte>, s: nat)
    requires |x| == |y| == 5 && 0 < s < 8
    requires ClearBelow(Difference(x[0], y[0]), s) && ClearFrom(Difference(x[4], y[4]), s)
    requires Run(c, x) == Run(c, y)
    ensures x == y
  {
    hide Xor, Run, Shift, Widen, LoadWord, WordBytes, Difference, ClearBelow, ClearFrom, LowZero;
    var x4, y4 := x[..4], y[..4];
    var u, v := LoadWord(x4), LoadWord(y4);
    RunFive(c, x);
    RunFive(c, y);
    ShiftIsInjective(Xor(Run(c, x4), Widen(x[4])), Xor(Run(c, y4), Widen(y[4])), 8);
    RunWord(c, x4);
    RunWord(c, y4);
    ShiftIsLinear(c, u, 32);
    ShiftIsLinear(c, v, 32);
    RearrangeXor(Shift(c, 32), Shift(u, 32), Shift(v, 32), Widen(x[4]), Widen(y[4]));
    ShiftIsLinear(u, v, 32);
    WidenOfDifference(x[4], y[4]);
    LowestLane(x4, y4);
    LowZeroOfLowestByte(Xor(u, v), Difference(x[0], y[0]), s);
    NoUnalignedBurst(Xor(u, v), Difference(x[4], y[4]), s);
    XorToZero(u, v);
    StoreLoaded(x4);
    StoreLoaded(y4);
    ShiftOfZero(32);
    XorToZero(Widen(x[4]), Widen(y[4]));
    WidenIsInjective(x[4], y[4]);
    assert x == x4 + [x[4]] && y == y4 + [y[4]];
  }

  lemma RunFive(c: word, x: seq<byte>)
    requires |x| == 5
    ensures Run(c, x) == Shift(Xor(Run(c, x[..4]), Widen(x[4])), 8)
  {
  }

  lemma WidenIsInjective(x: byte, y: byte)
    requires Widen(x) == Widen(y)
    ensures x == y
  {
  }

  lemma UnalignedBurstMovesRegister(c: word, a: seq<byte>, b: seq<byte>, at: nat, s: nat)
    requires DifferOnlyIn32Bits(a, b, at, s)
    ensures Run(c, a) != Run(c, b)
  {
    hide Run, Difference, ClearBelow, ClearFrom;
    if Run(c, a) == Run(c, b) {
      var head, x, y, tail := a[..at], a[at..at + 5], b[at..at + 5], a[at + 5..];
      assert a == head + x + tail;
      assert b == head + y + tail;
      RunConcatenates(c, head + x, tail);
      RunConcatenates(c, head + y, tail);
      RunIsInjective(Run(c, head + x), Run(c, head + y), tail);
      RunConcatenates(c, head, x);
      RunConcatenates(c, head, y);
      RunFiveTellsApart(Run(c, head), x, y, s);
      assert false;
    }
  }

  // ----- any burst of 32 bits -----

  /** All the damage lies within four consecutive bytes or, not aligned, within 32 consecutive bits. */
  ghost predicate OneBurst(a: seq<byte>, b: seq<byte>) {
    || (exists at, width | width <= 4 :: DifferOnlyWithin(a, b, at, width))
    || exists at, s :: DifferOnlyIn32Bits(a, b, at, s)
  }

  lemma BurstMovesRegister(c: word, a: seq<byte>, b: seq<byte>)
    requires OneBurst(a, b)
    ensures Run(c, a) != Run(c, b)
  {
    hide Run;
    if at, width :| width <= 4 && DifferOnlyWithin(a, b, at, width) {
      AlignedBurstMovesRegister(c, a, b, at, width);
    } else {
      var at, s :| DifferOnlyIn32Bits(a, b, at, s);
      UnalignedBurstMovesRegister(c, a, b, at, s);
    }
  }

  /** One burst of up to 32 bits always changes the CRC. */
  lemma BurstChangesCrc(a: seq<byte>, b: seq<byte>, previous: word)
    requires OneBurst(a, b)
    ensures Crc(a, previous) != Crc(b, previous)
  {
    hide Run, Complement;
    BurstMovesRegister(Complement(previous), a, b);
    ComplementTwice(Run(Complement(previous), a));
    ComplementTwice(Run(Complement(previous), b));
  }

  /** One burst in a checked string is noticed wherever it falls: in the payload, in the CRC or across both. */
  lemma BurstBreaksCheck(payload: seq<byte>, check: seq<byte>, payload': seq<byte>, check': seq<byte>)
    requires |check| == |check'| == 4
    requires LoadWord(check) == Crc(payload, 0)
    requires OneBurst(payload + check, payload' + check')
    ensures LoadWord(check') != Crc(payload', 0)
  {
    hide Run, LoadWord;
    ResidueIffCrc(payload, check);
    ResidueIffCrc(payload', check');
    BurstMovesRegister(0xFFFF_FFFF, payload + check, payload' + check');
  }
}
