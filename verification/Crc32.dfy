/**
 The CRC-32 variants of the library. Each loop is proved to compute `Register.Crc`; what
 the variants do per byte, per word or per 16-byte slice is written as in their C bodies.
 */
module Crc32 {
  import opened ByteNumbers
  import opened Bytes
  import opened Register

  // ----- lookup tables -----

  /** The inner loop of the table recurrence: multiply instead of branch. */
  function TableStep(c: word): word {
    (c >> 1) ^ ((c & 1) * POLYNOMIAL)
  }

  function TableSteps(c: word, n: nat): word {
    if n == 0 then c else TableStep(TableSteps(c, n - 1))
  }

  function LowByte(c: word): byte {
    (c & 0xFF) as byte
  }

  /** `Crc32Lookup[slice][i]`, by the recurrence the table was generated with. */
  function Lookup(slice: nat, i: byte): word {
    if slice == 0 then
      TableSteps(Widen(i), 8)
    else
      Xor(Drop8(Lookup(slice - 1, i)), Lookup(0, LowByte(Lookup(slice - 1, i))))
  }

  lemma TableStepIsStep(c: word)
    ensures TableStep(c) == Step(c)
  {
    if c & 1 == 1 {
    } else {
      assert c & 1 == 0;
    }
  }

  lemma {:induction false} TableStepsAreShift(c: word, n: nat)
    ensures TableSteps(c, n) == Shift(c, n)
  {
    hide TableStep, Step;
    if n > 0 {
      TableStepsAreShift(c, n - 1);
      TableStepIsStep(Shift(c, n - 1));
    }
  }

  function HighPart(c: word): word {
    c & 0xFFFF_FF00
  }

  lemma SplitLowByte(c: word)
    ensures c == Xor(HighPart(c), Widen(LowByte(c)))
    ensures HighPart(c) & 0xFF == 0
    ensures Drop8(HighPart(c)) == Drop8(c)
  {
  }

  /** Eight steps are one shift by a byte and one table look-up. */
  lemma ShiftByTable(c: word)
    ensures Shift(c, 8) == Xor(Drop8(c), Lookup(0, LowByte(c)))
  {
    hide Xor, Step, Shift, Widen, Drop8, LowByte, HighPart;
    SplitLowByte(c);
    ShiftIsLinear(HighPart(c), Widen(LowByte(c)), 8);
    ShiftDropsZeroByte(HighPart(c));
    TableStepsAreShift(Widen(LowByte(c)), 8);
  }

  /** Slice k holds the register 8(k+1) steps after its index. */
  lemma {:induction false} LookupIsShift(slice: nat, i: byte)
    ensures Lookup(slice, i) == Shift(Widen(i), 8 * (slice + 1))
  {
    hide Xor, Step, Shift, Widen, Drop8, LowByte, TableSteps;
    if slice == 0 {
      TableStepsAreShift(Widen(i), 8);
    } else {
      LookupIsShift(slice - 1, i);
      ShiftByTable(Shift(Widen(i), 8 * slice));
      ShiftAdds(Widen(i), 8 * slice, 8);
    }
  }

  // ----- one byte at a time -----

  function TableUpdate(crc: word, b: byte): word {
    Xor(Drop8(crc), Lookup(0, LowByte(crc) ^ b))
  }

  lemma AddedByte(crc: word, b: byte)
    ensures Drop8(Xor(crc, Widen(b))) == Drop8(crc)
    ensures LowByte(Xor(crc, Widen(b))) == LowByte(crc) ^ b
  {
  }

  lemma TableUpdateAbsorbs(crc: word, b: byte)
    ensures TableUpdate(crc, b) == Absorb(crc, b)
  {
    hide Xor, Widen, Drop8, LowByte, Shift, Lookup;
    AddedByte(crc, b);
    ShiftByTable(Xor(crc, Widen(b)));
  }

  // ----- without tables -----

  /** The loop body of the bitwise variant: the low bit, negated, masks the polynomial. */
  function BranchFreeStep(c: word): word {
    (c >> 1) ^ ((0 - (c & 1)) & 0xEDB8_8320)
  }

  lemma BranchFreeStepIsStep(c: word)
    ensures BranchFreeStep(c) == Step(c)
  {
    if c & 1 == 1 {
    } else {
      assert c & 1 == 0;
    }
  }

  function FourSteps(c: word): word {
    BranchFreeStep(BranchFreeStep(BranchFreeStep(BranchFreeStep(c))))
  }

  function EightSteps(c: word): word {
    FourSteps(FourSteps(c))
  }

  lemma EightStepsAreShift(c: word)
    ensures EightSteps(c) == Shift(c, 8)
  {
    hide Shift, FourSteps;
    FourStepsAreShift(c);
    FourStepsAreShift(FourSteps(c));
    ShiftAdds(c, 4, 4);
  }

  lemma FourStepsAreShift(c: word)
    ensures FourSteps(c) == Shift(c, 4)
  {
    hide Step, Shift, BranchFreeStep;
    BranchFreeStepIsStep(c);
    BranchFreeStepIsStep(Step(c));
    BranchFreeStepIsStep(Step(Step(c)));
    BranchFreeStepIsStep(Step(Step(Step(c))));
    ShiftTwo(c);
    ShiftTwo(Shift(c, 2));
    ShiftAdds(c, 2, 2);
  }

  // ----- half a byte at a time -----

  /** `Crc32Lookup16`, the half-byte table. */
  function HalfByteLookup(i: word): word {
    if i == 0 then 0x0000_0000
    else if i == 1 then 0x1DB7_1064
    else if i == 2 then 0x3B6E_20C8
    else if i == 3 then 0x26D9_30AC
    else if i == 4 then 0x76DC_4190
    else if i == 5 then 0x6B6B_51F4
    else if i == 6 then 0x4DB2_6158
    else if i == 7 then 0x5005_713C
    else if i == 8 then 0xEDB8_8320
    else if i == 9 then 0xF00F_9344
    else if i == 10 then 0xD6D6_A3E8
    else if i == 11 then 0xCB61_B38C
    else if i == 12 then 0x9B64_C2B0
    else if i == 13 then 0x86D3_D2D4
    else if i == 14 then 0xA00A_E278
    else 0xBDBD_F21C
  }

  function LowNibble(c: word): word {
    c & 0x0F
  }

  function Drop4(c: word): word {
    c >> 4
  }

  function HalfByteUpdate(crc: word, b: byte): word {
    var first := Xor(HalfByteLookup(LowNibble(Xor(crc, Widen(b)))), Drop4(crc));
    Xor(HalfByteLookup(LowNibble(Xor(first, Widen(b >> 4)))), Drop4(first))
  }

  lemma HalfByteLookupIsFourSteps(c: word)
    ensures Xor(HalfByteLookup(LowNibble(c)), Drop4(c)) == FourSteps(c)
  {
    hide Xor, HalfByteLookup, LowNibble, Drop4, FourSteps;
    SplitLowNibble(c);
    NibbleEntry(LowNibble(c));
  }

  lemma NibbleEntry(i: word)
    requires LowNibble(i) == i
    ensures HalfByteLookup(i) == FourSteps(i)
  {
  }

  /** The bits above the low nibble drop down by four, and the nibble takes its four steps alone. */
  lemma SplitLowNibble(c: word)
    ensures LowNibble(LowNibble(c)) == LowNibble(c)
    ensures Xor(FourSteps(LowNibble(c)), Drop4(c)) == FourSteps(c)
  {
    hide Xor, LowNibble, HighNibbles, Drop4, FourSteps, Shift;
    NibblesOf(c);
    FourStepsAreShift(c);
    FourStepsAreShift(LowNibble(c));
    ShiftIsLinear(LowNibble(c), HighNibbles(c), 4);
    ShiftDropsZeroNibble(c);
  }

  function HighNibbles(c: word): word {
    c & 0xFFFF_FFF0
  }

  lemma NibblesOf(c: word)
    ensures LowNibble(LowNibble(c)) == LowNibble(c)
    ensures Xor(LowNibble(c), HighNibbles(c)) == c
  {
  }

  lemma ShiftDropsZeroNibble(c: word)
    ensures Shift(HighNibbles(c), 4) == Drop4(c)
  {
    hide Step, Half, Odd, HighNibbles, Drop4, Shift;
    var h := HighNibbles(c);
    ZeroNibbleIsEven(c);
    NibbleHalves(c);
    StepOfEven(h);
    StepOfEven(Half(h));
    StepOfEven(Half(Half(h)));
    StepOfEven(Half(Half(Half(h))));
    ShiftTwo(h);
    ShiftTwo(Shift(h, 2));
    ShiftAdds(h, 2, 2);
  }

  lemma ZeroNibbleIsEven(c: word)
    ensures var h := HighNibbles(c);
            !Odd(h) && !Odd(Half(h)) && !Odd(Half(Half(h))) && !Odd(Half(Half(Half(h))))
  {
  }

  lemma NibbleHalves(c: word)
    ensures Half(Half(Half(Half(HighNibbles(c))))) == Drop4(c)
  {
  }

  function NearNibble(b: byte): word {
    (b & 0x0F) as word
  }

  function FarNibble(b: byte): word {
    (b & 0xF0) as word
  }

  lemma JoinNibbles(b: byte)
    ensures Widen(b) == Xor(NearNibble(b), FarNibble(b))
  {
  }

  lemma NearNibbleCounts(crc: word, b: byte)
    ensures LowNibble(Xor(crc, Widen(b))) == LowNibble(Xor(crc, NearNibble(b)))
  {
  }

  lemma NearNibbleDrops(crc: word, b: byte)
    ensures Drop4(Xor(crc, NearNibble(b))) == Drop4(crc)
  {
  }

  lemma ShiftedNibble(crc: word, b: byte)
    ensures Drop4(Xor(crc, Widen(b >> 4))) == Drop4(crc)
  {
  }

  lemma FarNibbleDrops(b: byte)
    ensures FourSteps(FarNibble(b)) == Widen(b >> 4)
  {
  }

  lemma HalfByteUpdateAbsorbs(crc: word, b: byte)
    ensures HalfByteUpdate(crc, b) == Absorb(crc, b)
  {
    hide Xor, Widen, Shift, HalfByteLookup, FourSteps, LowNibble, Drop4, NearNibble, FarNibble;
    var low := Xor(crc, NearNibble(b));
    JoinNibbles(b);
    NearNibbleCounts(crc, b);
    NearNibbleDrops(crc, b);
    HalfByteLookupIsFourSteps(low);
    FourStepsAreShift(low);
    var first := Shift(low, 4);
    var high := Widen(b >> 4);
    ShiftedNibble(first, b);
    HalfByteLookupIsFourSteps(Xor(first, high));
    FourStepsAreShift(Xor(first, high));
    FarNibbleDrops(b);
    FourStepsAreShift(FarNibble(b));
    ShiftIsLinear(low, FarNibble(b), 4);
    XorAssociates(crc, NearNibble(b), FarNibble(b));
    ShiftAdds(Xor(crc, Widen(b)), 4, 4);
  }

  /** The multiplications put copies of `low` side by side, so no carry crosses a copy. */
  function TablelessUpdate(crc: word, b: byte): word {
    var s := Widen(LowByte(crc) ^ b);
    Xor(Drop8(crc), TablelessMix(Folded(s)))
  }

  function Folded(s: word): word {
    (s ^ (s << 6)) & 0xFF
  }

  function TablelessMix(low: word): word {
    var a := low * ((1 << 23) + (1 << 14) + (1 << 2));
    (low * ((1 << 24) + (1 << 16) + (1 << 8)))
    ^ a
    ^ (a >> 1)
    ^ (low * ((1 << 20) + (1 << 12)))
    ^ (low << 19)
    ^ (low << 17)
    ^ (low >> 2)
  }

  lemma TablelessUpdateAbsorbs(crc: word, b: byte)
    ensures TablelessUpdate(crc, b) == Absorb(crc, b)
  {
    hide Xor, Widen, Drop8, LowByte, HighPart, Shift, TablelessMix, Folded;
    var c := Xor(crc, Widen(b));
    AddedByte(crc, b);
    WidenFits(LowByte(c));
    MixIsShift(Widen(LowByte(c)));
    SplitLowByte(c);
    ShiftIsLinear(HighPart(c), Widen(LowByte(c)), 8);
    ShiftDropsZeroByte(HighPart(c));
  }

  lemma WidenFits(b: byte)
    ensures Widen(b) & 0xFF == Widen(b)
  {
  }

  lemma MixIsShift(s: word)
    requires s & 0xFF == s
    ensures TablelessMix(Folded(s)) == Shift(s, 8)
  {
    hide TablelessMix, EightSteps, Shift;
    NoCarriesBetweenCopies(Folded(s));
    CopiesAreEightSteps(s);
    EightStepsAreShift(s);
  }

  function Copies(low: word): word {
    var a := (low << 23) ^ (low << 14) ^ (low << 2);
    ((low << 24) ^ (low << 16) ^ (low << 8))
    ^ a
    ^ (a >> 1)
    ^ ((low << 20) ^ (low << 12))
    ^ (low << 19)
    ^ (low << 17)
    ^ (low >> 2)
  }

  lemma NoCarriesBetweenCopies(low: word)
    requires low & 0xFF == low
    ensures TablelessMix(low) == Copies(low)
  {
    ThreeCopies(low);
    TwoCopies(low);
  }

  lemma ThreeCopies(low: word)
    requires low & 0xFF == low
    ensures low * ((1 << 24) + (1 << 16) + (1 << 8)) == (low << 24) ^ (low << 16) ^ (low << 8)
    ensures low * ((1 << 23) + (1 << 14) + (1 << 2)) == (low << 23) ^ (low << 14) ^ (low << 2)
  {
  }

  lemma TwoCopies(low: word)
    requires low & 0xFF == low
    ensures low * ((1 << 20) + (1 << 12)) == (low << 20) ^ (low << 12)
  {
  }

  lemma CopiesAreEightSteps(s: word)
    requires s & 0xFF == s
    ensures Copies(Folded(s)) == EightSteps(s)
  {
  }

  /** Arithmetic right shift by 31: the sign bit spread over the word. */
  function SpreadSign(c: word): word {
    if c & 0x8000_0000 != 0 then 0xFFFF_FFFF else 0
  }

  function SignSpreadUpdate(crc: word, b: byte): word {
    var c := Xor(crc, Widen(b));
    Xor(Drop8(c), SignSpreadMix(c))
  }

  function SignSpreadMix(crc: word): word {
    (SpreadSign(crc << 31) & ((POLYNOMIAL >> 7) ^ (POLYNOMIAL >> 1)))
    ^ (SpreadSign(crc << 30) & ((POLYNOMIAL >> 6) ^ POLYNOMIAL))
    ^ (SpreadSign(crc << 29) & (POLYNOMIAL >> 5))
    ^ (SpreadSign(crc << 28) & (POLYNOMIAL >> 4))
    ^ (SpreadSign(crc << 27) & (POLYNOMIAL >> 3))
    ^ (SpreadSign(crc << 26) & (POLYNOMIAL >> 2))
    ^ (SpreadSign(crc << 25) & (POLYNOMIAL >> 1))
    ^ (SpreadSign(crc << 24) & POLYNOMIAL)
  }

  lemma SignSpreadUpdateAbsorbs(crc: word, b: byte)
    ensures SignSpreadUpdate(crc, b) == Absorb(crc, b)
  {
    hide Xor, Widen, Drop8, LowByte, HighPart, Shift, SignSpreadMix;
    var c := Xor(crc, Widen(b));
    SignSpreadIsShift(c);
    SplitLowByte(c);
    ShiftIsLinear(HighPart(c), Widen(LowByte(c)), 8);
    ShiftDropsZeroByte(HighPart(c));
  }

  lemma SignSpreadIsShift(c: word)
    ensures SignSpreadMix(c) == Shift(Widen(LowByte(c)), 8)
  {
    hide SignSpreadMix, EightSteps, Shift;
    SignSpreadIsEightSteps(c);
    EightStepsAreShift(Widen(LowByte(c)));
  }

  lemma SignSpreadIsEightSteps(c: word)
    ensures SignSpreadMix(c) == EightSteps(Widen(LowByte(c)))
  {
  }

  // ----- a slice at a time -----

  /** One word of a slice, `slice` words before its end. */
  function LookupWord(w: word, slice: nat): word {
    Xor(Xor(Xor(Lookup(4 * slice, ByteAt(w, 3)), Lookup(4 * slice + 1, ByteAt(w, 2))),
            Lookup(4 * slice + 2, ByteAt(w, 1))),
        Lookup(4 * slice + 3, ByteAt(w, 0)))
  }

  lemma WordFromLanes(w: word)
    ensures w == Xor(Xor(Xor(Lane(ByteAt(w, 3), 3), Lane(ByteAt(w, 2), 2)), Lane(ByteAt(w, 1), 1)), Lane(ByteAt(w, 0), 0))
  {
  }

  lemma LookupLane(b: byte, k: nat, n: nat)
    requires k < 4
    ensures Shift(Lane(b, k), 8 * (k + n + 1)) == Lookup(n, b)
  {
    hide Step, Shift, Lane, Lookup;
    ShiftByLane(b, k);
    ShiftAdds(Lane(b, k), 8 * k, 8 * (n + 1));
    LookupIsShift(n, b);
  }

  lemma LookupWordIsShift(w: word, slice: nat)
    ensures LookupWord(w, slice) == Shift(w, 32 * (slice + 1))
  {
    hide Xor, Shift, Lane, Lookup, ByteAt;
    var n := 32 * (slice + 1);
    var w0, w1 := Lane(ByteAt(w, 0), 0), Lane(ByteAt(w, 1), 1);
    var w2, w3 := Lane(ByteAt(w, 2), 2), Lane(ByteAt(w, 3), 3);
    WordFromLanes(w);
    ShiftIsLinear(w3, w2, n);
    ShiftIsLinear(Xor(w3, w2), w1, n);
    ShiftIsLinear(Xor(Xor(w3, w2), w1), w0, n);
    LookupLane(ByteAt(w, 0), 0, 4 * slice + 3);
    LookupLane(ByteAt(w, 1), 1, 4 * slice + 2);
    LookupLane(ByteAt(w, 2), 2, 4 * slice + 1);
    LookupLane(ByteAt(w, 3), 3, 4 * slice);
  }

  function SliceBy4(crc: word, chunk: seq<byte>): word
    requires |chunk| == 4
  {
    var one := Xor(LoadWord(chunk), crc);
    LookupWord(one, 0)
  }

  function SliceBy8(crc: word, chunk: seq<byte>): word
    requires |chunk| == 8
  {
    var one := Xor(LoadWord(chunk[0..4]), crc);
    var two := LoadWord(chunk[4..8]);
    Xor(LookupWord(two, 0), LookupWord(one, 1))
  }

  function SliceBy16(crc: word, chunk: seq<byte>): word
    requires |chunk| == 16
  {
    var one := Xor(LoadWord(chunk[0..4]), crc);
    var two := LoadWord(chunk[4..8]);
    var three := LoadWord(chunk[8..12]);
    var four := LoadWord(chunk[12..16]);
    Xor(Xor(Xor(LookupWord(four, 0), LookupWord(three, 1)), LookupWord(two, 2)), LookupWord(one, 3))
  }

  lemma SliceBy4Runs(crc: word, chunk: seq<byte>)
    requires |chunk| == 4
    ensures SliceBy4(crc, chunk) == Run(crc, chunk)
  {
    hide Xor, Run, Shift, LoadWord, LookupWord;
    RunWord(crc, chunk);
    XorCommutes(crc, LoadWord(chunk));
    LookupWordIsShift(Xor(LoadWord(chunk), crc), 0);
  }

  /** One more word: the steps it still has to make are added to all earlier ones. */
  lemma RunNextWord(crc: word, data: seq<byte>, at: nat)
    requires at + 4 <= |data|
    ensures Run(crc, data[..at + 4]) == Xor(Shift(LoadWord(data[at..at + 4]), 32), Shift(Run(crc, data[..at]), 32))
  {
    hide Xor, Run, Shift, LoadWord;
    var so := Run(crc, data[..at]);
    assert data[..at] + data[at..at + 4] == data[..at + 4];
    RunConcatenates(crc, data[..at], data[at..at + 4]);
    RunWord(so, data[at..at + 4]);
    ShiftIsLinear(so, LoadWord(data[at..at + 4]), 32);
    XorCommutes(Shift(so, 32), Shift(LoadWord(data[at..at + 4]), 32));
  }

  lemma SliceBy8Runs(crc: word, chunk: seq<byte>)
    requires |chunk| == 8
    ensures SliceBy8(crc, chunk) == Run(crc, chunk)
  {
    hide Xor, Run, Shift, LoadWord, LookupWord;
    var one, two := Xor(LoadWord(chunk[0..4]), crc), LoadWord(chunk[4..8]);
    XorCommutes(crc, LoadWord(chunk[0..4]));
    RunWord(crc, chunk[0..4]);
    RunNextWord(crc, chunk, 4);
    ShiftAdds(one, 32, 32);
    LookupWordIsShift(one, 1);
    LookupWordIsShift(two, 0);
    assert chunk[..4] == chunk[0..4] && chunk[..8] == chunk;
  }

  lemma SliceBy16Runs(crc: word, chunk: seq<byte>)
    requires |chunk| == 16
    ensures SliceBy16(crc, chunk) == Run(crc, chunk)
  {
    hide Xor, Run, Shift, LoadWord, LookupWord;
    var one, two := Xor(LoadWord(chunk[0..4]), crc), LoadWord(chunk[4..8]);
    var three, four := LoadWord(chunk[8..12]), LoadWord(chunk[12..16]);
    XorCommutes(crc, LoadWord(chunk[0..4]));
    RunWord(crc, chunk[0..4]);
    RunNextWord(crc, chunk, 4);
    RunNextWord(crc, chunk, 8);
    RunNextWord(crc, chunk, 12);
    assert chunk[..4] == chunk[0..4] && chunk[..16] == chunk;
    ShiftAdds(one, 32, 32);
    assert Run(crc, chunk[..8]) == Xor(Shift(two, 32), Shift(one, 64));
    ShiftIsLinear(Shift(two, 32), Shift(one, 64), 32);
    ShiftAdds(one, 64, 32);
    ShiftAdds(two, 32, 32);
    var early := Xor(Shift(two, 64), Shift(one, 96));
    assert Run(crc, chunk[..12]) == Xor(Shift(three, 32), early);
    ShiftIsLinear(Shift(three, 32), early, 32);
    ShiftIsLinear(Shift(two, 64), Shift(one, 96), 32);
    ShiftAdds(one, 96, 32);
    ShiftAdds(two, 64, 32);
    ShiftAdds(three, 32, 32);
    LookupWordIsShift(one, 3);
    LookupWordIsShift(two, 2);
    LookupWordIsShift(three, 1);
    LookupWordIsShift(four, 0);
    XorAssociates(LookupWord(four, 0), LookupWord(three, 1), Xor(LookupWord(two, 2), LookupWord(one, 3)));
    XorAssociates(Xor(LookupWord(four, 0), LookupWord(three, 1)), LookupWord(two, 2), LookupWord(one, 3));
  }

  // ----- the loops -----

  lemma RunByte(crc: word, data: seq<byte>, at: nat)
    requires at < |data|
    ensures Run(crc, data[..at + 1]) == Absorb(Run(crc, data[..at]), data[at])
  {
    hide Absorb;
    assert data[..at + 1][..at] == data[..at];
  }

  lemma RunChunk(crc: word, data: seq<byte>, at: nat, n: nat)
    requires at + n <= |data|
    ensures Run(crc, data[..at + n]) == Run(Run(crc, data[..at]), data[at..at + n])
  {
    hide Run;
    assert data[..at] + data[at..at + n] == data[..at + n];
    RunConcatenates(crc, data[..at], data[at..at + n]);
  }

  method Bitwise(data: seq<byte>, previousCrc32: word) returns (r: word)
    ensures r == Crc(data, previousCrc32)
  {
    hide Xor, Widen, Step, Complement, BranchFreeStep;
    var crc := Complement(previousCrc32);
    var current: nat, length: nat := 0, |data|;
    while length != 0
      invariant current + length == |data|
      invariant crc == Run(Complement(previousCrc32), data[..current])
    {
      length := length - 1;
      RunByte(Complement(previousCrc32), data, current);
      crc := Xor(crc, Widen(data[current]));
      current := current + 1;
      ghost var added := crc;
      for j := 0 to 8
        invariant crc == Shift(added, j)
      {
        BranchFreeStepIsStep(crc);
        crc := BranchFreeStep(crc);
      }
    }
    assert data[..current] == data;
    r := Complement(crc);
  }

  method HalfByte(data: seq<byte>, previousCrc32: word) returns (r: word)
    ensures r == Crc(data, previousCrc32)
  {
    hide Absorb, Complement, HalfByteUpdate;
    var crc := Complement(previousCrc32);
    var current: nat, length: nat := 0, |data|;
    while length != 0
      invariant current + length == |data|
      invariant crc == Run(Complement(previousCrc32), data[..current])
    {
      length := length - 1;
      RunByte(Complement(previousCrc32), data, current);
      HalfByteUpdateAbsorbs(crc, data[current]);
      crc := HalfByteUpdate(crc, data[current]);
      current := current + 1;
    }
    assert data[..current] == data;
    r := Complement(crc);
  }

  method Tableless(data: seq<byte>, previousCrc32: word) returns (r: word)
    ensures r == Crc(data, previousCrc32)
  {
    hide Absorb, Complement, TablelessUpdate;
    var crc := Complement(previousCrc32);
    var current: nat, length: nat := 0, |data|;
    while length != 0
      invariant current + length == |data|
      invariant crc == Run(Complement(previousCrc32), data[..current])
    {
      length := length - 1;
      RunByte(Complement(previousCrc32), data, current);
      TablelessUpdateAbsorbs(crc, data[current]);
      crc := TablelessUpdate(crc, data[current]);
      current := current + 1;
    }
    assert data[..current] == data;
    r := Complement(crc);
  }

  method SignSpread(data: seq<byte>, previousCrc32: word) returns (r: word)
    ensures r == Crc(data, previousCrc32)
  {
    hide Absorb, Complement, SignSpreadUpdate;
    var crc := Complement(previousCrc32);
    var current: nat, length: nat := 0, |data|;
    while length != 0
      invariant current + length == |data|
      invariant crc == Run(Complement(previousCrc32), data[..current])
    {
      length := length - 1;
      RunByte(Complement(previousCrc32), data, current);
      SignSpreadUpdateAbsorbs(crc, data[current]);
      crc := SignSpreadUpdate(crc, data[current]);
      current := current + 1;
    }
    assert data[..current] == data;
    r := Complement(crc);
  }

  /** The byte loop every table variant ends with, from `start` to the end of the data. */
  method TableBytes(data: seq<byte>, start: nat, first: word, ghost origin: word) returns (crc: word)
    requires start <= |data|
    requires first == Run(origin, data[..start])
    ensures crc == Run(origin, data)
  {
    hide Absorb, TableUpdate;
    crc := first;
    var current: nat, length: nat := start, |data| - start;
    while length != 0
      invariant current + length == |data|
      invariant crc == Run(origin, data[..current])
    {
      length := length - 1;
      RunByte(origin, data, current);
      TableUpdateAbsorbs(crc, data[current]);
      crc := TableUpdate(crc, data[current]);
      current := current + 1;
    }
    assert data[..current] == data;
  }

  method OneByte(data: seq<byte>, previousCrc32: word) returns (r: word)
    ensures r == Crc(data, previousCrc32)
  {
    hide Complement;
    var crc := TableBytes(data, 0, Complement(previousCrc32), Complement(previousCrc32));
    r := Complement(crc);
  }

  method SlicingBy4(data: seq<byte>, previousCrc32: word) returns (r: word)
    ensures r == Crc(data, previousCrc32)
  {
    hide Complement, SliceBy4;
    ghost var origin := Complement(previousCrc32);
    var crc := Complement(previousCrc32);
    var current: nat, length: nat := 0, |data|;
    while length >= 4
      invariant current + length == |data|
      invariant crc == Run(origin, data[..current])
    {
      SliceBy4Runs(crc, data[current..current + 4]);
      RunChunk(origin, data, current, 4);
      crc := SliceBy4(crc, data[current..current + 4]);
      current, length := current + 4, length - 4;
    }
    crc := TableBytes(data, current, crc, origin);
    r := Complement(crc);
  }

  method SlicingBy8(data: seq<byte>, previousCrc32: word) returns (r: word)
    ensures r == Crc(data, previousCrc32)
  {
    hide Complement, SliceBy8;
    ghost var origin := Complement(previousCrc32);
    var crc := Complement(previousCrc32);
    var current: nat, length: nat := 0, |data|;
    while length >= 8
      invariant current + length == |data|
      invariant crc == Run(origin, data[..current])
    {
      SliceBy8Runs(crc, data[current..current + 8]);
      RunChunk(origin, data, current, 8);
      crc := SliceBy8(crc, data[current..current + 8]);
      current, length := current + 8, length - 8;
    }
    crc := TableBytes(data, current, crc, origin);
    r := Complement(crc);
  }

  method SlicingBy4x8(data: seq<byte>, previousCrc32: word) returns (r: word)
    ensures r == Crc(data, previousCrc32)
  {
    hide Complement, SliceBy8;
    ghost var origin := Complement(previousCrc32);
    var crc := Complement(previousCrc32);
    var current: nat, length: nat := 0, |data|;
    while length >= 32
      invariant current + length == |data|
      invariant crc == Run(origin, data[..current])
    {
      ghost var start := current;
      for unrolling := 0 to 4
        invariant current == start + 8 * unrolling
        invariant crc == Run(origin, data[..current])
      {
        SliceBy8Runs(crc, data[current..current + 8]);
        RunChunk(origin, data, current, 8);
        crc := SliceBy8(crc, data[current..current + 8]);
        current := current + 8;
      }
      length := length - 32;
    }
    crc := TableBytes(data, current, crc, origin);
    r := Complement(crc);
  }

  /** `BytesAtOnce + prefetchAhead`, a 64-bit sum. */
  function LoopBound(prefetchAhead: nat): nat {
    (64 + prefetchAhead) % 0x1_0000_0000_0000_0000
  }

  /** The bytes left behind whole blocks of 64. */
  function Remainder(length: nat): nat {
    length % 64
  }

  lemma BoundAndRest(prefetchAhead: nat, length: nat)
    ensures LoopBound(prefetchAhead) == (64 + prefetchAhead) % 0x1_0000_0000_0000_0000 && Remainder(length) == length % 64
  {
  }

  lemma RemainderOf(length: nat)
    ensures if length < 64 then Remainder(length) == length else Remainder(length - 64) == Remainder(length)
    ensures Remainder(length) < 64
  {
  }

  /** Sixty-four bytes: four slices. */
  method SixtyFour(data: seq<byte>, start: nat, first: word, ghost origin: word) returns (crc: word)
    requires start + 64 <= |data|
    requires first == Run(origin, data[..start])
    ensures crc == Run(origin, data[..start + 64])
  {
    hide SliceBy16;
    crc := first;
    var current := start;
    for unrolling := 0 to 4
      invariant current == start + 16 * unrolling
      invariant crc == Run(origin, data[..current])
    {
      SliceBy16Runs(crc, data[current..current + 16]);
      RunChunk(origin, data, current, 16);
      crc := SliceBy16(crc, data[current..current + 16]);
      current := current + 16;
    }
  }

  /**
   Slicing-by-16 with the look-ahead of the prefetching variant; 0 is the plain one. Only for a look-ahead so near
   2^64 that the loop bound wraps around can it come to read past the data: just when the bytes left behind whole
   blocks of 64 reach that bound.
   */
  method SlicingBy16(data: seq<byte>, previousCrc32: word, prefetchAhead: nat) returns (r: word, past: bool)
    requires prefetchAhead < 0x1_0000_0000_0000_0000
    ensures !past ==> r == Crc(data, previousCrc32)
    ensures past <==> (64 + prefetchAhead) % 0x1_0000_0000_0000_0000 <= |data| % 64
  {
    hide Complement, Crc, LoopBound, Run, Remainder;
    BoundAndRest(prefetchAhead, |data|);
    ghost var origin := Complement(previousCrc32);
    var crc := Complement(previousCrc32);
    r, past := crc, false;
    var bound := LoopBound(prefetchAhead);
    var current: nat, length: nat := 0, |data|;
    RunOfNothing(origin, data);
    while length >= bound
      invariant current + length == |data| && Remainder(length) == Remainder(|data|) && !past
      invariant crc == Run(origin, data[..current])
      decreases length
    {
      RemainderOf(length);
      if length < 64 {
        return crc, true;
      }
      crc := SixtyFour(data, current, crc, origin);
      current := current + 64;
      length := length - 64;
    }
    RemainderOf(length);
    crc := TableBytes(data, current, crc, origin);
    CrcIsRun(data, previousCrc32);
    r := Complement(crc);
  }

  lemma RunOfNothing(origin: word, data: seq<byte>)
    ensures Run(origin, data[..0]) == origin
  {
  }

  lemma CrcIsRun(data: seq<byte>, previousCrc32: word)
    ensures Crc(data, previousCrc32) == Complement(Run(Complement(previousCrc32), data))
  {
  }

  /** `crc32_fast` with the build's default tables. */
  method Fast(data: seq<byte>, previousCrc32: word) returns (r: word)
    ensures r == Crc(data, previousCrc32)
  {
    var past;
    r, past := SlicingBy16(data, previousCrc32, 0);
  }
}
