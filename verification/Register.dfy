/**
 The CRC-32 shift register: eight single-bit steps absorb one byte. Everything the fast
 CRC variants rely on follows from three facts about the single step: it is linear over
 exclusive or, it is injective, and it is a plain shift while the low bit is clear.
 */
module Register {
  import opened ByteNumbers
  import opened Bytes

  /** zlib's reflected CRC-32 polynomial. */
  const POLYNOMIAL: word := 0xEDB8_8320

  function Half(c: word): word {
    c >> 1
  }

  function Odd(c: word): bool {
    c & 1 == 1
  }

  function Feedback(odd: bool): word {
    if odd then POLYNOMIAL else 0
  }

  /** One bit of the branching form of the CRC loop. */
  function Step(c: word): word {
    Xor(Half(c), Feedback(Odd(c)))
  }

  function Shift(c: word, n: nat): word {
    if n == 0 then c else Step(Shift(c, n - 1))
  }

  function Absorb(c: word, b: byte): word {
    Shift(Xor(c, Widen(b)), 8)
  }

  /** The register after a byte string, which is the bitwise CRC without its complements. */
  function Run(c: word, data: seq<byte>): word {
    if |data| == 0 then c else Absorb(Run(c, data[..|data| - 1]), data[|data| - 1])
  }

  /** CRC-32 of `data` continued from `previous`: the definition every variant is held to. */
  function Crc(data: seq<byte>, previous: word): word {
    Complement(Run(Complement(previous), data))
  }

  function Complement(w: word): word {
    !w
  }

  // ----- exclusive or -----

  lemma XorCommutes(a: word, b: word)
    ensures Xor(a, b) == Xor(b, a)
  {
  }

  lemma XorAssociates(a: word, b: word, c: word)
    ensures Xor(Xor(a, b), c) == Xor(a, Xor(b, c))
  {
  }

  lemma XorZero(a: word)
    ensures Xor(a, 0) == a && Xor(0, a) == a
  {
  }

  lemma XorSwapsMiddle(a: word, b: word, c: word, d: word)
    ensures Xor(Xor(a, b), Xor(c, d)) == Xor(Xor(a, c), Xor(b, d))
  {
    hide Xor;
    XorAssociates(a, b, Xor(c, d));
    XorAssociates(b, c, d);
    XorCommutes(b, c);
    XorAssociates(c, b, d);
    XorAssociates(a, c, Xor(b, d));
  }

  lemma XorCancels(a: word, b: word, c: word)
    requires Xor(a, c) == Xor(b, c)
    ensures a == b
  {
  }

  // ----- one step -----

  lemma StepIsLinear(a: word, b: word)
    ensures Step(Xor(a, b)) == Xor(Step(a), Step(b))
  {
    hide Xor, Half, Odd, Feedback;
    HalfIsLinear(a, b);
    OddIsLinear(a, b);
    FeedbackIsLinear(Odd(a), Odd(b));
    XorSwapsMiddle(Half(a), Half(b), Feedback(Odd(a)), Feedback(Odd(b)));
  }

  lemma HalfIsLinear(a: word, b: word)
    ensures Half(Xor(a, b)) == Xor(Half(a), Half(b))
  {
  }

  lemma OddIsLinear(a: word, b: word)
    ensures Odd(Xor(a, b)) == (Odd(a) != Odd(b))
  {
  }

  lemma FeedbackIsLinear(x: bool, y: bool)
    ensures Feedback(x != y) == Xor(Feedback(x), Feedback(y))
  {
  }

  lemma StepIsInjective(a: word, b: word)
    requires Step(a) == Step(b)
    ensures a == b
  {
  }

  lemma StepOfEven(c: word)
    requires !Odd(c)
    ensures Step(c) == Half(c)
  {
  }

  // ----- many steps -----

  lemma {:induction false} ShiftIsLinear(a: word, b: word, n: nat)
    ensures Shift(Xor(a, b), n) == Xor(Shift(a, n), Shift(b, n))
  {
    hide Xor, Step;
    if n > 0 {
      ShiftIsLinear(a, b, n - 1);
      StepIsLinear(Shift(a, n - 1), Shift(b, n - 1));
    }
  }

  lemma {:induction false} ShiftIsInjective(a: word, b: word, n: nat)
    requires Shift(a, n) == Shift(b, n)
    ensures a == b
  {
    hide Step;
    if n > 0 {
      StepIsInjective(Shift(a, n - 1), Shift(b, n - 1));
      ShiftIsInjective(a, b, n - 1);
    }
  }

  lemma {:induction false} ShiftAdds(c: word, m: nat, n: nat)
    ensures Shift(Shift(c, m), n) == Shift(c, m + n)
  {
    hide Step;
    if n > 0 {
      ShiftAdds(c, m, n - 1);
    }
  }

  lemma {:induction false} ShiftOfZero(n: nat)
    ensures Shift(0, n) == 0
  {
    hide Step;
    if n > 0 {
      ShiftOfZero(n - 1);
      StepOfZero();
    }
  }

  lemma StepOfZero()
    ensures Step(0) == 0
  {
  }

  function Drop8(c: word): word {
    c >> 8
  }

  /** Eight steps drop a zero byte off the low end. */
  lemma ShiftDropsZeroByte(c: word)
    requires c & 0xFF == 0
    ensures Shift(c, 8) == Drop8(c)
  {
    hide Step, Half, Odd;
    ZeroByteIsEven(c);
    HalvesCompose(c);
    StepOfEven(c);
    StepOfEven(c >> 1);
    StepOfEven(c >> 2);
    StepOfEven(c >> 3);
    StepOfEven(c >> 4);
    StepOfEven(c >> 5);
    StepOfEven(c >> 6);
    StepOfEven(c >> 7);
    ShiftEight(c);
  }

  lemma ZeroByteIsEven(c: word)
    requires c & 0xFF == 0
    ensures !Odd(c) && !Odd(c >> 1) && !Odd(c >> 2) && !Odd(c >> 3)
    ensures !Odd(c >> 4) && !Odd(c >> 5) && !Odd(c >> 6) && !Odd(c >> 7)
  {
  }

  lemma HalvesCompose(c: word)
    ensures Half(c) == c >> 1 && Half(c >> 1) == c >> 2 && Half(c >> 2) == c >> 3 && Half(c >> 3) == c >> 4
    ensures Half(c >> 4) == c >> 5 && Half(c >> 5) == c >> 6 && Half(c >> 6) == c >> 7 && Half(c >> 7) == Drop8(c)
  {
  }

  lemma ShiftEight(c: word)
    ensures Shift(c, 8) == Step(Step(Step(Step(Step(Step(Step(Step(c))))))))
  {
    hide Step;
    ShiftTwo(c);
    ShiftTwo(Shift(c, 2));
    ShiftTwo(Shift(c, 4));
    ShiftTwo(Shift(c, 6));
    ShiftAdds(c, 2, 2);
    ShiftAdds(c, 4, 2);
    ShiftAdds(c, 6, 2);
  }

  lemma ShiftTwo(c: word)
    ensures Shift(c, 2) == Step(Step(c))
  {
    hide Step;
    assert Shift(c, 1) == Step(c);
  }

  // ----- byte strings -----

  lemma {:induction false} RunConcatenates(c: word, a: seq<byte>, b: seq<byte>)
    ensures Run(c, a + b) == Run(Run(c, a), b)
  {
    hide Absorb;
    if |b| == 0 {
      assert a + b == a;
    } else {
      var front := b[..|b| - 1];
      assert (a + b)[..|a + b| - 1] == a + front;
      RunConcatenates(c, a, front);
    }
  }

  lemma AbsorbIsInjective(c: word, d: word, b: byte)
    requires Absorb(c, b) == Absorb(d, b)
    ensures c == d
  {
    hide Xor, Step;
    ShiftIsInjective(Xor(c, Widen(b)), Xor(d, Widen(b)), 8);
    XorCancels(c, d, Widen(b));
  }

  /** Equal registers after the same bytes were equal before them. */
  lemma {:induction false} RunIsInjective(c: word, d: word, data: seq<byte>)
    requires Run(c, data) == Run(d, data)
    ensures c == d
  {
    hide Absorb;
    if |data| > 0 {
      var front := data[..|data| - 1];
      AbsorbIsInjective(Run(c, front), Run(d, front), data[|data| - 1]);
      RunIsInjective(c, d, front);
    }
  }

  lemma ComplementTwice(w: word)
    ensures Complement(Complement(w)) == w
  {
  }

  lemma CrcOfNothing(previous: word)
    ensures Crc([], previous) == previous
  {
    hide Complement;
    ComplementTwice(previous);
  }

  /** A CRC can be continued: the CRC of a prefix is a valid `previous` for the rest. */
  lemma CrcComposes(a: seq<byte>, b: seq<byte>, previous: word)
    ensures Crc(b, Crc(a, previous)) == Crc(a + b, previous)
  {
    hide Run, Complement;
    ComplementTwice(Run(Complement(previous), a));
    RunConcatenates(Complement(previous), a, b);
  }

  // ----- four bytes at once -----

  lemma LaneDrops(b: byte, k: nat)
    requires 0 < k < 4
    ensures Lane(b, k) & 0xFF == 0 && Drop8(Lane(b, k)) == Lane(b, k - 1)
  {
  }

  lemma {:induction false} ShiftByLane(b: byte, k: nat)
    requires k < 4
    ensures Shift(Lane(b, k), 8 * k) == Widen(b)
  {
    hide Step, Drop8;
    if k > 0 {
      LaneDrops(b, k);
      ShiftDropsZeroByte(Lane(b, k));
      ShiftByLane(b, k - 1);
      ShiftAdds(Lane(b, k), 8, 8 * (k - 1));
    }
  }

  /** A byte may be added to the register before its turn, in the lane it will arrive from. */
  lemma AbsorbInAdvance(c: word, b: byte, k: nat)
    requires k < 4
    ensures Absorb(Shift(c, 8 * k), b) == Shift(Xor(c, Lane(b, k)), 8 * (k + 1))
  {
    hide Xor, Step, Shift, Lane;
    ShiftByLane(b, k);
    ShiftIsLinear(c, Lane(b, k), 8 * k);
    ShiftAdds(Xor(c, Lane(b, k)), 8 * k, 8);
  }

  /** Four bytes are absorbed by adding their word load and stepping 32 bits. */
  lemma RunWord(c: word, data: seq<byte>)
    requires |data| == 4
    ensures Run(c, data) == Shift(Xor(c, LoadWord(data)), 32)
  {
    hide Xor, Absorb, Lane;
    var c1 := Xor(c, Lane(data[0], 0));
    var c2 := Xor(c1, Lane(data[1], 1));
    var c3 := Xor(c2, Lane(data[2], 2));
    RunFour(c, data);
    AbsorbInAdvance(c, data[0], 0);
    AbsorbInAdvance(c1, data[1], 1);
    AbsorbInAdvance(c2, data[2], 2);
    AbsorbInAdvance(c3, data[3], 3);
    AddWord(c, data);
  }

  lemma RunFour(c: word, data: seq<byte>)
    requires |data| == 4
    ensures Run(c, data) == Absorb(Absorb(Absorb(Absorb(c, data[0]), data[1]), data[2]), data[3])
  {
    hide Absorb;
    assert data[..3][..2] == data[..2];
    assert data[..2][..1] == data[..1];
    assert data[..1][..0] == [];
    assert Run(c, data[..1]) == Absorb(Run(c, []), data[0]);
    assert Run(c, data[..2]) == Absorb(Run(c, data[..1]), data[1]);
    assert Run(c, data[..3]) == Absorb(Run(c, data[..2]), data[2]);
  }

  lemma AddWord(c: word, data: seq<byte>)
    requires |data| == 4
    ensures Xor(c, LoadWord(data))
         == Xor(Xor(Xor(Xor(c, Lane(data[0], 0)), Lane(data[1], 1)), Lane(data[2], 2)), Lane(data[3], 3))
  {
    hide Xor, Lane;
    var b0, b1, b2, b3 := Lane(data[0], 0), Lane(data[1], 1), Lane(data[2], 2), Lane(data[3], 3);
    XorAssociates(c, Xor(Xor(b0, b1), b2), b3);
    XorAssociates(c, Xor(b0, b1), b2);
    XorAssociates(c, b0, b1);
  }
}
