/**
 The bytes on the wire, in numbers: what a frame is, and what the receiver makes of bytes, said without the names and
 constants the other modules share.
 */
module Wire {
  import opened ByteNumbers
  import opened Bytes
  import opened Register
  import opened Frames
  import opened Scan
  import Crc32

  // ----- little-endian numbers -----

  /** Four bytes as a number, the first one least. */
  function LittleEndian(a: byte, b: byte, c: byte, d: byte): nat {
    (a as nat) + 256 * (b as nat) + 65536 * (c as nat) + 16777216 * (d as nat)
  }

  lemma LengthIsLittleEndian(s: seq<byte>)
    requires |s| == 4
    ensures LoadLength(s) == LittleEndian(s[0], s[1], s[2], s[3])
  {
    hide Value;
    ValueIsConversion(s[0]);
    ValueIsConversion(s[1]);
    ValueIsConversion(s[2]);
    ValueIsConversion(s[3]);
  }

  function With8(lo: word, b: byte): word {
    lo + ((b as word) << 8)
  }

  function With16(lo: word, b: byte): word {
    lo + ((b as word) << 16)
  }

  function With24(lo: word, b: byte): word {
    lo + ((b as word) << 24)
  }

  /** Four bytes as a word, the first one least. */
  function Joined(a: byte, b: byte, c: byte, d: byte): word {
    With24(With16(With8(a as word, b), c), d)
  }

  lemma WordIsJoined(s: seq<byte>)
    requires |s| == 4
    ensures LoadWord(s) == Joined(s[0], s[1], s[2], s[3])
  {
  }

  lemma With8Value(lo: word, b: byte)
    requires lo < 0x100
    ensures With8(lo, b) as nat == (lo as nat) + 256 * (b as nat)
  {
    Sum8(lo, b);
  }

  lemma Sum8(lo: word, b: byte)
    requires lo < 0x100
    ensures (lo + ((b as word) << 8)) as nat == (lo as nat) + 256 * (b as nat)
  {
  }

  lemma With16Value(lo: word, b: byte)
    requires lo < 0x1_0000
    ensures With16(lo, b) as nat == (lo as nat) + 65536 * (b as nat)
  {
    Sum16(lo, b);
  }

  lemma Sum16(lo: word, b: byte)
    requires lo < 0x1_0000
    ensures (lo + ((b as word) << 16)) as nat == (lo as nat) + 65536 * (b as nat)
  {
  }

  lemma With24Value(lo: word, b: byte)
    requires lo < 0x100_0000
    ensures With24(lo, b) as nat == (lo as nat) + 16777216 * (b as nat)
  {
    Sum24(lo, b);
  }

  lemma Sum24(lo: word, b: byte)
    requires lo < 0x100_0000
    ensures (lo + ((b as word) << 24)) as nat == (lo as nat) + 16777216 * (b as nat)
  {
  }

  lemma With8Fits(lo: word, b: byte)
    requires lo < 0x100
    ensures With8(lo, b) < 0x1_0000
  {
  }

  lemma With16Fits(lo: word, b: byte)
    requires lo < 0x1_0000
    ensures With16(lo, b) < 0x100_0000
  {
  }

  lemma SmallWord(a: byte)
    ensures (a as word) < 0x100 && (a as word) as nat == a as nat
  {
  }

  lemma JoinedValue(a: byte, b: byte, c: byte, d: byte)
    ensures Joined(a, b, c, d) as nat == LittleEndian(a, b, c, d)
  {
    hide With8, With16, With24;
    SmallWord(a);
    With8Fits(a as word, b);
    With8Value(a as word, b);
    With16Fits(With8(a as word, b), c);
    With16Value(With8(a as word, b), c);
    With24Value(With16(With8(a as word, b), c), d);
  }

  /** The length field is copied as the machine lays out a 32-bit number. */
  lemma LengthIsWord(s: seq<byte>)
    requires |s| == 4
    ensures LoadLength(s) == LoadWord(s) as nat
  {
    hide LoadLength, LoadWord, Joined, LittleEndian;
    LengthIsLittleEndian(s);
    WordIsJoined(s);
    JoinedValue(s[0], s[1], s[2], s[3]);
  }

  lemma LengthBytesAreWordBytes(n: nat)
    requires n < 0x1_0000_0000
    ensures LengthBytes(n) == WordBytes(n as word)
  {
    hide LoadLength, LoadWord, LengthBytes, WordBytes;
    var s := LengthBytes(n);
    LoadStoredLength(n);
    LengthIsWord(s);
    StoreLoaded(s);
    ConvertsBack(LoadWord(s));
  }

  lemma ConvertsBack(w: word)
    ensures (w as nat) as word == w
  {
  }

  // ----- frames -----

  /** The layout of every frame. */
  lemma FrameOnWire(p: seq<byte>)
    requires |p| <= 16372
    ensures var f := Frame(p);
            && |f| == 12 + |p|
            && f[0] == 77 && f[1] == 89 && f[2] == 83 && f[3] == 70
            && LittleEndian(f[4], f[5], f[6], f[7]) == |p|
            && f[8..8 + |p|] == p
            && Joined(f[8 + |p|], f[9 + |p|], f[10 + |p|], f[11 + |p|]) == Crc(p, 0)
  {
    hide Crc, LoadLength, LoadWord, WordBytes, LengthBytes, LittleEndian, Joined;
    var f := Frame(p);
    FrameFields(p, f);
    assert f[..4] == MAGIC;
    var length, check := f[4..8], f[8 + |p|..12 + |p|];
    LengthIsLittleEndian(length);
    WordIsJoined(check);
    LoadStored(Crc(p, 0));
  }

  const EMPTY_FRAME: seq<byte> := [0x4D, 0x59, 0x53, 0x46, 0, 0, 0, 0, 0, 0, 0, 0]

  /** The frame of the empty payload, and that the receiver accepts it. */
  lemma EmptyFrame()
    ensures Frame([]) == [0x4D, 0x59, 0x53, 0x46, 0, 0, 0, 0, 0, 0, 0, 0]
    ensures Judge([0x4D, 0x59, 0x53, 0x46, 0, 0, 0, 0, 0, 0, 0, 0]) == Valid(12)
  {
    hide Crc, LoadLength, LoadWord, Judge;
    CrcOfNothing(0);
    ZeroBytes();
    assert Frame([]) == EMPTY_FRAME;
    JudgeFrame([], []);
    assert Frame([]) + [] == Frame([]);
  }

  lemma ZeroBytes()
    ensures LengthBytes(0) == [0, 0, 0, 0] && WordBytes(0) == [0, 0, 0, 0]
  {
    hide LoadLength, LengthBytes, WordBytes;
    var zeros: seq<byte> := [0, 0, 0, 0];
    LengthIsLittleEndian(zeros);
    StoreLoadedLength(zeros);
    LengthBytesAreWordBytes(0);
  }

  // ----- the CRC of the usual check string -----

  lemma Absorbs(c: word, b: byte, d: word)
    requires Crc32.EightSteps(Xor(c, Widen(b))) == d
    ensures Absorb(c, b) == d
  {
    hide Shift, Crc32.EightSteps, Xor, Widen;
    Crc32.EightStepsAreShift(Xor(c, Widen(b)));
  }

  /** One digit further. */
  lemma RunsOn(c: word, data: seq<byte>, b: byte, d: word, e: word)
    requires Register.Run(c, data) == d && Absorb(d, b) == e
    ensures Register.Run(c, data + [b]) == e
  {
    hide Absorb;
    assert (data + [b])[..|data|] == data;
  }

  lemma DigitSteps()
    ensures Absorb(0xFFFF_FFFF, 0x31) == 0x7C23_1048
    ensures Absorb(0x7C23_1048, 0x32) == 0xB0AC_BB32
    ensures Absorb(0xB0AC_BB32, 0x33) == 0x77B7_9C2D
    ensures Absorb(0x77B7_9C2D, 0x34) == 0x641C_1F5C
    ensures Absorb(0x641C_1F5C, 0x35) == 0x340A_C5E3
    ensures Absorb(0x340A_C5E3, 0x36) == 0xF68D_2C9E
    ensures Absorb(0xF68D_2C9E, 0x37) == 0xAFFC_9660
    ensures Absorb(0xAFFC_9660, 0x38) == 0x651F_2550
    ensures Absorb(0x651F_2550, 0x39) == 0x340B_C6D9
  {
    hide Absorb;
    Absorbs(0xFFFF_FFFF, 0x31, 0x7C23_1048);
    Absorbs(0x7C23_1048, 0x32, 0xB0AC_BB32);
    Absorbs(0xB0AC_BB32, 0x33, 0x77B7_9C2D);
    Absorbs(0x77B7_9C2D, 0x34, 0x641C_1F5C);
    Absorbs(0x641C_1F5C, 0x35, 0x340A_C5E3);
    Absorbs(0x340A_C5E3, 0x36, 0xF68D_2C9E);
    Absorbs(0xF68D_2C9E, 0x37, 0xAFFC_9660);
    Absorbs(0xAFFC_9660, 0x38, 0x651F_2550);
    Absorbs(0x651F_2550, 0x39, 0x340B_C6D9);
  }

  /** "123456789" */
  const NINE_DIGITS: seq<byte> := [0x31, 0x32, 0x33, 0x34, 0x35, 0x36, 0x37, 0x38, 0x39]

  lemma RunOfDigits()
    ensures Register.Run(0xFFFF_FFFF, NINE_DIGITS) == 0x340B_C6D9
  {
    hide Absorb, Register.Run;
    DigitSteps();
    RunOfEmpty(0xFFFF_FFFF);
    RunsOn(0xFFFF_FFFF, [], 0x31, 0xFFFF_FFFF, 0x7C23_1048);
    RunsOn(0xFFFF_FFFF, [] + [0x31], 0x32, 0x7C23_1048, 0xB0AC_BB32);
    var two: seq<byte> := [0x31, 0x32];
    assert [] + [0x31] + [0x32] == two;
    RunsOn(0xFFFF_FFFF, two, 0x33, 0xB0AC_BB32, 0x77B7_9C2D);
    RunsOn(0xFFFF_FFFF, two + [0x33], 0x34, 0x77B7_9C2D, 0x641C_1F5C);
    var four: seq<byte> := [0x31, 0x32, 0x33, 0x34];
    assert two + [0x33] + [0x34] == four;
    RunsOn(0xFFFF_FFFF, four, 0x35, 0x641C_1F5C, 0x340A_C5E3);
    RunsOn(0xFFFF_FFFF, four + [0x35], 0x36, 0x340A_C5E3, 0xF68D_2C9E);
    var six: seq<byte> := [0x31, 0x32, 0x33, 0x34, 0x35, 0x36];
    assert four + [0x35] + [0x36] == six;
    RunsOn(0xFFFF_FFFF, six, 0x37, 0xF68D_2C9E, 0xAFFC_9660);
    RunsOn(0xFFFF_FFFF, six + [0x37], 0x38, 0xAFFC_9660, 0x651F_2550);
    var eight: seq<byte> := [0x31, 0x32, 0x33, 0x34, 0x35, 0x36, 0x37, 0x38];
    assert six + [0x37] + [0x38] == eight;
    RunsOn(0xFFFF_FFFF, eight, 0x39, 0x651F_2550, 0x340B_C6D9);
    assert eight + [0x39] == NINE_DIGITS;
  }

  lemma RunOfEmpty(c: word)
    ensures Register.Run(c, []) == c
  {
  }

  /** The check value by which the CRC of RFC 1952 is known: polynomial, bit order, start and end complement. */
  lemma CheckValue()
    ensures Crc([0x31, 0x32, 0x33, 0x34, 0x35, 0x36, 0x37, 0x38, 0x39], 0) == 0xCBF4_3926
  {
    hide Register.Run;
    RunOfDigits();
  }

  // ----- the verdict on bytes -----

  /** How many bytes of `t` from the front on are those of "MYSF". */
  function Leading(t: seq<byte>): nat {
    if |t| == 0 || t[0] != 77 then 0
    else if |t| == 1 || t[1] != 89 then 1
    else if |t| == 2 || t[2] != 83 then 2
    else if |t| == 3 || t[3] != 70 then 3
    else 4
  }

  /** What the receiver is to make of a candidate, in numbers. */
  function OnWire(t: seq<byte>): Verdict {
    if Leading(t) < 4 then
      if Leading(t) == |t| then Undecided else Refuted(Leading(t) + 1, ParseError)
    else if |t| < 8 then
      Undecided
    else
      var n := LittleEndian(t[4], t[5], t[6], t[7]);
      if n > 16384 then Refuted(8, ParseError)
      else if |t| < 12 + n then Undecided
      else if n <= 16372 && Joined(t[8 + n], t[9 + n], t[10 + n], t[11 + n]) == Crc(t[8..8 + n], 0) then Valid(12 + n)
      else Refuted(12 + n, CrcRejected)
  }

  lemma LeadingIsMatch(t: seq<byte>)
    ensures Leading(t) == Match(t, 0)
    ensures Leading(t) == 4 ==> |t| >= 4 && t[..4] == MAGIC
  {
    assert |t| >= 4 ==> Match(t, 4) == 4;
    assert |t| >= 3 ==> Match(t, 3) == if |t| > 3 && t[3] == MAGIC[3] then 4 else 3;
    assert |t| >= 2 ==> Match(t, 2) == if |t| > 2 && t[2] == MAGIC[2] then Match(t, 3) else 2;
    assert |t| >= 1 ==> Match(t, 1) == if |t| > 1 && t[1] == MAGIC[1] then Match(t, 2) else 1;
  }

  /** The verdict the scans are defined by is the one in numbers, on all bytes. */
  lemma JudgeIsOnWire(t: seq<byte>)
    ensures Judge(t) == OnWire(t)
  {
    hide Crc, LoadLength, LoadWord, StartsWithFrame, LittleEndian, Joined, Leading, Match;
    LeadingIsMatch(t);
    if Leading(t) == 4 && |t| >= 8 {
      LengthIsLittleEndian(t[4..8]);
      var n := LengthField(t);
      if n <= 16384 && 12 + n <= |t| {
        FieldsDecide(t);
        var end := 8 + n;
        WordIsJoined(t[end..end + 4]);
      }
    }
  }
}
