/** The frame layout: magic, little-endian payload length, payload, CRC-32 of the payload. */
module Frames {
  import opened ByteNumbers
  import opened Bytes
  import opened Register
  import opened Burst

  const LEN_MID := 4
  const POS_PLEN := 4
  const LEN_PLEN := 4
  const POS_PAYLOAD := 8
  const LEN_CRC := 4
  const LEN_OVERHEAD := 12
  const LEN_MAX_BUFFER := 16384
  const LEN_MAX_PAYLOAD := 16372

  /** "MYSF" */
  const MAGIC: seq<byte> := [0x4D, 0x59, 0x53, 0x46]

  function Frame(payload: seq<byte>): (f: seq<byte>)
    requires |payload| <= LEN_MAX_PAYLOAD
    ensures |f| == LEN_OVERHEAD + |payload|
  {
    MAGIC + LengthBytes(|payload|) + payload + WordBytes(Crc(payload, 0))
  }

  /** What a receiver may rely on: these bytes begin with the frame of some payload. */
  ghost predicate StartsWithFrame(b: seq<byte>) {
    exists p: seq<byte> | |p| <= LEN_MAX_PAYLOAD :: Frame(p) <= b
  }

  /** The payload of the frame the bytes begin with; `FramesAreUnambiguous` makes it the only one. */
  ghost function PayloadOf(b: seq<byte>): (p: seq<byte>)
    requires StartsWithFrame(b)
    ensures |p| <= LEN_MAX_PAYLOAD && Frame(p) <= b
  {
    var p: seq<byte> :| |p| <= LEN_MAX_PAYLOAD && Frame(p) <= b;
    p
  }

  function LengthField(b: seq<byte>): nat
    requires |b| >= POS_PAYLOAD
  {
    LoadLength(b[POS_PLEN..POS_PAYLOAD])
  }

  lemma FrameFields(p: seq<byte>, b: seq<byte>)
    requires |p| <= LEN_MAX_PAYLOAD && Frame(p) <= b
    ensures b[..LEN_MID] == MAGIC && LengthField(b) == |p|
    ensures b[POS_PAYLOAD..POS_PAYLOAD + |p|] == p
    ensures b[POS_PAYLOAD + |p|..LEN_OVERHEAD + |p|] == WordBytes(Crc(p, 0))
  {
    hide Crc, LoadLength, LengthBytes, WordBytes;
    var f := Frame(p);
    assert b[..|f|] == f;
    assert f[POS_PLEN..POS_PAYLOAD] == LengthBytes(|p|);
    assert b[POS_PLEN..POS_PAYLOAD] == f[POS_PLEN..POS_PAYLOAD];
    assert b[POS_PAYLOAD..POS_PAYLOAD + |p|] == f[POS_PAYLOAD..POS_PAYLOAD + |p|];
    assert b[POS_PAYLOAD + |p|..LEN_OVERHEAD + |p|] == f[POS_PAYLOAD + |p|..];
    LoadStoredLength(|p|);
  }

  lemma FieldsMakeFrame(b: seq<byte>)
    requires |b| >= POS_PAYLOAD && b[..LEN_MID] == MAGIC
    requires LengthField(b) <= LEN_MAX_PAYLOAD && LEN_OVERHEAD + LengthField(b) <= |b|
    requires var end := POS_PAYLOAD + LengthField(b);
             LoadWord(b[end..end + LEN_CRC]) == Crc(b[POS_PAYLOAD..end], 0)
    ensures Frame(b[POS_PAYLOAD..POS_PAYLOAD + LengthField(b)]) <= b
  {
    hide Crc, LoadLength, LengthBytes, WordBytes, LoadWord;
    var end := POS_PAYLOAD + LengthField(b);
    var p := b[POS_PAYLOAD..end];
    StoreLoadedLength(b[POS_PLEN..POS_PAYLOAD]);
    StoreLoaded(b[end..end + LEN_CRC]);
    assert b[..POS_PAYLOAD] == b[..LEN_MID] + b[POS_PLEN..POS_PAYLOAD];
    assert b[..end] == b[..POS_PAYLOAD] + p;
    assert b[..end + LEN_CRC] == b[..end] + b[end..end + LEN_CRC];
  }

  /** The three tests of the packet check: magic, length bound, CRC. */
  predicate FieldsMatch(b: seq<byte>)
    requires |b| >= POS_PAYLOAD
    requires LengthField(b) <= LEN_MAX_PAYLOAD ==> LEN_OVERHEAD + LengthField(b) <= |b|
  {
    && b[..LEN_MID] == MAGIC
    && LengthField(b) <= LEN_MAX_PAYLOAD
    && var end := POS_PAYLOAD + LengthField(b);
       LoadWord(b[end..end + LEN_CRC]) == Crc(b[POS_PAYLOAD..end], 0)
  }

  lemma FieldsMatchFrame(b: seq<byte>)
    requires |b| >= POS_PAYLOAD
    requires LengthField(b) <= LEN_MAX_PAYLOAD ==> LEN_OVERHEAD + LengthField(b) <= |b|
    requires FieldsMatch(b)
    ensures StartsWithFrame(b)
  {
    hide Crc, LoadLength, LoadWord, Frame, StartsWithFrame;
    FieldsMakeFrame(b);
    FrameStarts(b[POS_PAYLOAD..POS_PAYLOAD + LengthField(b)], b);
  }

  lemma FrameStarts(p: seq<byte>, b: seq<byte>)
    requires |p| <= LEN_MAX_PAYLOAD && Frame(p) <= b
    ensures StartsWithFrame(b)
  {
    hide Frame;
  }

  lemma FrameFieldsMatch(b: seq<byte>)
    requires StartsWithFrame(b)
    ensures |b| >= LEN_OVERHEAD && LengthField(b) <= LEN_MAX_PAYLOAD && LEN_OVERHEAD + LengthField(b) <= |b|
    ensures FieldsMatch(b)
  {
    hide Crc, LoadLength, WordBytes, LoadWord, Frame, StartsWithFrame;
    var p := PayloadOf(b);
    FrameFields(p, b);
    LoadStored(Crc(p, 0));
  }

  /** The three field tests decide exactly whether the bytes begin with a frame. */
  lemma FieldsDecide(b: seq<byte>)
    requires |b| >= POS_PAYLOAD
    requires LengthField(b) <= LEN_MAX_PAYLOAD ==> LEN_OVERHEAD + LengthField(b) <= |b|
    ensures StartsWithFrame(b) <==> FieldsMatch(b)
  {
    hide Crc, LoadLength, LoadWord, Frame, FieldsMatch, StartsWithFrame;
    if FieldsMatch(b) {
      FieldsMatchFrame(b);
    }
    if StartsWithFrame(b) {
      FrameFieldsMatch(b);
    }
  }

  /** Whether bytes begin with a frame depends on nothing behind the length they announce. */
  lemma SameFrameBytes(a: seq<byte>, b: seq<byte>)
    requires |a| >= LEN_OVERHEAD && |b| >= LEN_OVERHEAD
    requires LengthField(a) <= LEN_MAX_BUFFER
    requires var n := LEN_OVERHEAD + LengthField(a);
             if LengthField(a) <= LEN_MAX_PAYLOAD
             then n <= |a| && n <= |b| && a[..n] == b[..n]
             else a[..LEN_OVERHEAD] == b[..LEN_OVERHEAD]
    ensures StartsWithFrame(a) <==> StartsWithFrame(b)
  {
    hide Register.Crc, LoadLength, LoadWord, StartsWithFrame;
    var len := LengthField(a);
    var n := if len <= LEN_MAX_PAYLOAD then LEN_OVERHEAD + len else LEN_OVERHEAD;
    SameStretch(a, b, n, 0, LEN_MID);
    SameStretch(a, b, n, POS_PLEN, POS_PAYLOAD);
    FieldsDecide(a);
    FieldsDecide(b);
    if len <= LEN_MAX_PAYLOAD {
      var end := POS_PAYLOAD + len;
      SameStretch(a, b, n, POS_PAYLOAD, end);
      SameStretch(a, b, n, end, end + LEN_CRC);
    }
  }

  lemma SameStretch(a: seq<byte>, b: seq<byte>, n: nat, from: nat, to: nat)
    requires from <= to <= n <= |a| && n <= |b| && a[..n] == b[..n]
    ensures a[from..to] == b[from..to]
  {
    forall i | from <= i < to
      ensures a[i] == b[i]
    {
      assert a[i] == a[..n][i] == b[..n][i] == b[i];
    }
    assert forall i | 0 <= i < to - from :: a[from..to][i] == a[from + i];
    assert forall i | 0 <= i < to - from :: b[from..to][i] == b[from + i];
  }

  /** No two payloads have frames of which one begins with the other. */
  lemma FramesAreUnambiguous(p: seq<byte>, q: seq<byte>, b: seq<byte>)
    requires |p| <= LEN_MAX_PAYLOAD && |q| <= LEN_MAX_PAYLOAD
    requires Frame(p) <= b && Frame(q) <= b
    ensures p == q
  {
    hide Frame, LoadLength, WordBytes, Crc;
    FrameFields(p, b);
    FrameFields(q, b);
  }

  /** A frame hit by one burst behind its length field is no frame any more. */
  lemma BurstInvalidatesFrame(p: seq<byte>, damaged: seq<byte>)
    requires |p| <= LEN_MAX_PAYLOAD && |damaged| == |Frame(p)|
    requires damaged[..POS_PAYLOAD] == Frame(p)[..POS_PAYLOAD]
    requires OneBurst(Frame(p)[POS_PAYLOAD..], damaged[POS_PAYLOAD..])
    ensures !StartsWithFrame(damaged)
  {
    hide Crc, LoadLength, WordBytes, LoadWord, OneBurst, Frame;
    var f, end := Frame(p), POS_PAYLOAD + |p|;
    FrameFields(p, f);
    LoadStored(Crc(p, 0));
    var check, p', check' := f[end..], damaged[POS_PAYLOAD..end], damaged[end..];
    assert f[POS_PAYLOAD..] == p + check;
    assert damaged[POS_PAYLOAD..] == p' + check';
    assert damaged[POS_PLEN..POS_PAYLOAD] == damaged[..POS_PAYLOAD][POS_PLEN..];
    assert f[POS_PLEN..POS_PAYLOAD] == f[..POS_PAYLOAD][POS_PLEN..];
    assert check == f[end..LEN_OVERHEAD + |p|];
    assert check' == damaged[end..end + LEN_CRC];
    BurstBreaksCheck(p, check, p', check');
    FieldsDecide(damaged);
  }

  /**
   A frame of which only the bytes from `got` on have reached the packet array, the others being what the array held
   before: it passes the check when those happen to be the frame's own, and within the magic only then.
   */
  lemma MissingFrontDecides(p: seq<byte>, b: seq<byte>, got: nat)
    requires |p| <= LEN_MAX_PAYLOAD && got <= |Frame(p)| <= |b|
    requires b[got..|Frame(p)|] == Frame(p)[got..]
    ensures b[..got] == Frame(p)[..got] ==> StartsWithFrame(b) && PayloadOf(b) == p
    ensures got <= LEN_MID ==> (StartsWithFrame(b) <==> b[..got] == Frame(p)[..got])
  {
    hide Frame, StartsWithFrame, LoadLength, WordBytes;
    var f := Frame(p);
    FrameFields(p, f);
    if b[..got] == f[..got] {
      assert b[..|f|] == b[..got] + b[got..|f|] == f[..got] + f[got..] == f;
      FrameStarts(p, b);
      FramesAreUnambiguous(p, PayloadOf(b), b);
    } else if StartsWithFrame(b) && got <= LEN_MID {
      FrameFields(PayloadOf(b), b);
      SameStretch(f, b, LEN_MID, 0, got);
    }
  }
}
