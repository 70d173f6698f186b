/** The packet object: a 16K array that `Create` fills and `Check` and the `Payload` family read. */
module StreamPackets {
  import opened ByteNumbers
  import opened Bytes
  import opened Register
  import opened Blocks
  import opened Memory
  import opened Frames
  import opened MemStreams
  import Crc32

  /** The 32-bit difference that `PayloadPart` reads with: it wraps around below zero. */
  function WrappedDifference(a: nat, b: nat): nat
    requires a < 0x1_0000_0000 && b < 0x1_0000_0000
  {
    (a - b) % 0x1_0000_0000
  }

  function PartLength(lenPayload: nat, lenBuff: nat, offset: nat): nat
    requires lenPayload < 0x1_0000_0000 && offset < 0x1_0000_0000
  {
    var left := WrappedDifference(lenPayload, offset);
    if left > lenBuff then lenBuff else left
  }

  /** A part is cut off at the payload's end exactly when its offset is not behind that end; else it wraps around. */
  lemma PartIsCutIff(payload: seq<byte>, lenBuff: nat, offset: nat)
    requires |payload| <= LEN_MAX_PAYLOAD && offset < 0x1_0000_0000
    ensures PartLength(|payload|, lenBuff, offset) == |Cut(payload, offset, lenBuff)| <==> offset <= |payload| || lenBuff == 0
    ensures offset > |payload| ==>
              var left := 4294967296 + |payload| - offset;
              PartLength(|payload|, lenBuff, offset) == if left > lenBuff then lenBuff else left
  {
    if offset <= |payload| {
      assert WrappedDifference(|payload|, offset) == |payload| - offset;
    } else {
      assert WrappedDifference(|payload|, offset) == 0x1_0000_0000 + |payload| - offset;
    }
  }

  /** One byte asked for behind any payload is the smallest request that is answered wrongly. */
  lemma ByteBehindPayload(payload: seq<byte>)
    requires |payload| <= LEN_MAX_PAYLOAD
    ensures PartLength(|payload|, 1, |payload| + 1) == 1 && Cut(payload, |payload| + 1, 1) == []
  {
    assert WrappedDifference(|payload|, |payload| + 1) == 0xFFFF_FFFF;
  }

  /** A packet that fails its check, and whose length field is the largest there is. */
  function LongestHeader(): (b: seq<byte>)
    ensures |b| == LEN_MAX_BUFFER
  {
    MAGIC + LengthBytes(0xFFFF_FFFF) + seq(LEN_MAX_BUFFER - POS_PAYLOAD, k => 0 as byte)
  }

  /** Read in parts of 512 bytes, that packet is one of those on which the loop does not end. */
  lemma LongestHeaderNeverEnds()
    ensures !StartsWithFrame(LongestHeader()) && 0x1_0000_0000 % 512 == 0
    ensures LengthField(LongestHeader()) + 512 > 0x1_0000_0000
  {
    hide LoadLength, LengthBytes, Frame, StartsWithFrame;
    var b := LongestHeader();
    LoadStoredLength(0xFFFF_FFFF);
    assert b[POS_PLEN..POS_PAYLOAD] == LengthBytes(0xFFFF_FFFF);
    if StartsWithFrame(b) {
      FrameFields(PayloadOf(b), b);
      assert false;
    }
  }

  /** The payload of a buffer with a frame in front is the one it was built from. */
  lemma FrameInFront(payload: seq<byte>, b: seq<byte>, n: nat)
    requires |payload| <= LEN_MAX_PAYLOAD && n <= |b| && b[..n] == Frame(payload)
    ensures StartsWithFrame(b) && PayloadOf(b) == payload
  {
    assert Frame(payload) <= b;
    FramesAreUnambiguous(payload, PayloadOf(b), b);
  }

  lemma PartOfFrame(b: seq<byte>, lenBuff: nat, offset: nat)
    requires StartsWithFrame(b) && offset <= |PayloadOf(b)|
    ensures var n := PartLength(|PayloadOf(b)|, lenBuff, offset);
            && POS_PAYLOAD + offset + n <= |b|
            && b[POS_PAYLOAD + offset..POS_PAYLOAD + offset + n] == Cut(PayloadOf(b), offset, lenBuff)
  {
    hide StartsWithFrame, LoadLength, Frame, WrappedDifference, Cut, WordBytes, Crc;
    var p := PayloadOf(b);
    FrameFields(p, b);
    DoesNotWrap(|p|, offset);
    StretchIsCut(b, POS_PAYLOAD, p, offset, lenBuff);
  }

  lemma StretchIsCut(b: seq<byte>, from: nat, p: seq<byte>, offset: nat, length: nat)
    requires from + |p| <= |b| && b[from..from + |p|] == p && offset <= |p|
    ensures var n := if |p| - offset > length then length else |p| - offset;
            b[from + offset..from + offset + n] == Cut(p, offset, length)
  {
    var n := if |p| - offset > length then length else |p| - offset;
    SliceOfSlice(b, from, from + |p|, offset, offset + n);
  }

  lemma DoesNotWrap(a: nat, b: nat)
    requires b <= a < 0x1_0000_0000
    ensures WrappedDifference(a, b) == a - b
  {
  }

  /** Blocks that divide 2^32 do not straddle it. */
  lemma BlockFits(offset: nat, size: nat)
    requires size > 0 && offset < 0x1_0000_0000 && offset % size == 0 && 0x1_0000_0000 % size == 0
    ensures offset + size <= 0x1_0000_0000 && (offset + size) % size == 0
  {
    DivMod(offset, size);
    DivMod(0x1_0000_0000, size);
    var k, m := offset / size, 0x1_0000_0000 / size;
    if k >= m {
      MulMonotone(m, k, size);
      assert false;
    }
    MulMonotone(k + 1, m, size);
    NextIsMultiple(k, size);
  }

  lemma NextIsMultiple(k: nat, size: nat)
    requires size > 0
    ensures (k + 1) * size == k * size + size && (k + 1) * size % size == 0
  {
    DivMod((k + 1) * size, size);
    SameCount(k + 1, 0, (k + 1) * size / size, (k + 1) * size % size, size);
  }

  /** The 32-bit sum by which a block offset moves on. */
  function WrappedSum(a: nat, b: nat): nat {
    (a + b) % 0x1_0000_0000
  }

  /** A block-by-block reading of `b` has come to `offset` and has `text`. */
  ghost predicate Collecting(b: seq<byte>, size: nat, offset: nat, text: seq<byte>)
    requires size > 0
  {
    if StartsWithFrame(b) then
      && (offset == 0 || offset < |PayloadOf(b)| + size)
      && (offset > 0 ==> size <= offset)
      && text + ReadInSteps(PayloadOf(b), size, offset) == PayloadOf(b)
    else
      text == [] && offset % size == 0
  }

  lemma CollectingStarts(b: seq<byte>, size: nat)
    requires size > 0
    ensures Collecting(b, size, 0, [])
  {
    hide StartsWithFrame, Frame;
    if StartsWithFrame(b) {
      StepwiseReadIsWhole(PayloadOf(b), size, 0);
      assert [] + ReadInSteps(PayloadOf(b), size, 0) == PayloadOf(b);
    }
  }

  lemma CollectingRound(b: seq<byte>, size: nat, offset: nat, text: seq<byte>)
    requires |b| >= POS_PAYLOAD && 0 < size < 0x1_0000_0000
    requires offset < LengthField(b) && offset < 0x1_0000_0000 && Collecting(b, size, offset, text)
    requires StartsWithFrame(b) || 0x1_0000_0000 % size == 0
    ensures var part := if StartsWithFrame(b) then Cut(PayloadOf(b), offset, size) else [];
            Collecting(b, size, WrappedSum(offset, size), text + part)
    ensures if StartsWithFrame(b) then offset < |PayloadOf(b)| else text == []
    ensures if WrappedSum(offset, size) == 0 then !StartsWithFrame(b) && LengthField(b) + size > 0x1_0000_0000
            else WrappedSum(offset, size) == offset + size < 0x1_0000_0000
  {
    hide StartsWithFrame, LoadLength, Frame, Cut, ReadInSteps;
    if StartsWithFrame(b) {
      var p := PayloadOf(b);
      FrameFields(p, b);
      NextStep(p, size, offset);
      Associate(text, Cut(p, offset, size), ReadInSteps(p, size, offset + size));
      SumFits(offset, size);
    } else {
      BlockFits(offset, size);
      SumFits(offset, size);
      assert text + [] == [];
    }
  }

  lemma SumFits(a: nat, b: nat)
    requires a + b <= 0x1_0000_0000
    ensures WrappedSum(a, b) == if a + b == 0x1_0000_0000 then 0 else a + b
  {
  }

  lemma CollectingEnds(b: seq<byte>, size: nat, offset: nat, text: seq<byte>)
    requires |b| >= POS_PAYLOAD && 0 < size < 0x1_0000_0000
    requires offset >= LengthField(b) && offset < 0x1_0000_0000 && Collecting(b, size, offset, text)
    requires StartsWithFrame(b) || 0x1_0000_0000 % size == 0
    ensures if StartsWithFrame(b) then text == PayloadOf(b) else text == [] && LengthField(b) + size <= 0x1_0000_0000
  {
    hide StartsWithFrame, LoadLength, Frame, ReadInSteps;
    if StartsWithFrame(b) {
      var p := PayloadOf(b);
      FrameFields(p, b);
      NextStep(p, size, offset);
      assert text + [] == text;
    } else {
      BlockFits(offset, size);
    }
  }

  class StreamPacket {
    const buff: array<byte>
    var buffLen: nat

    ghost predicate Valid()
      reads this
    {
      buff.Length == LEN_MAX_BUFFER
    }

    /** Nothing is known of the bytes of a new packet. */
    constructor ()
      ensures Valid() && fresh(buff) && buffLen == 0
    {
      buff := new byte[LEN_MAX_BUFFER];
      buffLen := 0;
    }

    /** The CRC is computed in chunks of 1024 bytes, each continuing the one before. */
    method Crc(data: seq<byte>) returns (crc: word)
      ensures crc == Register.Crc(data, 0)
    {
      hide Register.Crc;
      crc := 0;
      CrcOfNothing(0);
      var bytesProc := 0;
      assert data[..bytesProc] == [];
      while bytesProc < |data|
        invariant bytesProc <= |data|
        invariant crc == Register.Crc(data[..bytesProc], 0)
      {
        var bytesLeft := |data| - bytesProc;
        var chunkSize := if 1024 < bytesLeft then 1024 else bytesLeft;
        CrcComposes(data[..bytesProc], data[bytesProc..bytesProc + chunkSize], 0);
        assert data[..bytesProc] + data[bytesProc..bytesProc + chunkSize] == data[..bytesProc + chunkSize];
        crc := Crc32.Fast(data[bytesProc..bytesProc + chunkSize], crc);
        bytesProc := bytesProc + chunkSize;
      }
      assert data[..bytesProc] == data;
    }

    /** True exactly when the buffer begins with a frame. */
    method Check() returns (ok: bool)
      requires Valid()
      ensures ok <==> StartsWithFrame(buff[..])
    {
      hide Register.Crc, LoadLength, LoadWord, StartsWithFrame;
      ghost var b := buff[..];
      FieldsDecide(b);
      assert b[..LEN_MID] == buff[..LEN_MID];
      assert b[POS_PLEN..POS_PAYLOAD] == buff[POS_PLEN..POS_PAYLOAD];
      if buff[..LEN_MID] != MAGIC {
        return false;
      }
      var len := LoadLength(buff[POS_PLEN..POS_PAYLOAD]);
      if len > LEN_MAX_PAYLOAD {
        return false;
      }
      var end := POS_PAYLOAD + len;
      assert b[POS_PAYLOAD..end] == buff[POS_PAYLOAD..end];
      assert b[end..end + LEN_CRC] == buff[end..end + LEN_CRC];
      var crc := LoadWord(buff[end..end + LEN_CRC]);
      var computed := Crc(buff[POS_PAYLOAD..end]);
      return crc == computed;
    }

    /** Fills the buffer with the frame of a payload that fits; refuses one that does not. */
    method Create(payload: seq<byte>) returns (len: nat)
      requires Valid()
      modifies this`buffLen, buff
      ensures len == buffLen
      ensures |payload| > LEN_MAX_PAYLOAD ==> len == 0 && buff[..] == old(buff[..])
      ensures |payload| <= LEN_MAX_PAYLOAD ==> len == LEN_OVERHEAD + |payload| && buff[..len] == Frame(payload)
      ensures |payload| <= LEN_MAX_PAYLOAD ==> StartsWithFrame(buff[..]) && PayloadOf(buff[..]) == payload
    {
      hide Register.Crc, LengthBytes, WordBytes, StartsWithFrame;
      if |payload| > LEN_MAX_PAYLOAD {
        buffLen := 0;
        return 0;
      }
      ghost var size := LengthBytes(|payload|);
      Put(buff, 0, MAGIC);
      ghost var b1 := buff[..];
      var walk := LEN_MID;
      Put(buff, walk, LengthBytes(|payload|));
      ghost var b2 := buff[..];
      walk := walk + LEN_PLEN;
      Put(buff, walk, payload);
      ghost var b3 := buff[..];
      walk := walk + |payload|;
      var crc := Crc(payload);
      Put(buff, walk, WordBytes(crc));
      walk := walk + LEN_CRC;
      buffLen := walk;
      len := walk;
      assert b1[..LEN_MID] == MAGIC;
      assert b2[..POS_PAYLOAD] == MAGIC + size;
      assert b3[..POS_PAYLOAD + |payload|] == MAGIC + size + payload;
      assert buff[..len] == Frame(payload);
      FrameInFront(payload, buff[..], len);
    }

    /** The length field is read without checking the packet. */
    method PayloadLen() returns (len: nat)
      requires Valid()
      ensures len == LengthField(buff[..])
      ensures StartsWithFrame(buff[..]) ==> len == |PayloadOf(buff[..])|
    {
      hide StartsWithFrame;
      len := LoadLength(buff[POS_PLEN..POS_PAYLOAD]);
      assert buff[..][POS_PLEN..POS_PAYLOAD] == buff[POS_PLEN..POS_PAYLOAD];
      if StartsWithFrame(buff[..]) {
        FrameFields(PayloadOf(buff[..]), buff[..]);
      }
    }

    /** Copies the payload of a valid packet into a buffer it fits in. */
    method Payload(to: array<byte>, lenBuff: nat) returns (len: nat)
      requires Valid() && to != buff && lenBuff <= to.Length
      modifies to
      ensures if StartsWithFrame(buff[..]) && |PayloadOf(buff[..])| <= lenBuff
              then len == |PayloadOf(buff[..])| && to[..len] == PayloadOf(buff[..]) && to[len..] == old(to[len..])
              else len == 0 && to[..] == old(to[..])
    {
      hide StartsWithFrame, LoadLength;
      ghost var b := buff[..];
      var ok := Check();
      if !ok {
        return 0;
      }
      FrameFields(PayloadOf(b), b);
      len := PayloadLen();
      if len > lenBuff {
        return 0;
      }
      assert buff[POS_PAYLOAD..POS_PAYLOAD + len] == b[POS_PAYLOAD..POS_PAYLOAD + len];
      Copy(to, 0, buff, POS_PAYLOAD, len);
    }

    /** Appends the payload of a valid packet to a stream. */
    method PayloadTo(stream: MemStream) returns (len: nat)
      requires Valid() && stream.Valid() && buff !in stream.Repr && this !in stream.Repr
      modifies stream.Repr
      ensures stream.Valid() && fresh(stream.Repr - old(stream.Repr))
      ensures buff[..] == old(buff[..])
      ensures if StartsWithFrame(buff[..])
              then len == |PayloadOf(buff[..])| && stream.Contents() == old(stream.Contents()) + PayloadOf(buff[..])
              else len == 0 && stream.Contents() == old(stream.Contents())
    {
      hide StartsWithFrame, LoadLength;
      ghost var b := buff[..];
      var ok := Check();
      if !ok {
        return 0;
      }
      FrameFields(PayloadOf(b), b);
      len := PayloadLen();
      assert buff[POS_PAYLOAD..POS_PAYLOAD + len] == b[POS_PAYLOAD..POS_PAYLOAD + len];
      stream.Write(buff[POS_PAYLOAD..POS_PAYLOAD + len]);
    }

    /** Copies a part of a valid packet's payload; the offset is only sound up to the payload's end. */
    method PayloadPart(to: array<byte>, lenBuff: nat, offset: nat) returns (lenRead: nat)
      requires Valid() && to != buff && lenBuff <= to.Length && offset < 0x1_0000_0000
      requires StartsWithFrame(buff[..])
           ==> POS_PAYLOAD + offset + PartLength(|PayloadOf(buff[..])|, lenBuff, offset) <= LEN_MAX_BUFFER
      modifies to
      ensures !StartsWithFrame(buff[..]) ==> lenRead == 0 && to[..] == old(to[..])
      ensures StartsWithFrame(buff[..]) ==>
                && lenRead == PartLength(|PayloadOf(buff[..])|, lenBuff, offset)
                && to[..lenRead] == buff[POS_PAYLOAD + offset..POS_PAYLOAD + offset + lenRead]
                && to[lenRead..] == old(to[lenRead..])
      ensures StartsWithFrame(buff[..]) && offset <= |PayloadOf(buff[..])| ==>
                to[..lenRead] == Cut(PayloadOf(buff[..]), offset, lenBuff)
    {
      hide StartsWithFrame, LoadLength, Cut, Frame, WrappedDifference, WordBytes, Register.Crc;
      ghost var b := buff[..];
      var ok := Check();
      if !ok {
        return 0;
      }
      FrameFields(PayloadOf(b), b);
      var lenPayload := PayloadLen();
      lenRead := WrappedDifference(lenPayload, offset);
      if lenRead > lenBuff {
        lenRead := lenBuff;
      }
      if offset <= lenPayload {
        PartOfFrame(b, lenBuff, offset);
      }
      var walk := POS_PAYLOAD + offset;
      assert buff[walk..walk + lenRead] == b[walk..walk + lenRead];
      Copy(to, 0, buff, walk, lenRead);
    }

    /**
     The loop that reads a packet block by block, with a 32-bit offset. Of a valid packet it gets exactly the payload,
     for every block size. Of any other it gets nothing, and it comes to an end unless the length field is so near
     2^32 that the offset wraps around to 0 first.
     */
    method CollectPayload(buffLen: nat) returns (text: seq<byte>, ends: bool)
      requires Valid() && 0 < buffLen < 0x1_0000_0000
      requires StartsWithFrame(buff[..]) || 0x1_0000_0000 % buffLen == 0
      ensures StartsWithFrame(buff[..]) ==> ends && text == PayloadOf(buff[..])
      ensures !StartsWithFrame(buff[..]) ==>
                text == [] && (ends <==> LengthField(buff[..]) + buffLen <= 0x1_0000_0000)
    {
      hide StartsWithFrame, Frame, LoadLength, Cut, Collecting, WrappedSum;
      var part := new byte[buffLen];
      ghost var b := buff[..];
      text, ends := [], true;
      var pyLen := PayloadLen();
      var offset: nat := 0;
      CollectingStarts(b, buffLen);
      while offset < pyLen
        invariant buff[..] == b && pyLen == LengthField(b) && ends
        invariant offset < 0x1_0000_0000 && Collecting(b, buffLen, offset, text)
        decreases pyLen - offset
      {
        CollectingRound(b, buffLen, offset, text);
        if StartsWithFrame(b) {
          PartOfFrame(b, buffLen, offset);
        }
        var n := PayloadPart(part, buffLen, offset);
        text := text + part[..n];
        offset := WrappedSum(offset, buffLen);
        if offset == 0 {
          return text, false;
        }
      }
      CollectingEnds(b, buffLen, offset, text);
    }

    method Equals(right: StreamPacket) returns (res: bool)
      requires Valid() && right.Valid() && buffLen <= LEN_MAX_BUFFER && right.buffLen <= LEN_MAX_BUFFER
      ensures res <==> buff[..buffLen] == right.buff[..right.buffLen]
    {
      res := buffLen == right.buffLen && buff[..buffLen] == right.buff[..buffLen];
    }
  }
}
