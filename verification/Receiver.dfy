/**
 The packet receiver: a byte-driven state machine over a refilled chunk buffer. A run over a
 stream is proved to perform `Scan.ChunkScan`, for every stream and every chunk size.
 */
module Receivers {
  import opened ByteNumbers
  import opened Bytes
  import opened Blocks
  import opened Frames
  import opened Scan
  import opened Judging
  import opened MemStreams
  import opened StreamPackets

  datatype ParseResult = ERROR | CONTINUE | NEXT | FINISH

  datatype SocketResult = SR_EMPTY | SR_SUCCESS | SR_ERROR_CRC | SR_ERROR_AGAIN | SR_ERROR_PARSE

  /**
   How `recvPacket` comes out: it returns a result, it loops for ever because the read position
   was set behind the chunk's end, or it writes behind the packet array. C++ gives the last no meaning.
   */
  datatype Exit = Returned(result: SocketResult) | LoopsForever | PastPacket

  ghost function Prepend(log: seq<Event>, run: Run): Run {
    Run(log + run.events, run.outcome)
  }

  /** The first `len` bytes of `chunk` are a whole chunk of the stream, up to its offset `end`. */
  ghost predicate Chunked(s: seq<byte>, chunk: seq<byte>, len: nat, end: nat) {
    && 0 < |chunk|
    && len <= end <= |s|
    && len <= |chunk|
    && if len == 0 then
         end % |chunk| == 0 || end == |s|
       else
         && (end - len) % |chunk| == 0
         && (len == |chunk| || end == |s|)
         && chunk[..len] == s[end - len..end]
  }

  class SocketClientPacket {
    const maxBuffLen: nat
    const lenghtBuff: array<byte>
    const buff: array<byte>

    var posBuffBeginPack: nat
    var lenghtBuffPos: nat
    var lenPayload: nat

    var lenBuff: nat
    var posBuff: nat
    var offsetBuff: nat
    var posPacket: nat
    var parsFunc: Phase

    /** The callbacks made and the CRC rejections reported so far, in order. */
    var log: seq<Event>

    ghost predicate Valid()
      reads this
    {
      && 0 < maxBuffLen <= LEN_MAX_BUFFER
      && buff.Length == maxBuffLen
      && lenghtBuff.Length == LEN_PLEN
      && buff != lenghtBuff
    }

    /** The state a new client has, and the state it returns to between packets. */
    ghost predicate Ready()
      reads this
    {
      && Valid()
      && lenBuff == 0 && posBuff == 0 && offsetBuff == 0
      && posPacket == 0 && parsFunc == ScanMID && lenghtBuffPos == 0
    }

    constructor (maxBuffLen: nat)
      requires 0 < maxBuffLen <= LEN_MAX_BUFFER
      ensures Ready() && fresh(buff) && fresh(lenghtBuff)
      ensures this.maxBuffLen == maxBuffLen && log == []
    {
      this.maxBuffLen := maxBuffLen;
      buff := new byte[maxBuffLen];
      lenghtBuff := new byte[LEN_PLEN];
      posBuffBeginPack, lenghtBuffPos, lenPayload := 0, 0, 0;
      lenBuff, posBuff, offsetBuff, posPacket := 0, 0, 0, 0;
      parsFunc := ScanMID;
      log := [];
    }

    // ----- the three phase functions -----

    method RecvScanMID(b: byte, posBuff: nat, posPacket: nat) returns (res: ParseResult)
      modifies this`posBuffBeginPack
      ensures res == if posPacket < LEN_MID && b == MAGIC[posPacket]
                     then (if posPacket == LEN_MID - 1 then NEXT else CONTINUE)
                     else ERROR
      ensures posBuffBeginPack == if posPacket == 0 then posBuff else old(posBuffBeginPack)
    {
      res := ERROR;
      if posPacket < LEN_MID {
        if posPacket == 0 {
          posBuffBeginPack := posBuff;
        }
        if b == MAGIC[posPacket] {
          res := if posPacket == LEN_MID - 1 then NEXT else CONTINUE;
        }
      }
    }

    method RecvParseDataLength(b: byte, posPacket: nat) returns (res: ParseResult)
      requires Valid()
      requires POS_PLEN <= posPacket < POS_PAYLOAD ==> lenghtBuffPos == posPacket - POS_PLEN
      modifies this`lenghtBuffPos, this`lenPayload, lenghtBuff
      ensures if POS_PLEN <= posPacket < POS_PAYLOAD
              then lenghtBuff[..posPacket - POS_PLEN + 1] == old(lenghtBuff[..posPacket - POS_PLEN]) + [b]
              else res == ERROR && lenghtBuffPos == 0 && lenPayload == old(lenPayload)
      ensures POS_PLEN <= posPacket < POS_PAYLOAD - 1 ==>
                res == CONTINUE && lenghtBuffPos == old(lenghtBuffPos) + 1 && lenPayload == old(lenPayload)
      ensures posPacket == POS_PAYLOAD - 1 ==>
                && lenghtBuffPos == 0
                && lenPayload == LoadLength(lenghtBuff[..])
                && res == if lenPayload > LEN_MAX_BUFFER then ERROR else NEXT
    {
      res := ERROR;
      if POS_PLEN <= posPacket < POS_PAYLOAD {
        lenghtBuff[lenghtBuffPos] := b;
        lenghtBuffPos := lenghtBuffPos + 1;
        if posPacket == POS_PAYLOAD - 1 {
          lenghtBuffPos := 0;
          lenPayload := LoadLength(lenghtBuff[..]);
          res := if lenPayload > LEN_MAX_BUFFER then ERROR else NEXT;
        } else {
          res := CONTINUE;
        }
      } else {
        lenghtBuffPos := 0;
      }
    }

    method RecvPayload(posPacket: nat) returns (res: ParseResult)
      ensures res == if POS_PAYLOAD <= posPacket < LEN_OVERHEAD + lenPayload - 1 then CONTINUE
                     else if posPacket == LEN_OVERHEAD + lenPayload - 1 then FINISH
                     else ERROR
    {
      res := ERROR;
      if POS_PAYLOAD <= posPacket < POS_PAYLOAD + lenPayload + LEN_CRC - 1 {
        res := CONTINUE;
      } else if posPacket == POS_PAYLOAD + lenPayload + LEN_CRC - 1 {
        res := FINISH;
      }
    }

    // ----- what holds between bytes -----

    /** The current chunk is the stretch of the stream it was read from. */
    ghost predicate Buffered(s: seq<byte>)
      reads this, buff
    {
      && Valid()
      && lenBuff <= maxBuffLen && lenBuff <= offsetBuff <= |s|
      && (lenBuff == 0 ==> posBuff == 0)
      && Chunked(s, buff[..], lenBuff, offsetBuff)
    }

    /** The parser is `posPacket` bytes into the candidate at i, and the read position is just behind them. */
    ghost predicate InCandidate(s: seq<byte>, i: nat)
      reads this, buff, lenghtBuff
    {
      && Buffered(s)
      && posBuff <= lenBuff
      && i + posPacket == offsetBuff - lenBuff + posBuff
      && Partial(s[i..], posPacket, parsFunc, lenPayload)
      && (posPacket > 0 ==> posBuffBeginPack == i % maxBuffLen)
      && (if parsFunc == DataLength
          then lenghtBuffPos == posPacket - POS_PLEN
            && lenghtBuff[..lenghtBuffPos] == s[i + POS_PLEN..i + posPacket]
          else lenghtBuffPos == 0)
    }

    /** The packet holds the bytes of the candidate seen so far. */
    ghost predicate Holds(packet: StreamPacket, s: seq<byte>, i: nat)
      reads this, packet, packet.buff
    {
      && packet.Valid()
      && posPacket <= LEN_MAX_BUFFER
      && i + posPacket <= |s|
      && packet.buff[..posPacket] == s[i..i + posPacket]
    }

    // ----- one byte -----

    /** The length bytes collected for the candidate at i once `got` of its bytes are seen. */
    ghost predicate LengthCollected(s: seq<byte>, i: nat, got: nat, phase: Phase)
      requires Valid()
      reads this, lenghtBuff
    {
      Collected(s, i, got, phase, lenghtBuffPos)
    }

    /** The same, of the length buffer alone. */
    ghost predicate Collected(s: seq<byte>, i: nat, got: nat, phase: Phase, pos: nat)
      requires lenghtBuff.Length == LEN_PLEN
      reads lenghtBuff
    {
      if phase == DataLength
      then POS_PLEN <= got < POS_PAYLOAD && i + got <= |s|
        && pos == got - POS_PLEN && lenghtBuff[..pos] == s[i + POS_PLEN..i + got]
      else pos == 0
    }

    /** What a phase function's result means for the candidate at i. */
    ghost predicate Says(res: ParseResult, s: seq<byte>, i: nat)
      requires Valid() && i <= |s|
      reads this, lenghtBuff
    {
      && posBuffBeginPack == i % maxBuffLen
      && match res
         case CONTINUE =>
           Partial(s[i..], posPacket + 1, parsFunc, lenPayload) && LengthCollected(s, i, posPacket + 1, parsFunc)
         case NEXT =>
           && parsFunc != Payload
           && Partial(s[i..], posPacket + 1, NextPhase(parsFunc), lenPayload)
           && LengthCollected(s, i, posPacket + 1, NextPhase(parsFunc))
         case ERROR => Judge(s[i..]) == Refuted(posPacket + 1, ParseError) && lenghtBuffPos == 0
         case FINISH =>
           && parsFunc == Payload && Partial(s[i..], posPacket, Payload, lenPayload)
           && posPacket + 1 == LEN_OVERHEAD + lenPayload && lenghtBuffPos == 0
    }

    /** The byte at the read position, judged by the phase the parser is in. */
    method CallParser(b: byte, ghost s: seq<byte>, ghost i: nat) returns (res: ParseResult)
      requires InCandidate(s, i) && posBuff < lenBuff && b == buff[posBuff]
      modifies this`posBuffBeginPack, this`lenghtBuffPos, this`lenPayload, lenghtBuff
      ensures i + posPacket < |s| && b == s[i + posPacket]
      ensures Says(res, s, i)
    {
      hide Judge, LoadLength, Partial, Chunked, Says;
      ByteInPlace(s, i);
      match parsFunc
      case ScanMID =>
        res := CallScanMID(b, s, i);
      case DataLength =>
        res := CallDataLength(b, s, i);
      case Payload =>
        res := RecvPayload(posPacket);
        PayloadSays(res, s, i);
    }

    lemma ByteInPlace(s: seq<byte>, i: nat)
      requires InCandidate(s, i) && posBuff < lenBuff
      ensures i + posPacket < |s| && buff[posBuff] == s[i + posPacket]
      ensures posPacket == 0 ==> posBuff == i % maxBuffLen
    {
      hide Partial, Chunked;
      ChunkByte(s, buff[..], lenBuff, offsetBuff, posBuff);
      IndexInChunk(offsetBuff - lenBuff, posBuff, maxBuffLen);
    }

    method CallScanMID(b: byte, ghost s: seq<byte>, ghost i: nat) returns (res: ParseResult)
      requires InCandidate(s, i) && parsFunc == ScanMID
      requires i + posPacket < |s| && b == s[i + posPacket] && (posPacket == 0 ==> posBuff == i % maxBuffLen)
      modifies this`posBuffBeginPack
      ensures Says(res, s, i)
    {
      hide Judge, LoadLength, Chunked;
      assert s[i..][posPacket] == b;
      res := RecvScanMID(b, posBuff, posPacket);
      if b == MAGIC[posPacket] {
        MagicByteFits(s[i..], posPacket, lenPayload);
      } else {
        MagicByteRefutes(s[i..], posPacket, lenPayload);
      }
    }

    method CallDataLength(b: byte, ghost s: seq<byte>, ghost i: nat) returns (res: ParseResult)
      requires InCandidate(s, i) && parsFunc == DataLength
      requires i + posPacket < |s| && b == s[i + posPacket]
      modifies this`lenghtBuffPos, this`lenPayload, lenghtBuff
      ensures Says(res, s, i)
    {
      hide Judge, LoadLength, Chunked;
      ghost var t := s[i..];
      ghost var before := lenPayload;
      res := RecvParseDataLength(b, posPacket);
      assert s[i + POS_PLEN..i + posPacket + 1] == s[i + POS_PLEN..i + posPacket] + [b];
      if posPacket == POS_PAYLOAD - 1 {
        assert lenghtBuff[..] == lenghtBuff[..LEN_PLEN];
        assert t[POS_PLEN..POS_PAYLOAD] == s[i + POS_PLEN..i + POS_PAYLOAD];
        LengthByteSettles(t, before, lenPayload);
      }
    }

    lemma PayloadSays(res: ParseResult, s: seq<byte>, i: nat)
      requires InCandidate(s, i) && parsFunc == Payload && i + posPacket < |s|
      requires res == if POS_PAYLOAD <= posPacket < LEN_OVERHEAD + lenPayload - 1 then CONTINUE
                      else if posPacket == LEN_OVERHEAD + lenPayload - 1 then FINISH
                      else ERROR
      ensures Says(res, s, i)
    {
      hide Judge, LoadLength, Chunked;
    }

    ghost predicate AtStart()
      reads this
    {
      parsFunc == ScanMID && posPacket == 0 && lenghtBuffPos == 0
    }

    /** A complete candidate: it is delivered or, when its check fails, given up. */
    method FinishPacket(packet: StreamPacket, ghost s: seq<byte>, ghost i: nat) returns (isDone: bool)
      requires packet.Valid() && i <= |s|
      requires posPacket < LEN_MAX_BUFFER && i + posPacket < |s|
      requires Partial(s[i..], posPacket, Payload, lenPayload) && posPacket + 1 == LEN_OVERHEAD + lenPayload
      requires packet.buff[..posPacket + 1] == s[i..i + posPacket + 1]
      modifies this`posPacket, this`posBuff, this`parsFunc, this`log, packet`buffLen
      ensures posPacket == 0 && parsFunc == ScanMID
      ensures if isDone
              then && Judge(s[i..]) == Verdict.Valid(old(posPacket) + 1)
                   && log == old(log) && posBuff == old(posBuff)
                   && packet.buffLen == old(posPacket) + 1
              else && Judge(s[i..]) == Refuted(old(posPacket) + 1, CrcRejected)
                   && log == old(log) + [CrcRejected] && posBuff == posBuffBeginPack
    {
      hide Judge, Partial, StartsWithFrame;
      posPacket := posPacket + 1;
      packet.buffLen := posPacket;
      assert s[i..][..posPacket] == s[i..i + posPacket];
      assert packet.buff[..][..posPacket] == packet.buff[..posPacket];
      LastByteSettles(s[i..], posPacket - 1, lenPayload, packet.buff[..]);
      isDone := packet.Check();
      if !isDone {
        log := log + [CrcRejected];
        posBuff := posBuffBeginPack;
      }
      parsFunc := ScanMID;
      posPacket := 0;
    }

    /** The candidate at i has been given up: the read position is one behind its start, in this chunk. */
    ghost predicate Rewound(s: seq<byte>, i: nat)
      reads this, buff
    {
      Buffered(s) && AtStart() && posBuff == i % maxBuffLen + 1
    }

    /** What being in a candidate comes to, and back. */
    lemma CandidateIs(s: seq<byte>, i: nat, packet: StreamPacket)
      requires InCandidate(s, i) && Holds(packet, s, i)
      ensures Buffered(s) && posBuff <= lenBuff && i + posPacket == offsetBuff - lenBuff + posBuff && i <= |s|
      ensures packet.Valid() && i + posPacket <= |s| && packet.buff[..posPacket] == s[i..i + posPacket]
      ensures posPacket <= LEN_MAX_BUFFER
    {
      hide Partial, Chunked;
    }

    lemma CandidateFrom(s: seq<byte>, i: nat, packet: StreamPacket)
      requires Buffered(s) && posBuff <= lenBuff && i + posPacket == offsetBuff - lenBuff + posBuff && i <= |s|
      requires packet.Valid() && posPacket <= LEN_MAX_BUFFER && packet.buff[..posPacket] == s[i..i + posPacket]
      requires Partial(s[i..], posPacket, parsFunc, lenPayload) && LengthCollected(s, i, posPacket, parsFunc)
      requires posPacket > 0 ==> posBuffBeginPack == i % maxBuffLen
      ensures InCandidate(s, i) && Holds(packet, s, i)
    {
      hide Partial, Chunked;
    }

    /** The body of the byte loop, with the increment of the read position that follows it. */
    method ConsumeByte(packet: StreamPacket, ghost s: seq<byte>, ghost i: nat) returns (isDone: bool, ghost fate: Fate)
      requires InCandidate(s, i) && posBuff < lenBuff && Holds(packet, s, i)
      requires posPacket < LEN_MAX_BUFFER
      requires packet.buff != buff && packet.buff != lenghtBuff
      modifies this, lenghtBuff, packet`buffLen, packet.buff
      ensures lenBuff == old(lenBuff) && offsetBuff == old(offsetBuff)
      ensures isDone <==> fate == Complete
      ensures fate == Pending ==>
                && posPacket == old(posPacket) + 1 && posBuff == old(posBuff) + 1 && log == old(log)
                && InCandidate(s, i) && Holds(packet, s, i)
      ensures fate.Refused? ==>
                && Judge(s[i..]) == Refuted(old(posPacket) + 1, fate.event)
                && log == old(log) + [fate.event]
                && Rewound(s, i)
      ensures fate == Complete ==>
                && Judge(s[i..]) == Verdict.Valid(old(posPacket) + 1)
                && log == old(log) && posBuff == old(posBuff) + 1
                && Buffered(s) && AtStart()
                && packet.buffLen == old(posPacket) + 1
                && packet.buff[..packet.buffLen] == s[i..i + packet.buffLen]
    {
      hide Judge, Partial, StartsWithFrame, Chunked, InCandidate, Holds, Says, LengthCollected;
      CandidateIs(s, i, packet);
      var b := buff[posBuff];
      packet.buff[posPacket] := b;
      var res := CallParser(b, s, i);
      assert packet.buff[..posPacket + 1] == s[i..i + posPacket + 1];
      isDone, fate := ActOn(res, packet, s, i);
      posBuff := posBuff + 1;
      if fate == Pending {
        Moved(s, i, packet);
      }
    }

    /** The switch over the phase function's result. */
    method ActOn(res: ParseResult, packet: StreamPacket, ghost s: seq<byte>, ghost i: nat)
      returns (isDone: bool, ghost fate: Fate)
      requires Buffered(s) && lenBuff > 0 && i + posPacket < |s| && posPacket < LEN_MAX_BUFFER
      requires packet.Valid() && packet.buff[..posPacket + 1] == s[i..i + posPacket + 1]
      requires Says(res, s, i)
      modifies this, packet`buffLen
      ensures lenBuff == old(lenBuff) && offsetBuff == old(offsetBuff) && Buffered(s)
      ensures isDone <==> fate == Complete
      ensures fate == Pending ==>
                && posPacket == old(posPacket) + 1 && posBuff == old(posBuff) && log == old(log)
                && Partial(s[i..], posPacket, parsFunc, lenPayload)
                && Collected(s, i, posPacket, parsFunc, lenghtBuffPos)
                && posBuffBeginPack == i % maxBuffLen
      ensures fate.Refused? ==>
                && Judge(s[i..]) == Refuted(old(posPacket) + 1, fate.event)
                && log == old(log) + [fate.event]
                && AtStart() && posBuff == i % maxBuffLen
      ensures fate == Complete ==>
                && Judge(s[i..]) == Verdict.Valid(old(posPacket) + 1)
                && log == old(log) && posBuff == old(posBuff) && AtStart()
                && packet.buffLen == old(posPacket) + 1
    {
      hide Judge, Partial, StartsWithFrame, Chunked, Collected;
      isDone := false;
      match res {
        case CONTINUE =>
          posPacket := posPacket + 1;
          fate := Pending;
        case NEXT =>
          posPacket := posPacket + 1;
          parsFunc := NextPhase(parsFunc);
          fate := Pending;
        case ERROR =>
          GiveUp();
          fate := Refused(ParseError);
        case FINISH =>
          isDone := FinishPacket(packet, s, i);
          fate := if isDone then Complete else Refused(CrcRejected);
      }
    }

    lemma Moved(s: seq<byte>, i: nat, packet: StreamPacket)
      requires Buffered(s) && posBuff <= lenBuff && i + posPacket == offsetBuff - lenBuff + posBuff && i <= |s|
      requires packet.Valid() && posPacket <= LEN_MAX_BUFFER && packet.buff[..posPacket] == s[i..i + posPacket]
      requires Partial(s[i..], posPacket, parsFunc, lenPayload)
      requires Collected(s, i, posPacket, parsFunc, lenghtBuffPos)
      requires posBuffBeginPack == i % maxBuffLen
      ensures InCandidate(s, i) && Holds(packet, s, i)
    {
      hide Partial, Chunked;
      CandidateFrom(s, i, packet);
    }

    method GiveUp()
      modifies this`log, this`parsFunc, this`posPacket, this`posBuff
      ensures log == old(log) + [ParseError]
      ensures parsFunc == ScanMID && posPacket == 0 && posBuff == posBuffBeginPack
    {
      log := log + [ParseError];
      parsFunc := ScanMID;
      posPacket := 0;
      posBuff := posBuffBeginPack;
    }

    // ----- a packet -----

    /** Where in the stream the candidate being collected starts. */
    ghost function Start(): int
      reads this
    {
      offsetBuff - lenBuff + posBuff - posPacket
    }

    /** The callbacks so far and those of the scan still to be made from the current candidate on. */
    ghost function Total(s: seq<byte>): Run
      reads this
    {
      if 0 <= Start() <= |s| && maxBuffLen > 0 then Prepend(log, ChunkScan(s, maxBuffLen, Start())) else Run([], Stuck)
    }

    /** A candidate is being collected in step with the stream. */
    ghost predicate Scanning(s: seq<byte>, packet: StreamPacket)
      reads this, buff, lenghtBuff, packet, packet.buff
    {
      0 <= Start() <= |s| && InCandidate(s, Start()) && Holds(packet, s, Start())
    }

    /** A packet has been collected, and the scan can go on behind it. */
    ghost predicate Delivering(s: seq<byte>, packet: StreamPacket, total: Run)
      reads this, buff, packet, packet.buff
    {
      && Buffered(s) && AtStart() && posBuff <= lenBuff
      && 0 <= Start() <= |s|
      && packet.Valid() && packet.buffLen <= LEN_MAX_BUFFER
      && total == Prepend(log + [Delivered(packet.buff[..packet.buffLen])], ChunkScan(s, maxBuffLen, Start()))
    }

    /**
     How far a run whose callbacks are to be `total` has come: it has a packet, its read position
     is behind the chunk, or it goes on collecting.
     */
    ghost predicate Progress(s: seq<byte>, packet: StreamPacket, isDone: bool, total: Run)
      reads this, buff, lenghtBuff, packet, packet.buff
    {
      if isDone then Delivering(s, packet, total)
      else if posBuff > lenBuff then total == Run(log, Stuck)
      else Scanning(s, packet) && total == Total(s)
    }

    /** The stream is sound, it holds `s`, and its memory is none of the receiver's or the packet's. */
    ghost predicate Source(stream: MemStream, packet: StreamPacket, s: seq<byte>)
      reads stream, stream.Repr
    {
      && stream.Valid() && stream.Contents() == s
      && this !in stream.Repr && buff !in stream.Repr && lenghtBuff !in stream.Repr
      && packet !in stream.Repr && packet.buff !in stream.Repr
      && packet.buff != buff && packet.buff != lenghtBuff
    }

    /** An undecided candidate leaves the callbacks to come as they were. */
    lemma PendingProgress(s: seq<byte>, packet: StreamPacket, i: nat, total: Run)
      requires i <= |s| && InCandidate(s, i) && Holds(packet, s, i)
      requires total == Prepend(log, ChunkScan(s, maxBuffLen, i))
      ensures Start() == i && Progress(s, packet, false, total)
    {
      hide Judge, Partial, ChunkScan, Chunked, Holds, LengthCollected;
    }

    /** A refused one is behind the scan, which goes on from where the read position is, or not at all. */
    lemma RefusedProgress(s: seq<byte>, packet: StreamPacket, i: nat, j: nat, event: Event, before: seq<Event>, total: Run)
      requires Rewound(s, i) && packet.Valid() && log == before + [event]
      requires i <= j < |s| && j - i < LEN_MAX_BUFFER && Judge(s[i..]) == Refuted(j - i + 1, event)
      requires ChunkStart(j, maxBuffLen) == offsetBuff - lenBuff && ChunkEnd(s, j, maxBuffLen) == offsetBuff
      requires total == Prepend(before, ChunkScan(s, maxBuffLen, i))
      ensures i < Start() && Progress(s, packet, false, total)
    {
      hide Judge, Partial, ChunkScan, Chunked, ChunkStart, ChunkEnd, LengthCollected;
      RefusalContinues(s, maxBuffLen, i, j, event, before);
      if posBuff <= lenBuff {
        StartIsPartial(s[Start()..], lenPayload);
        assert packet.buff[..0] == s[Start()..Start()];
      }
    }

    /** A complete one is the next delivery of the scan. */
    lemma CompleteProgress(s: seq<byte>, packet: StreamPacket, i: nat, used: nat, total: Run)
      requires Buffered(s) && AtStart() && posBuff <= lenBuff && packet.Valid()
      requires LEN_OVERHEAD <= used == packet.buffLen <= LEN_MAX_BUFFER && i + used <= |s| && Start() == i + used
      requires Judge(s[i..]) == Verdict.Valid(used) && packet.buff[..used] == s[i..i + used]
      requires total == Prepend(log, ChunkScan(s, maxBuffLen, i))
      ensures i < Start() && Progress(s, packet, true, total)
    {
      hide Judge, Partial, ChunkScan, Chunked, LengthCollected;
      DeliveryContinues(s, maxBuffLen, i, used, log);
    }

    /** Where the byte about to be read lies. */
    lemma ByteToRead(s: seq<byte>, packet: StreamPacket)
      requires Scanning(s, packet) && posBuff < lenBuff
      ensures var i, j := Start(), offsetBuff - lenBuff + posBuff;
              && 0 <= i <= j < |s| && j == i + posPacket
              && InCandidate(s, i) && Holds(packet, s, i) && packet.Valid()
              && ChunkStart(j, maxBuffLen) == offsetBuff - lenBuff && ChunkEnd(s, j, maxBuffLen) == offsetBuff
              && Total(s) == Prepend(log, ChunkScan(s, maxBuffLen, i))
    {
      hide Judge, Partial, ChunkScan, Chunked, ChunkStart, ChunkEnd, LengthCollected;
      WhereChunkEnds(s, buff[..], lenBuff, offsetBuff, posBuff);
    }

    /** One round of the byte loop moves on, and the callbacks to come stay what they were. */
    method ScanByte(packet: StreamPacket, ghost s: seq<byte>) returns (isDone: bool)
      requires Scanning(s, packet) && posBuff < lenBuff && posPacket < LEN_MAX_BUFFER
      requires packet.buff != buff && packet.buff != lenghtBuff
      modifies this, lenghtBuff, packet`buffLen, packet.buff
      ensures lenBuff == old(lenBuff) && offsetBuff == old(offsetBuff)
      ensures Progress(s, packet, isDone, old(Total(s)))
      ensures old(Start()) < Start() || (old(Start()) == Start() && posBuff == old(posBuff) + 1)
      ensures isDone ==> old(Start()) < Start() && posBuff <= lenBuff
    {
      hide Judge, ChunkScan, Scanning, InCandidate, Holds, Rewound, Buffered, Progress, Total, Prepend, ChunkStart, ChunkEnd;
      ByteToRead(s, packet);
      ghost var i, j, before, total := Start(), offsetBuff - lenBuff + posBuff, log, Total(s);
      ghost var fate;
      isDone, fate := ConsumeByte(packet, s, i);
      match fate
      case Pending =>
        PendingProgress(s, packet, i, total);
      case Refused(event) =>
        RefusedProgress(s, packet, i, j, event, before, total);
      case Complete =>
        JudgeUses(s[i..]);
        CompleteProgress(s, packet, i, packet.buffLen, total);
    }

    /** The byte loop over one chunk. It ends at the chunk's end, behind it, or with a packet. */
    method ScanBuffer(packet: StreamPacket, ghost stream: MemStream, ghost s: seq<byte>) returns (isDone: bool, past: bool)
      requires Source(stream, packet, s)
      requires Scanning(s, packet) && posBuff < lenBuff
      modifies this, lenghtBuff, packet`buffLen, packet.buff
      ensures Source(stream, packet, s)
      ensures lenBuff == old(lenBuff) && offsetBuff == old(offsetBuff)
      ensures past ==> old(Total(s)) == Run(log, Overrun)
      ensures !past ==> Progress(s, packet, isDone, old(Total(s)))
      ensures !past && !isDone ==> posBuff >= lenBuff
      ensures !past ==> old(Start()) < Start() || (old(Start()) == Start() && posBuff > old(posBuff))
      ensures !past && isDone ==> old(Start()) < Start() && posBuff <= lenBuff
    {
      hide Scanning, Total, Delivering;
      isDone, past := false, false;
      while posBuff < lenBuff && !isDone
        invariant packet.buff != buff && packet.buff != lenghtBuff
        invariant lenBuff == old(lenBuff) && offsetBuff == old(offsetBuff)
        invariant Progress(s, packet, isDone, old(Total(s)))
        invariant old(Start()) < Start() || (old(Start()) == Start() && posBuff >= old(posBuff))
        invariant isDone ==> old(Start()) < Start() && posBuff <= lenBuff
        decreases !isDone, |s| - Start(), lenBuff - posBuff
      {
        if posPacket >= LEN_MAX_BUFFER {
          Overruns(packet, s);
          past := true;
          return;
        }
        StartInStream(packet, s);
        isDone := ScanByte(packet, s);
      }
    }

    lemma StartInStream(packet: StreamPacket, s: seq<byte>)
      requires Scanning(s, packet)
      ensures 0 <= Start() <= |s| && offsetBuff <= |s| && (lenBuff == 0 ==> posBuff == 0)
    {
    }

    lemma Overruns(packet: StreamPacket, s: seq<byte>)
      requires Scanning(s, packet) && posBuff < lenBuff && posPacket >= LEN_MAX_BUFFER
      ensures Total(s) == Run(log, Overrun)
    {
      hide Partial, ChunkScan, Chunked;
      OverrunEndsScan(s, maxBuffLen, Start(), parsFunc, lenPayload, log);
    }

    /** What collecting a candidate comes to, and back. */
    lemma ScanningIs(s: seq<byte>, packet: StreamPacket)
      requires Scanning(s, packet)
      ensures var i := Start();
              && 0 <= i && Buffered(s) && posBuff <= lenBuff
              && packet.Valid() && posPacket <= LEN_MAX_BUFFER && i + posPacket <= |s|
              && packet.buff[..posPacket] == s[i..i + posPacket]
              && Partial(s[i..], posPacket, parsFunc, lenPayload)
              && Collected(s, i, posPacket, parsFunc, lenghtBuffPos)
              && (posPacket > 0 ==> posBuffBeginPack == i % maxBuffLen)
    {
      hide Chunked, LoadLength;
    }

    lemma ScanningFrom(s: seq<byte>, packet: StreamPacket, i: nat)
      requires i == Start() && Buffered(s) && posBuff <= lenBuff
      requires packet.Valid() && posPacket <= LEN_MAX_BUFFER && i + posPacket <= |s|
      requires packet.buff[..posPacket] == s[i..i + posPacket]
      requires Partial(s[i..], posPacket, parsFunc, lenPayload)
      requires Collected(s, i, posPacket, parsFunc, lenghtBuffPos)
      requires posPacket > 0 ==> posBuffBeginPack == i % maxBuffLen
      ensures Scanning(s, packet)
    {
      hide Partial, Chunked, InCandidate, Holds;
      CandidateFrom(s, i, packet);
    }

    /** Refilling reads the next chunk, or nothing at the end of the stream. */
    method Refill(stream: MemStream, packet: StreamPacket, ghost s: seq<byte>)
      requires Source(stream, packet, s)
      requires Scanning(s, packet) && lenBuff == 0
      modifies this`lenBuff, this`offsetBuff, buff
      ensures Source(stream, packet, s)
      ensures Scanning(s, packet) && posBuff == 0
      ensures Start() == old(Start()) && Total(s) == old(Total(s))
      ensures lenBuff == 0 ==> offsetBuff == |s|
    {
      hide Partial, Collected, Scanning, MemStream.Valid, MemStream.Contents, ChunkScan, Chunked, Cut;
      ScanningIs(s, packet);
      ghost var i, end := Start(), offsetBuff;
      lenBuff := stream.Read(buff, maxBuffLen, offsetBuff);
      offsetBuff := offsetBuff + lenBuff;
      assert buff[..][..lenBuff] == buff[..lenBuff];
      ReadIsChunk(s, old(buff[..]), buff[..], lenBuff, end);
      ScanningFrom(s, packet, i);
    }

    /** A chunk that is used up makes room for the next. */
    method EndChunk(packet: StreamPacket, ghost stream: MemStream, ghost s: seq<byte>, isDone: bool, ghost total: Run)
      requires Source(stream, packet, s)
      requires Progress(s, packet, isDone, total)
      modifies this`lenBuff, this`posBuff
      ensures Source(stream, packet, s)
      ensures Progress(s, packet, isDone, total)
      ensures Start() == old(Start()) && offsetBuff - lenBuff + posBuff == old(offsetBuff - lenBuff + posBuff)
      ensures if old(posBuff) == old(lenBuff) then posBuff == 0 && lenBuff == 0
              else posBuff == old(posBuff) && lenBuff == old(lenBuff)
    {
      hide Partial, ChunkScan, Chunked, Collected;
      if posBuff == lenBuff {
        NextChunkIsAligned(s, buff[..], lenBuff, offsetBuff);
        posBuff := 0;
        lenBuff := 0;
      }
    }

    /** The stream is used up. What is left of it is a candidate that is still undecided. */
    ghost predicate Drained(total: Run)
      reads this
    {
      && Valid()
      && lenBuff == 0 && posBuff == 0 && offsetBuff == 0
      && total == Run(log, Idle(posPacket))
      && (posPacket == 0 ==> parsFunc == ScanMID && lenghtBuffPos == 0)
    }

    method Drain(ghost stream: MemStream, packet: StreamPacket, ghost s: seq<byte>)
      requires Source(stream, packet, s)
      requires Scanning(s, packet) && lenBuff == 0 && offsetBuff == |s|
      modifies this`offsetBuff
      ensures Source(stream, packet, s)
      ensures Drained(old(Total(s)))
    {
      hide ChunkScan, Chunked, LengthCollected;
      EndOfStream(s, Start(), parsFunc, lenPayload, log);
      offsetBuff := 0;
    }

    /** Before a packet: nothing of it has been seen, and the chunk is not used up. */
    ghost predicate Between(s: seq<byte>)
      reads this, buff
    {
      Buffered(s) && AtStart() && (lenBuff == 0 || posBuff < lenBuff) && 0 <= Start() <= |s|
    }

    lemma BetweenScans(s: seq<byte>, packet: StreamPacket)
      requires Between(s) && packet.Valid()
      ensures Scanning(s, packet)
      ensures if lenBuff == 0 then posBuff == 0 else posBuff < lenBuff
    {
      StartIsPartial(s[Start()..], lenPayload);
      assert packet.buff[..0] == s[Start()..Start()];
    }

    method RecvPacket(packet: StreamPacket, stream: MemStream, ghost s: seq<byte>) returns (exit: Exit)
      requires Source(stream, packet, s) && packet.Valid()
      requires Between(s)
      modifies this, buff, lenghtBuff, packet`buffLen, packet.buff
      ensures Source(stream, packet, s)
      ensures match exit
              case Returned(SR_ERROR_AGAIN) =>
                Delivering(s, packet, old(Total(s))) && (lenBuff == 0 || posBuff < lenBuff) && old(Start()) < Start()
              case Returned(SR_EMPTY) => Drained(old(Total(s)))
              case Returned(_) => false
              case LoopsForever => old(Total(s)) == Run(log, Stuck)
              case PastPacket => old(Total(s)) == Run(log, Overrun)
    {
      hide Source, Scanning, Delivering, Total, Drained, Between;
      BetweenScans(s, packet);
      var isDone := false;
      while !isDone
        invariant Source(stream, packet, s)
        invariant Progress(s, packet, isDone, old(Total(s)))
        invariant if lenBuff == 0 then posBuff == 0 else posBuff != lenBuff
        invariant old(Start()) <= Start()
        invariant isDone ==> old(Start()) < Start() && (lenBuff == 0 || posBuff < lenBuff)
        decreases !isDone, |s| - Start(), |s| - (offsetBuff - lenBuff + posBuff)
      {
        if lenBuff > 0 && posBuff > lenBuff {
          return LoopsForever;
        }
        StartInStream(packet, s);
        if lenBuff == 0 {
          Refill(stream, packet, s);
        }
        if lenBuff == 0 {
          Drain(stream, packet, s);
          return Returned(SR_EMPTY);
        }
        var past;
        isDone, past := ScanBuffer(packet, stream, s);
        if past {
          return PastPacket;
        }
        EndChunk(packet, stream, s, isDone, old(Total(s)));
      }
      exit := Returned(SR_ERROR_AGAIN);
    }

    // ----- a stream -----

    /** What a run over the stream means for the caller: its callbacks, and how it comes out. */
    ghost predicate Performed(before: seq<Event>, exit: Exit, run: Run)
      reads this
    {
      && log == before + run.events
      && match run.outcome
         case Idle(tail) =>
           && exit == Returned(SR_EMPTY)
           && posPacket == tail && lenBuff == 0 && posBuff == 0 && offsetBuff == 0
           && (tail == 0 ==> Ready())
         case Stuck => exit == LoopsForever
         case Overrun => exit == PastPacket
    }

    lemma ReadyIsBetween(s: seq<byte>)
      requires Ready()
      ensures Between(s) && Total(s) == Prepend(log, ChunkScan(s, maxBuffLen, 0))
    {
      hide ChunkScan;
    }

    lemma StartBetween(s: seq<byte>)
      requires Between(s)
      ensures 0 <= Start() <= |s|
    {
    }

    /** The handler of complete packets; here it records the packet it is given. */
    method OnRecvPacket(packet: StreamPacket, ghost s: seq<byte>, ghost run: Run)
      requires Delivering(s, packet, run) && (lenBuff == 0 || posBuff < lenBuff)
      modifies this`log
      ensures log == old(log) + [Delivered(packet.buff[..packet.buffLen])]
      ensures Between(s) && Start() == old(Start()) && Total(s) == run
    {
      hide ChunkScan, Chunked;
      log := log + [Delivered(packet.buff[..packet.buffLen])];
    }

    /** One round of the receive loop: a new packet, one attempt to fill it, and its handler. */
    method RecvOne(stream: MemStream, ghost s: seq<byte>, ghost before: seq<Event>, ghost run: Run) returns (exit: Exit)
      requires stream.Valid() && stream.Contents() == s
      requires this !in stream.Repr && buff !in stream.Repr && lenghtBuff !in stream.Repr
      requires Between(s) && Total(s) == Prepend(before, run)
      modifies this, buff, lenghtBuff
      ensures stream.Valid() && stream.Contents() == s
      ensures if exit == Returned(SR_ERROR_AGAIN)
              then Between(s) && Total(s) == Prepend(before, run) && old(Start()) < Start()
              else Performed(before, exit, run)
    {
      hide ChunkScan, Between, Total, Delivering, Drained, Performed, MemStream.Valid, MemStream.Contents;
      var packet := new StreamPacket();
      exit := RecvPacket(packet, stream, s);
      match exit {
        case Returned(SR_ERROR_AGAIN) =>
          OnRecvPacket(packet, s, Prepend(before, run));
        case Returned(SR_EMPTY) =>
          DrainedPerforms(before, run);
        case Returned(_) =>
          assert false;
        case _ =>
          FailedPerforms(before, exit, run);
      }
    }

    /**
     One call per received stream. Each packet is handed on as soon as it is complete; the other
     results the switch provides for are never returned by `RecvPacket`.
     */
    method OnRecv(stream: MemStream) returns (exit: Exit)
      requires Ready() && stream.Valid()
      requires this !in stream.Repr && buff !in stream.Repr && lenghtBuff !in stream.Repr
      modifies this, buff, lenghtBuff
      ensures Performed(old(log), exit, ChunkScan(stream.Contents(), maxBuffLen, 0))
    {
      hide ChunkScan, Between, Total, Performed, MemStream.Valid, MemStream.Contents;
      ghost var s := stream.Contents();
      ghost var before, run := log, ChunkScan(s, maxBuffLen, 0);
      ReadyIsBetween(s);
      exit := Returned(SR_ERROR_AGAIN);
      while exit == Returned(SR_ERROR_AGAIN)
        invariant stream.Contents() == s && stream.Valid()
        invariant if exit == Returned(SR_ERROR_AGAIN) then Between(s) && Total(s) == Prepend(before, run)
                  else Performed(before, exit, run)
        decreases exit == Returned(SR_ERROR_AGAIN), |s| - Start()
      {
        StartBetween(s);
        exit := RecvOne(stream, s, before, run);
      }
    }

    lemma FailedPerforms(before: seq<Event>, exit: Exit, run: Run)
      requires exit == LoopsForever || exit == PastPacket
      requires Prepend(before, run) == Run(log, if exit == LoopsForever then Stuck else Overrun)
      ensures Performed(before, exit, run)
    {
    }

    lemma DrainedPerforms(before: seq<Event>, run: Run)
      requires Drained(Prepend(before, run))
      ensures Performed(before, Returned(SR_EMPTY), run)
    {
    }
  }

  lemma ReadIsChunk(s: seq<byte>, before: seq<byte>, chunk: seq<byte>, len: nat, end: nat)
    requires Chunked(s, before, 0, end) && |before| == |chunk|
    requires len == |Cut(s, end, |chunk|)| && chunk[..len] == Cut(s, end, |chunk|)
    ensures Chunked(s, chunk, len, end + len) && (len == 0 ==> end == |s|)
  {
  }

  lemma EndOfStream(s: seq<byte>, i: nat, phase: Phase, lenPayload: nat, log: seq<Event>)
    requires i <= |s| && Partial(s[i..], |s| - i, phase, lenPayload) && |s| - i <= LEN_MAX_BUFFER
    ensures forall n: nat | n > 0 :: Prepend(log, ChunkScan(s, n, i)) == Run(log, Idle(|s| - i))
  {
    hide Judge, Partial;
    EndLeavesUndecided(s[i..], phase, lenPayload);
    assert log + [] == log;
  }

  lemma NextChunkIsAligned(s: seq<byte>, chunk: seq<byte>, len: nat, end: nat)
    requires Chunked(s, chunk, len, end)
    ensures Chunked(s, chunk, 0, end)
  {
    if len > 0 && len == |chunk| {
      NextMultiple(end - len, |chunk|);
    }
  }

  lemma NextMultiple(base: nat, n: nat)
    requires n > 0
    ensures (base + n) % n == base % n
  {
    var p, q := base / n, (base + n) / n;
    StartPlusIndex(base, n);
    StartPlusIndex(base + n, n);
    ChunkStartIsMultiple(base, n);
    ChunkStartIsMultiple(base + n, n);
    assert n * (p + 1) == n * p + n;
    if q < p + 1 {
      MultiplesApart(n, q, p + 1);
      assert false;
    } else if p + 1 < q {
      MultiplesApart(n, p + 1, q);
      assert false;
    }
  }

  lemma OverrunEndsScan(s: seq<byte>, n: nat, i: nat, phase: Phase, lenPayload: nat, log: seq<Event>)
    requires n > 0 && i + LEN_MAX_BUFFER < |s|
    requires Partial(s[i..], LEN_MAX_BUFFER, phase, lenPayload)
    ensures Prepend(log, ChunkScan(s, n, i)) == Run(log, Overrun)
  {
    hide Judge, Partial;
    OverrunIsComing(s[i..], phase, lenPayload);
    assert log + [] == log;
  }

  lemma WhereChunkEnds(s: seq<byte>, chunk: seq<byte>, len: nat, end: nat, pos: nat)
    requires Chunked(s, chunk, len, end) && pos < len
    ensures ChunkStart(end - len + pos, |chunk|) == end - len
    ensures ChunkEnd(s, end - len + pos, |chunk|) == end
  {
    IndexInChunk(end - len, pos, |chunk|);
  }

  lemma RefusalContinues(s: seq<byte>, n: nat, i: nat, j: nat, event: Event, log: seq<Event>)
    requires n > 0 && i <= j < |s| && j - i < LEN_MAX_BUFFER
    requires Judge(s[i..]) == Refuted(j - i + 1, event)
    ensures Resume(i, j, n) > i
    ensures Prepend(log, ChunkScan(s, n, i))
         == if Resume(i, j, n) > ChunkEnd(s, j, n) then Run(log + [event], Stuck)
            else (ResumeFits(s, i, j, n); Prepend(log + [event], ChunkScan(s, n, Resume(i, j, n))))
  {
    hide Judge, Resume, ChunkEnd, ChunkStart;
    ResumeIsAhead(i, j, n);
    ResumeFits(s, i, j, n);
    if Resume(i, j, n) <= ChunkEnd(s, j, n) {
      Associate(log, [event], ChunkScan(s, n, Resume(i, j, n)).events);
    }
  }

  lemma DeliveryContinues(s: seq<byte>, n: nat, i: nat, used: nat, log: seq<Event>)
    requires n > 0 && i + used <= |s|
    requires Judge(s[i..]) == Verdict.Valid(used)
    ensures Prepend(log, ChunkScan(s, n, i)) == Prepend(log + [Delivered(s[i..i + used])], ChunkScan(s, n, i + used))
  {
    hide Judge;
    Associate(log, [Delivered(s[i..i + used])], ChunkScan(s, n, i + used).events);
  }

  datatype Fate = Pending | Refused(event: Event) | Complete

  function NextPhase(phase: Phase): Phase {
    if phase == ScanMID then DataLength else Payload
  }

  lemma ChunkByte(s: seq<byte>, chunk: seq<byte>, len: nat, end: nat, pos: nat)
    requires Chunked(s, chunk, len, end) && pos < len
    ensures chunk[pos] == s[end - len + pos] && (end - len) % |chunk| == 0
  {
    assert chunk[pos] == chunk[..len][pos] == s[end - len..end][pos];
  }

  lemma IndexInChunk(base: nat, pos: nat, n: nat)
    requires n > 0 && base % n == 0 && pos < n
    ensures (base + pos) % n == pos && ChunkStart(base + pos, n) == base
  {
    StartPlusIndex(base + pos, n);
    ChunkStartIsMultiple(base + pos, n);
    ChunkStartIsMultiple(base, n);
    var p, q := base / n, (base + pos) / n;
    if q < p {
      MultiplesApart(n, q, p);
      assert false;
    } else if p < q {
      MultiplesApart(n, p, q);
      assert false;
    }
  }
}
