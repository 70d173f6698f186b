/** What the receiver knows of a candidate after its first bytes, and what the next byte settles. */
module Judging {
  import opened ByteNumbers
  import opened Bytes
  import opened Frames
  import opened Scan

  /** The entries of the parser table that have a function. */
  datatype Phase = ScanMID | DataLength | Payload

  /** The candidate `t` is undecided by its first `got` bytes, and the parser is in step with it. */
  ghost predicate Partial(t: seq<byte>, got: nat, phase: Phase, lenPayload: nat) {
    && got <= |t|
    && match phase
       case ScanMID => got < LEN_MID && t[..got] == MAGIC[..got]
       case DataLength => POS_PLEN <= got < POS_PAYLOAD && t[..LEN_MID] == MAGIC
       case Payload =>
         && POS_PAYLOAD <= got < LEN_OVERHEAD + lenPayload
         && t[..LEN_MID] == MAGIC
         && lenPayload == LengthField(t) <= LEN_MAX_BUFFER
  }

  lemma StartIsPartial(t: seq<byte>, lenPayload: nat)
    ensures Partial(t, 0, ScanMID, lenPayload)
  {
  }

  lemma MagicByteFits(t: seq<byte>, got: nat, lenPayload: nat)
    requires Partial(t, got, ScanMID, lenPayload) && got < |t| && t[got] == MAGIC[got]
    ensures if got == LEN_MID - 1 then Partial(t, got + 1, DataLength, lenPayload) else Partial(t, got + 1, ScanMID, lenPayload)
  {
    assert t[..got + 1] == t[..got] + [t[got]];
    assert MAGIC[..got + 1] == MAGIC[..got] + [MAGIC[got]];
    assert MAGIC[..LEN_MID] == MAGIC;
  }

  lemma {:induction false} MatchReaches(t: seq<byte>, k: nat, got: nat)
    requires k <= got <= LEN_MID && got <= |t| && t[..got] == MAGIC[..got]
    ensures Match(t, k) == Match(t, got)
    decreases got - k
  {
    if k < got {
      assert t[k] == t[..got][k] == MAGIC[..got][k] == MAGIC[k];
      MatchReaches(t, k + 1, got);
    }
  }

  lemma MagicByteRefutes(t: seq<byte>, got: nat, lenPayload: nat)
    requires Partial(t, got, ScanMID, lenPayload) && got < |t| && t[got] != MAGIC[got]
    ensures Judge(t) == Refuted(got + 1, ParseError)
  {
    MatchReaches(t, 0, got);
  }

  lemma MagicMatches(t: seq<byte>)
    requires |t| >= LEN_MID && t[..LEN_MID] == MAGIC
    ensures Match(t, 0) == LEN_MID
  {
    assert MAGIC[..LEN_MID] == MAGIC;
    MatchReaches(t, 0, LEN_MID);
  }

  lemma LengthByteSettles(t: seq<byte>, lenPayload: nat, newLenPayload: nat)
    requires Partial(t, POS_PAYLOAD - 1, DataLength, lenPayload) && |t| >= POS_PAYLOAD
    requires newLenPayload == LengthField(t)
    ensures if newLenPayload > LEN_MAX_BUFFER then Judge(t) == Refuted(POS_PAYLOAD, ParseError)
            else Partial(t, POS_PAYLOAD, Payload, newLenPayload)
  {
    hide StartsWithFrame, LoadLength;
    MagicMatches(t);
  }

  /** The last byte of a candidate settles it, and the packet array agrees with the stream on how. */
  lemma LastByteSettles(t: seq<byte>, got: nat, lenPayload: nat, b: seq<byte>)
    requires Partial(t, got, Payload, lenPayload) && got < |t| && got + 1 == LEN_OVERHEAD + lenPayload
    requires |b| == LEN_MAX_BUFFER && got < LEN_MAX_BUFFER && b[..got + 1] == t[..got + 1]
    ensures Judge(t) == if StartsWithFrame(b) then Valid(got + 1) else Refuted(got + 1, CrcRejected)
  {
    hide StartsWithFrame, LoadLength;
    MagicMatches(t);
    var n := got + 1;
    assert t[..LEN_OVERHEAD] == t[..n][..LEN_OVERHEAD];
    assert b[..LEN_OVERHEAD] == b[..n][..LEN_OVERHEAD];
    SameFrameBytes(t, b);
  }

  lemma EndLeavesUndecided(t: seq<byte>, phase: Phase, lenPayload: nat)
    requires Partial(t, |t|, phase, lenPayload)
    ensures Judge(t) == Undecided
  {
    hide StartsWithFrame, LoadLength;
    match phase
    case ScanMID =>
      MatchReaches(t, 0, |t|);
    case _ =>
      MagicMatches(t);
  }

  /**
   A candidate that is still undecided when the packet array is full has announced a length above the
   largest payload, and is one that outgrows the array.
   */
  lemma OverrunIsComing(t: seq<byte>, phase: Phase, lenPayload: nat)
    requires |t| > LEN_MAX_BUFFER && Partial(t, LEN_MAX_BUFFER, phase, lenPayload)
    ensures LEN_MAX_PAYLOAD < LengthField(t) <= LEN_MAX_BUFFER && Oversized(t)
    ensures Judge(t).Undecided? || (Judge(t).Refuted? && Judge(t).used > LEN_MAX_BUFFER)
  {
    hide LoadLength, Judge;
    OversizedIff(t);
  }
}
