/**
 How a run of the receiver ends: when it overruns the packet array, when it never ends, and on
 which streams neither can happen.
 */
module Endings {
  import opened ByteNumbers
  import opened Bytes
  import opened Frames
  import opened Scan

  /** The positions at which the run that stands at i starts a candidate. */
  ghost function Candidates(s: seq<byte>, n: nat, i: nat): seq<nat>
    requires i <= |s| && n > 0
    decreases |s| - i
  {
    match Judge(s[i..])
    case Undecided => [i]
    case Valid(used) =>
      JudgeUses(s[i..]);
      [i] + Candidates(s, n, i + used)
    case Refuted(used, event) =>
      JudgeUses(s[i..]);
      var j := i + used - 1;
      ResumeIsAhead(i, j, n);
      ResumeFits(s, i, j, n);
      if used > LEN_MAX_BUFFER then [i]
      else if Resume(i, j, n) > ChunkEnd(s, j, n) then [i]
      else [i] + Candidates(s, n, Resume(i, j, n))
  }

  // ----- the endless loop -----

  /** The last chunk starts at |s| - |s| % n, and the ones before it are whole. */
  lemma LastChunk(s: seq<byte>, j: nat, n: nat)
    requires n > 0 && j < |s|
    ensures if j >= |s| - |s| % n then ChunkStart(j, n) == |s| - |s| % n && ChunkEnd(s, j, n) == |s|
            else ChunkEnd(s, j, n) == ChunkStart(j, n) + n
  {
    hide ChunkStart;
    StartPlusIndex(|s|, n);
    StartPlusIndex(j, n);
    ChunkStartIsMultiple(|s|, n);
    ChunkStartIsMultiple(j, n);
    ChunkStartsAscend(j, |s|, n);
    var p, q := j / n, |s| / n;
    if p < q {
      MultiplesApart(n, p, q);
    } else {
      MultiplesAscend(n, q, p);
    }
  }

  /** The read position falls behind the chunk exactly when that is a short last one and ends before the index. */
  lemma ResumeIsBehindIff(s: seq<byte>, i: nat, j: nat, n: nat)
    requires n > 0 && i <= j < |s|
    ensures Resume(i, j, n) > ChunkEnd(s, j, n) <==> j >= |s| - |s| % n && i % n >= |s| % n
  {
    hide ChunkStart, ChunkEnd;
    LastChunk(s, j, n);
    StartPlusIndex(i, n);
    StartPlusIndex(|s|, n);
  }

  /** The candidate at k is refuted in a short last chunk, which does not reach to the candidate's index. */
  ghost predicate Jams(s: seq<byte>, n: nat, k: nat)
    requires k <= |s| && n > 0
  {
    && Judge(s[k..]).Refuted?
    && Judge(s[k..]).used <= LEN_MAX_BUFFER
    && k + Judge(s[k..]).used > |s| - |s| % n
    && k % n >= |s| % n
  }

  ghost predicate SomeJams(s: seq<byte>, n: nat, ks: seq<nat>)
    requires n > 0
  {
    exists k | k in ks :: k <= |s| && Jams(s, n, k)
  }

  ghost predicate SomeOversized(s: seq<byte>, ks: seq<nat>) {
    exists k | k in ks :: k <= |s| && Oversized(s[k..])
  }

  lemma OneMoreCandidate(s: seq<byte>, n: nat, i: nat, ks: seq<nat>)
    requires n > 0 && i <= |s|
    ensures SomeJams(s, n, [i] + ks) <==> Jams(s, n, i) || SomeJams(s, n, ks)
    ensures SomeOversized(s, [i] + ks) <==> Oversized(s[i..]) || SomeOversized(s, ks)
  {
    hide Jams, Oversized;
    assert forall k :: k in [i] + ks <==> k == i || k in ks;
    assert i in [i] + ks;
  }

  /**
   A run never ends exactly when one of its candidates jams, and it overruns the packet array exactly when
   one of them is oversized.
   */
  lemma {:induction false} EndingIff(s: seq<byte>, n: nat, i: nat)
    requires i <= |s| && n > 0
    ensures var outcome := ChunkScan(s, n, i).outcome;
            && (outcome == Stuck <==> SomeJams(s, n, Candidates(s, n, i)))
            && (outcome == Overrun <==> SomeOversized(s, Candidates(s, n, i)))
    decreases |s| - i
  {
    hide Judge, Oversized, Resume, ChunkEnd, ChunkStart, SomeJams, SomeOversized;
    OversizedIff(s[i..]);
    JudgeUses(s[i..]);
    OneMoreCandidate(s, n, i, []);
    NoCandidate(s, n);
    assert [i] + [] == [i];
    match Judge(s[i..])
    case Undecided =>
    case Valid(used) =>
      EndingIff(s, n, i + used);
      OneMoreCandidate(s, n, i, Candidates(s, n, i + used));
    case Refuted(used, event) =>
      var j := i + used - 1;
      ResumeIsAhead(i, j, n);
      ResumeFits(s, i, j, n);
      ResumeIsBehindIff(s, i, j, n);
      if used <= LEN_MAX_BUFFER && Resume(i, j, n) <= ChunkEnd(s, j, n) {
        EndingIff(s, n, Resume(i, j, n));
        OneMoreCandidate(s, n, i, Candidates(s, n, Resume(i, j, n)));
      }
  }

  lemma NoCandidate(s: seq<byte>, n: nat)
    requires n > 0
    ensures !SomeJams(s, n, []) && !SomeOversized(s, [])
  {
  }

  // ----- what can be seen on the stream -----

  /** Without an oversized candidate anywhere in the stream no chunk size leads to an overrun. */
  lemma NoOverrun(s: seq<byte>, n: nat, i: nat)
    requires i <= |s| && n > 0
    requires forall k | 0 <= k <= |s| :: !Oversized(s[k..])
    ensures ChunkScan(s, n, i).outcome != Overrun
  {
    hide ChunkScan, Candidates, Jams, Oversized;
    EndingIff(s, n, i);
  }

  /** A stream that fits the packet array holds none. */
  lemma ShortStreamNeverOverruns(s: seq<byte>, n: nat, i: nat)
    requires i <= |s| <= LEN_MAX_BUFFER && n > 0
    ensures ChunkScan(s, n, i).outcome != Overrun
  {
    hide ChunkScan;
    NoOverrun(s, n, i);
  }

  /** On a stream of whole chunks the call always ends. */
  lemma WholeChunksNeverHang(s: seq<byte>, n: nat, i: nat)
    requires i <= |s| && n > 0 && |s| % n == 0
    ensures ChunkScan(s, n, i).outcome != Stuck
  {
    hide ChunkScan, Candidates, Judge, Oversized;
    EndingIff(s, n, i);
    forall k | 0 <= k <= |s|
      ensures !Jams(s, n, k)
    {
      JudgeUses(s[k..]);
    }
  }

  // ----- a stream that overruns -----

  /** A header that announces one byte more than the largest payload, and zeros one byte past the array. */
  function OversizedStream(): (s: seq<byte>)
    ensures |s| == LEN_MAX_BUFFER + 1
  {
    MAGIC + LengthBytes(LEN_MAX_PAYLOAD + 1) + seq(LEN_MAX_BUFFER - POS_PAYLOAD + 1, k => 0 as byte)
  }

  /** Whatever the chunk size, the receiver comes to write behind its packet array on it. */
  lemma OversizedStreamOverruns(n: nat)
    requires n > 0
    ensures ChunkScan(OversizedStream(), n, 0) == Run([], Overrun)
  {
    hide LoadLength, LengthBytes, Judge;
    var s := OversizedStream();
    LoadStoredLength(LEN_MAX_PAYLOAD + 1);
    assert s[..LEN_MID] == MAGIC;
    assert s[POS_PLEN..POS_PAYLOAD] == LengthBytes(LEN_MAX_PAYLOAD + 1);
    assert s[0..] == s;
    OversizedIff(s);
  }
}
