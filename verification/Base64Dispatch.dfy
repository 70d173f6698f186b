/** The one-shot calls, which choose between one thread and many by the length of the source. */
module Base64Dispatch {
  import opened ByteNumbers
  import opened Memory
  import opened Base64
  import opened Base64ParallelDecode
  import Base64Streams
  import Base64Parallel

  /** `base64_encode`, built with or without threads: the standard's encoding on either way. */
  method Encode(src: seq<byte>, out: array<byte>, openmp: bool, numThreads: nat) returns (outlen: nat)
    requires numThreads >= 1
    requires |Rfc(src)| <= out.Length
    modifies out
    ensures outlen == |Rfc(src)|
    ensures out[..] == Overwrite(old(out[..]), 0, Rfc(src))
  {
    hide Rfc, Overwrite;
    if openmp && |src| >= OMP_THRESHOLD {
      outlen := Base64Parallel.EncodeParallel(src, out, numThreads);
    } else {
      outlen := Base64Streams.Encode(src, out);
    }
  }

  /** Whether the text is long enough for the threads, well formed in each segment, and padded before its end. */
  ghost predicate Lenient(src: text, numThreads: nat)
    requires numThreads >= 1
  {
    var len := PartLength(src, numThreads);
    |src| >= OMP_THRESHOLD && SegmentsWell(src, len, numThreads) && PaddedInside(src, len, numThreads)
  }

  /** `base64_decode`: a text the sequential decoder accepts is accepted on either way, and with the same bytes. */
  method Decode(src: text, out: array<byte>, openmp: bool, numThreads: nat) returns (outlen: nat, ret: bool)
    requires numThreads >= 1
    requires |src| * 3 / 4 <= out.Length
    modifies out
    ensures ret <==> DecodesWell(src) || (openmp && Lenient(src, numThreads))
    ensures DecodesWell(src) ==>
              outlen == |DecodedBytes(src)| <= out.Length && out[..][..outlen] == DecodedBytes(src)
  {
    hide DecodesWell, DecodedBytes, SegmentsWell, PaddedInside, Overwrite;
    if openmp && |src| >= OMP_THRESHOLD {
      VerdictOfThreads(src, numThreads);
      outlen, ret := DecodeParallel(src, out, numThreads);
    } else {
      BytesFit(src);
      ghost var was := out[..];
      outlen, ret := Base64Streams.DecodeWhole(src, out);
      Base64Streams.WrittenInFront(was, out[..], DecodedBytes(src));
    }
  }

  lemma VerdictOfThreads(src: text, numThreads: nat)
    requires numThreads >= 1
    ensures SegmentsWell(src, PartLength(src, numThreads), numThreads)
       <==> DecodesWell(src)
            || (SegmentsWell(src, PartLength(src, numThreads), numThreads)
                && PaddedInside(src, PartLength(src, numThreads), numThreads))
  {
    hide DecodesWell, SegmentsWell, PaddedInside;
    DecodePartsFit(src, numThreads);
    SequentialIff(src, PartLength(src, numThreads), numThreads);
  }

  lemma BytesFit(src: text)
    ensures |DecodedBytes(src)| <= |src| * 3 / 4
  {
    hide DecodeLoop, FirstForeign;
    LoopWrites(DEC_START, src);
  }

  /** The verdict of a build with threads. */
  ghost predicate ThreadedVerdict(src: text, numThreads: nat)
    requires numThreads >= 1
  {
    if |src| >= OMP_THRESHOLD then SegmentsWell(src, PartLength(src, numThreads), numThreads) else DecodesWell(src)
  }

  /** It depends on how the library is built whether a text is accepted exactly for the lenient texts. */
  lemma VerdictDependsIff(src: text, numThreads: nat)
    requires numThreads >= 1
    ensures ThreadedVerdict(src, numThreads) != DecodesWell(src) <==> Lenient(src, numThreads)
  {
    hide DecodesWell, SegmentsWell, PaddedInside;
    VerdictOfThreads(src, numThreads);
    DecodePartsFit(src, numThreads);
    SequentialIff(src, PartLength(src, numThreads), numThreads);
  }

  /** There are such texts of every size from the threshold on, for two threads. */
  lemma LenientTexts(m: nat)
    requires m >= 2499
    ensures Lenient(PaddedHalf(m), 2)
  {
    hide DecodesWell, SegmentsWell, PaddedInside, PaddedHalf;
    PaddedHalfAccepted(m);
    DecodePartsFit(PaddedHalf(m), 2);
    SequentialIff(PaddedHalf(m), PartLength(PaddedHalf(m), 2), 2);
  }

  /** And of no size below it: only on long texts do the builds differ, and there it is the threads that accept. */
  lemma LenientTextsAreLong(src: text, numThreads: nat)
    requires numThreads >= 1 && Lenient(src, numThreads)
    ensures |src| >= 20000
    ensures ThreadedVerdict(src, numThreads) && !DecodesWell(src)
  {
    hide DecodesWell, SegmentsWell, PaddedInside;
    VerdictDependsIff(src, numThreads);
    VerdictOfThreads(src, numThreads);
  }
}
