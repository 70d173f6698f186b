/** Base64 of whole arrays and of memory streams, the latter in blocks of 256 bytes. */
module Base64Streams {
  import opened ByteNumbers
  import opened Memory
  import opened Blocks
  import opened MemStreams
  import opened Base64
  import opened Base64Codec

  /** `base64_encode` on one thread: the standard's encoding of the whole source. */
  method Encode(src: seq<byte>, out: array<byte>) returns (outlen: nat)
    requires |Rfc(src)| <= out.Length
    modifies out
    ensures outlen == |Rfc(src)|
    ensures out[..] == Overwrite(old(out[..]), 0, Rfc(src))
  {
    hide Feed, Final, Rfc, Overwrite;
    var state := new Base64State();
    outlen := EncodeRest(state, src, out, 0);
  }

  /** The end of an encoding: what is left of the source, and the trailer. */
  method EncodeRest(state: Base64State, src: seq<byte>, out: array<byte>, at: nat) returns (len: nat)
    requires state.Encoder() == START
    requires at + |Rfc(src)| <= out.Length
    modifies state, out
    ensures len == |Rfc(src)|
    ensures out[..] == Overwrite(old(out[..]), at, Rfc(src))
  {
    hide Feed, Final, Rfc, Overwrite;
    FeedIsRfc(START, src);
    OverwriteExtends(out[..], at, Feed(START, src).out, Final(Feed(START, src).state));
    var s := state.StreamEncode(src, out, at);
    FinalOfSame(state.Encoder(), Feed(START, src).state);
    var t := state.EncodeFinal(out, at + s);
    len := s + t;
  }

  /** `base64_decode` on one thread. */
  method DecodeWhole(src: text, out: array<byte>) returns (outlen: nat, ret: bool)
    requires |DecodedBytes(src)| <= out.Length
    modifies out
    ensures ret <==> DecodesWell(src)
    ensures outlen == |DecodedBytes(src)|
    ensures out[..] == Overwrite(old(out[..]), 0, DecodedBytes(src))
  {
    hide Decode, Overwrite;
    outlen, ret := DecodeRest(src, out, 0);
  }

  /** The end of a decoding: success means that no more text is waited for. */
  method DecodeRest(src: text, out: array<byte>, at: nat) returns (s: nat, ret: bool)
    requires at + |DecodedBytes(src)| <= out.Length
    modifies out
    ensures ret <==> DecodesWell(src)
    ensures s == |DecodedBytes(src)|
    ensures out[..] == Overwrite(old(out[..]), at, DecodedBytes(src))
  {
    hide Decode, Overwrite;
    var state := new Base64State();
    s, ret := state.StreamDecode(src, out, at);
    ret := ret && state.bytes == 0;
  }

  // ----- memory streams -----

  const LEN_READ: nat := 256
  const LEN_OUT: nat := LEN_READ * 9

  /** How far a read position reaches into `s`: the last block may be a short one. */
  function Within(s: seq<byte>, at: nat): (r: nat)
    ensures r <= |s|
  {
    if at <= |s| then at else |s|
  }

  lemma CutIsNextBlock(s: seq<byte>, at: nat, k: nat)
    requires at < |s|
    ensures Cut(s, at, k) == s[at..Within(s, at + k)] && s[..at] + Cut(s, at, k) == s[..Within(s, at + k)]
  {
  }

  /** The encoder's position after the blocks read so far. */
  ghost predicate EncodedUpTo(s: seq<byte>, at: nat, state: EncState, text: text) {
    && state.bytes <= 2
    && Same(state, Feed(START, s[..Within(s, at)]).state)
    && text == Feed(START, s[..Within(s, at)]).out
  }

  lemma EncodingStarts(s: seq<byte>)
    ensures EncodedUpTo(s, 0, START, [])
  {
    assert s[..0] == [];
  }

  lemma UpToFits(s: seq<byte>, at: nat, state: EncState, text: text)
    requires EncodedUpTo(s, at, state, text)
    ensures state.bytes <= 2 && |Final(state)| <= 3
  {
    hide Feed;
  }

  /** What a call wrote to the front of a buffer can be taken from there. */
  lemma WrittenInFront(was: seq<byte>, now: seq<byte>, written: seq<byte>)
    requires |written| <= |was| && now == Overwrite(was, 0, written)
    ensures now[..|written|] == written
  {
    OverwriteHolds(was, 0, written);
  }

  lemma EncodedBlock(s: seq<byte>, at: nat, state: EncState, text: text, after: EncState)
    requires at < |s| && EncodedUpTo(s, at, state, text)
    requires after.bytes <= 2 && Same(after, Feed(state, Cut(s, at, LEN_READ)).state)
    ensures EncodedUpTo(s, at + LEN_READ, after, text + Feed(state, Cut(s, at, LEN_READ)).out)
  {
    hide Feed, Cut;
    var block := Cut(s, at, LEN_READ);
    var here := Feed(START, s[..at]).state;
    CutIsNextBlock(s, at, LEN_READ);
    FeedConcatenates(START, s[..at], block);
    FeedIgnoresStaleCarry(state, here, block);
  }

  lemma EncodedAll(s: seq<byte>, at: nat, state: EncState, text: text)
    requires at >= |s| && EncodedUpTo(s, at, state, text)
    ensures text + Final(state) == Rfc(s)
  {
    hide Feed, Rfc;
    assert s[..|s|] == s;
    FeedIsRfc(START, s);
    FinalOfSame(state, Feed(START, s).state);
  }

  lemma RoomForBlock(state: EncState, block: seq<byte>)
    requires state.bytes <= 2 && |block| <= LEN_READ
    ensures |Feed(state, block).out| <= LEN_OUT
  {
    FeedLength(state, block);
  }

  /** The stream read, the stream written, and the buffers between them share no memory. */
  ghost predicate Separate(from: MemStream, to: MemStream, buff: array<byte>, out: array<byte>, state: Base64State)
    reads from, to
  {
    && from.Repr !! to.Repr
    && buff !in from.Repr && buff !in to.Repr && out !in to.Repr && out !in from.Repr
    && state !in to.Repr && state !in from.Repr
    && buff != out && buff.Length == LEN_READ && out.Length == LEN_OUT
  }

  /** One round of the encoding loop: a block is read, encoded and written. */
  method EncodeBlock(stream: MemStream, stream64: MemStream, buff: array<byte>, out: array<byte>, state: Base64State,
                     sz: nat, ghost s: seq<byte>, ghost before: text)
    returns (ghost text: text)
    requires stream.Valid() && stream64.Valid() && Separate(stream, stream64, buff, out, state)
    requires stream.Contents() == s && sz < |s| && EncodedUpTo(s, sz, state.Encoder(), before)
    modifies stream64.Repr, buff, out, state
    ensures stream.Valid() && stream.Contents() == s && Separate(stream, stream64, buff, out, state)
    ensures stream64.Valid() && fresh(stream64.Repr - old(stream64.Repr))
    ensures EncodedUpTo(s, sz + LEN_READ, state.Encoder(), text)
    ensures exists more :: text == before + more && stream64.Contents() == old(stream64.Contents()) + more
  {
    hide MemStream.Valid, MemStream.Contents, EncodedUpTo, Feed, Overwrite, Cut, Same;
    ghost var st, outWas := state.Encoder(), out[..];
    UpToFits(s, sz, st, before);
    var readed := stream.Read(buff, LEN_READ, sz);
    RoomForBlock(st, buff[..readed]);
    var lenOut := state.StreamEncode(buff[..readed], out, 0);
    EncodedBlock(s, sz, st, before, state.Encoder());
    assert out[..lenOut] == out[..][..lenOut];
    WrittenInFront(outWas, out[..], Feed(st, buff[..readed]).out);
    text := before + out[..lenOut];
    stream64.Write(out[..lenOut]);
  }

  /** However the blocks of 256 bytes fall on the groups of three, the result is one encoding of the whole stream. */
  method EncodeBase64(stream: MemStream, stream64: MemStream)
    requires stream.Valid() && stream64.Valid() && stream.Repr !! stream64.Repr
    modifies stream64.Repr
    ensures stream64.Valid() && fresh(stream64.Repr - old(stream64.Repr))
    ensures stream64.Contents() == old(stream64.Contents()) + Rfc(stream.Contents())
  {
    hide MemStream.Valid, MemStream.Contents, EncodedUpTo, Feed, Final, Rfc, Overwrite, Cut, Same;
    var lenStream := stream.Len();
    var buff := new byte[LEN_READ];
    var out := new byte[LEN_OUT];
    var state := new Base64State();
    ghost var s, was := stream.Contents(), stream64.Contents();
    ghost var text: text := [];
    EncodingStarts(s);
    assert was + text == was;
    var sz: nat := 0;
    while sz < lenStream
      invariant stream.Valid() && stream.Contents() == s && lenStream == |s|
      invariant stream64.Valid() && fresh(stream64.Repr - old(stream64.Repr))
      invariant Separate(stream, stream64, buff, out, state)
      invariant EncodedUpTo(s, sz, state.Encoder(), text)
      invariant stream64.Contents() == was + text
      decreases lenStream - sz
    {
      ghost var before := text;
      text := EncodeBlock(stream, stream64, buff, out, state, sz, s, before);
      ghost var more :| text == before + more && stream64.Contents() == (was + before) + more;
      Associate(was, before, more);
      sz := sz + LEN_READ;
    }
    UpToFits(s, sz, state.Encoder(), text);
    EncodedAll(s, sz, state.Encoder(), text);
    EncodeTrailer(stream64, out, state);
    Associate(was, text, Final(state.Encoder()));
  }

  /** The trailer of the state is written. */
  method EncodeTrailer(stream64: MemStream, out: array<byte>, state: Base64State)
    requires stream64.Valid() && out !in stream64.Repr && state !in stream64.Repr
    requires state.bytes <= 2 && |Final(state.Encoder())| <= out.Length
    modifies stream64.Repr, out
    ensures stream64.Valid() && fresh(stream64.Repr - old(stream64.Repr))
    ensures stream64.Contents() == old(stream64.Contents()) + Final(state.Encoder())
  {
    hide MemStream.Valid, MemStream.Contents, Final, Overwrite;
    ghost var outWas := out[..];
    var lenOut := state.EncodeFinal(out, 0);
    assert out[..lenOut] == out[..][..lenOut];
    WrittenInFront(outWas, out[..], Final(state.Encoder()));
    stream64.Write(out[..lenOut]);
  }

  /** Decoding block by block, the verdict on each block ignored. */
  function DecodeInBlocks(st: DecState, t: text, k: nat): seq<byte>
    requires k > 0
    decreases |t|
  {
    if |t| == 0 then []
    else
      var block := Cut(t, 0, k);
      Decode(st, block).out + DecodeInBlocks(Decode(st, block).state, t[|block|..], k)
  }

  lemma RoomForDecoded(state: DecState, block: text)
    requires |block| <= LEN_READ
    ensures |Decode(state, block).out| <= LEN_OUT
  {
    hide DecodeLoop;
    DecodeLoopLength(state, block);
  }

  lemma DecodeNextBlock(st: DecState, t: text, sz: nat)
    requires sz < |t|
    ensures var d := Decode(st, Cut(t, sz, LEN_READ));
            DecodeInBlocks(st, t[sz..], LEN_READ)
            == d.out + DecodeInBlocks(d.state, t[Within(t, sz + LEN_READ)..], LEN_READ)
  {
    hide Decode;
    var block := Cut(t, sz, LEN_READ);
    assert Cut(t[sz..], 0, LEN_READ) == block;
    assert t[sz..][|block|..] == t[Within(t, sz + LEN_READ)..];
  }

  /** One round of the decoding loop. */
  method DecodeBlock(stream64: MemStream, stream: MemStream, buff: array<byte>, out: array<byte>, state: Base64State,
                     sz: nat, ghost t: text)
    requires stream.Valid() && stream64.Valid() && Separate(stream64, stream, buff, out, state)
    requires stream64.Contents() == t && sz < |t| && Sound(state.Decoder())
    modifies stream.Repr, buff, out, state
    ensures stream64.Valid() && stream64.Contents() == t && Separate(stream64, stream, buff, out, state)
    ensures stream.Valid() && fresh(stream.Repr - old(stream.Repr)) && Sound(state.Decoder())
    ensures var d := Decode(old(state.Decoder()), Cut(t, sz, LEN_READ));
            state.Decoder() == d.state && stream.Contents() == old(stream.Contents()) + d.out
  {
    hide MemStream.Valid, MemStream.Contents, Decode, Overwrite, Cut, Sound;
    ghost var st, outWas := state.Decoder(), out[..];
    var readed := stream64.Read(buff, LEN_READ, sz);
    RoomForDecoded(st, buff[..readed]);
    var lenOut, _ := state.StreamDecode(buff[..readed], out, 0);
    assert out[..lenOut] == out[..][..lenOut];
    WrittenInFront(outWas, out[..], Decode(st, buff[..readed]).out);
    stream.Write(out[..lenOut]);
  }

  method DecodeBase64(stream64: MemStream, stream: MemStream)
    requires stream.Valid() && stream64.Valid() && stream.Repr !! stream64.Repr
    modifies stream.Repr
    ensures stream.Valid() && fresh(stream.Repr - old(stream.Repr))
    ensures stream.Contents() == old(stream.Contents()) + DecodeInBlocks(DEC_START, stream64.Contents(), 256)
  {
    hide MemStream.Valid, MemStream.Contents, Decode, DecodeInBlocks, Overwrite, Cut, Sound;
    var lenStream := stream64.Len();
    var buff := new byte[LEN_READ];
    var out := new byte[LEN_OUT];
    var state := new Base64State();
    ghost var t, was := stream64.Contents(), stream.Contents();
    ghost var all := DecodeInBlocks(DEC_START, t, LEN_READ);
    ghost var done: seq<byte> := [];
    var sz: nat := 0;
    assert was + done == was && done + all == all && t[0..] == t;
    while sz < lenStream
      invariant stream64.Valid() && stream64.Contents() == t && lenStream == |t|
      invariant stream.Valid() && fresh(stream.Repr - old(stream.Repr))
      invariant Separate(stream64, stream, buff, out, state)
      invariant Sound(state.Decoder())
      invariant done + DecodeInBlocks(state.Decoder(), t[Within(t, sz)..], LEN_READ) == all
      invariant stream.Contents() == was + done
      decreases lenStream - sz
    {
      ghost var d := Decode(state.Decoder(), Cut(t, sz, LEN_READ));
      DecodeNextBlock(state.Decoder(), t, sz);
      DecodeBlock(stream64, stream, buff, out, state, sz, t);
      Associate(was, done, d.out);
      Associate(done, d.out, DecodeInBlocks(d.state, t[Within(t, sz + LEN_READ)..], LEN_READ));
      done := done + d.out;
      sz := sz + LEN_READ;
    }
    DecodeNoBlocks(state.Decoder(), t);
  }

  lemma DecodeNoBlocks(st: DecState, t: text)
    ensures DecodeInBlocks(st, t[|t|..], LEN_READ) == []
  {
  }

  /**
   A foreign character in third place stops the decoder within its block only, and the next block starts, inside
   the text, with a character of the alphabet.
   */
  predicate BlocksDiffer(pending: nat, t: text, k: nat)
    requires k > 0
  {
    StallsIn(pending, t)
    && var next := BlockBehind(FirstForeign(t), k);
       next < |t| && IsValue(DecChar(t[next]))
  }

  /** Where the block behind the one that holds position p starts. */
  function BlockBehind(p: nat, k: nat): nat
    requires k > 0
  {
    p - p % k + k
  }

  lemma {:induction false} EndedBlocksYieldNothing(st: DecState, t: text, k: nat)
    requires k > 0 && st.eof != Open
    ensures DecodeInBlocks(st, t, k) == []
    decreases |t|
  {
    hide DecChar, DecodeLoop;
    if |t| > 0 {
      var block := Cut(t, 0, k);
      EndedBlocksYieldNothing(Decode(st, block).state, t[|block|..], k);
    }
  }

  /** Blocks behind a stalled one yield nothing exactly when the next does not start with a character of the alphabet. */
  lemma StalledBlocksGoOn(st: DecState, t: text, k: nat)
    requires k > 0 && st.eof == Open && Pending(st) == 3
    ensures DecodeInBlocks(st, t, k) == [] <==> |t| == 0 || !IsValue(DecChar(t[0]))
  {
    hide DecChar, Decode, IsValue, Pending;
    if |t| > 0 {
      var block := Cut(t, 0, k);
      StalledGoesOn(st, block);
      if Decode(st, block).out == [] {
        EndedBlocksYieldNothing(Decode(st, block).state, t[|block|..], k);
      }
    }
  }

  lemma ForeignInBlock(t: text, k: nat)
    requires 0 < k <= |t|
    ensures FirstForeign(t) < k ==> FirstForeign(t[..k]) == FirstForeign(t)
    ensures FirstForeign(t) >= k ==> FirstForeign(t[..k]) == k && FirstForeign(t[k..]) == FirstForeign(t) - k
  {
    hide DecChar, IsValue, FirstForeign;
    assert t[..k] + t[k..] == t;
    ForeignOfBoth(t[..k], t[k..]);
  }

  /** One block further the blocks lie as before. */
  lemma BlocksShift(pending: nat, p: nat, k: nat)
    requires k > 0
    ensures p < k ==> BlockBehind(p, k) == k
    ensures p >= k ==> BlockBehind(p, k) == BlockBehind(p - k, k) + k
    ensures p >= k ==> InGroup(InGroup(pending, k), p - k) == InGroup(pending, p)
  {
    if p >= k {
      SameRemainder(p, k);
      PendingShifts(pending, k, p - k);
    } else {
      NoRemainder(p, k);
    }
  }

  lemma SameRemainder(p: nat, k: nat)
    requires 0 < k <= p
    ensures p % k == (p - k) % k
  {
    DivMod(p, k);
    DivMod(p - k, k);
    var m := (p - k) / k;
    assert (m + 1) * k == m * k + k;
    SameCount(p / k, p % k, m + 1, (p - k) % k, k);
  }

  lemma NoRemainder(p: nat, k: nat)
    requires p < k
    ensures p % k == p
  {
  }

  lemma PendingShifts(pending: nat, k: nat, r: nat)
    ensures InGroup(InGroup(pending, k), r) == InGroup(pending, k + r)
  {
  }

  /** A text decodes block by block as it does at once, unless that happens; and then the bytes do differ. */
  lemma {:induction false} BlocksDecodeAsWholeIff(st: DecState, t: text, k: nat)
    requires k > 0
    ensures DecodeInBlocks(st, t, k) == Decode(st, t).out <==> !(st.eof == Open && BlocksDiffer(Pending(st), t, k))
    decreases |t|
  {
    hide DecChar, IsValue, DecodeLoop, Pending, BlockBehind, FirstForeign;
    if |t| == 0 {
      DecodeOfNothing(st);
    } else if st.eof != Open {
      EndedBlocksYieldNothing(st, t, k);
    } else {
      var block := Cut(t, 0, k);
      var rest := t[|block|..];
      assert block + rest == t;
      var d := Decode(st, block);
      LoopLeaves(st, block);
      ConditionFromBlock(Pending(st), t, k);
      if Stalled(d) {
        LoopStalls(st, block, rest);
        StalledBlocksGoOn(d.state, rest, k);
        SameFront(d.out, DecodeInBlocks(d.state, rest, k), []);
      } else {
        DecodeConcatenates(st, block, rest);
        BlocksDecodeAsWholeIff(d.state, rest, k);
        SameFront(d.out, DecodeInBlocks(d.state, rest, k), Decode(d.state, rest).out);
      }
    }
  }

  lemma SameFront(a: seq<byte>, x: seq<byte>, y: seq<byte>)
    ensures a + x == a + y <==> x == y
    ensures a + [] == a
  {
    assert (a + x)[|a|..] == x && (a + y)[|a|..] == y;
  }

  /** The condition on a text, from its first block and the rest. */
  lemma ConditionFromBlock(pending: nat, t: text, k: nat)
    requires k > 0 && |t| > 0
    ensures var block := Cut(t, 0, k);
            var rest := t[|block|..];
            && (StallsIn(pending, block) ==>
                  (BlocksDiffer(pending, t, k) <==> |rest| > 0 && IsValue(DecChar(rest[0]))))
            && (FirstForeign(block) < |block| && !StallsIn(pending, block) ==> !BlocksDiffer(pending, t, k))
            && (FirstForeign(block) == |block| ==>
                  (BlocksDiffer(pending, t, k) <==> BlocksDiffer(InGroup(pending, |block|), rest, k)))
  {
    hide DecChar, IsValue, IsPad, BlockBehind, FirstForeign, InGroup;
    var block := Cut(t, 0, k);
    var p := FirstForeign(t);
    ForeignInBlock(t, |block|);
    BlocksShift(pending, p, k);
    if |block| < k {
      assert block == t;
      NoForeign(t);
    }
  }

  lemma NoForeign(t: text)
    ensures FirstForeign(t[|t|..]) == 0
  {
  }

  /** Text without foreign characters decodes block by block as it does at once, for every block size. */
  lemma BlocksDecodeAsWhole(st: DecState, t: text, k: nat)
    requires k > 0 && NoInvalid(t)
    ensures DecodeInBlocks(st, t, k) == Decode(st, t).out
  {
    hide Decode, DecodeInBlocks, BlockBehind, DecChar;
    BlocksDecodeAsWholeIff(st, t, k);
    var p := FirstForeign(t);
    assert p < |t| ==> t[p] in t;
  }

  /** Two characters of a group, a foreign one, and enough of the alphabet behind it to reach the next block. */
  function ForeignThird(k: nat): text {
    [65, 65, 33] + seq(k, i => 65 as byte)
  }

  /** For every block size there is a text that decodes differently in blocks than at once. */
  lemma ForeignThirdDiffers(k: nat)
    requires k > 0
    ensures DecodeInBlocks(DEC_START, ForeignThird(k), k) != DecodedBytes(ForeignThird(k))
  {
    hide Decode, DecodeInBlocks;
    var t := ForeignThird(k);
    ForeignIs(t, 2);
    BlocksDecodeAsWholeIff(DEC_START, t, k);
  }

  lemma DecodeOfNothing(st: DecState)
    ensures Decode(st, []).out == []
  {
  }

  /** What `EncodeBase64` appends for a stream is what `DecodeBase64` turns into that stream's bytes. */
  lemma BlockwiseRoundTrip(s: seq<byte>, k: nat)
    requires k > 0
    ensures DecodeInBlocks(DEC_START, Rfc(s), k) == s
  {
    hide Rfc, Decode, DecodeInBlocks, NoInvalid;
    RfcHasNoInvalid(s);
    BlocksDecodeAsWhole(DEC_START, Rfc(s), k);
    DecodedBytesOfRfc(s);
  }
}
