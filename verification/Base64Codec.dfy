/** The base64 stream codec as it runs: a state updated in place, and output through a buffer. */
module Base64Codec {
  import opened ByteNumbers
  import opened Bytes
  import opened Memory
  import opened Base64
  import opened Base64Tables

  // ----- the 64-bit encoding loop -----

  /** Eight bytes loaded as one big-endian number. */
  function LoadBig(s: seq<byte>): bv64
    requires |s| == 8
  {
    ((s[0] as bv64) << 56) | ((s[1] as bv64) << 48) | ((s[2] as bv64) << 40) | ((s[3] as bv64) << 32)
    | ((s[4] as bv64) << 24) | ((s[5] as bv64) << 16) | ((s[6] as bv64) << 8) | (s[7] as bv64)
  }

  function SextetAt(str: bv64, k: nat): byte
    requires k < 8
  {
    if k == 0 then ((str >> 58) & 0x3F) as byte
    else if k == 1 then ((str >> 52) & 0x3F) as byte
    else if k == 2 then ((str >> 46) & 0x3F) as byte
    else if k == 3 then ((str >> 40) & 0x3F) as byte
    else if k == 4 then ((str >> 34) & 0x3F) as byte
    else if k == 5 then ((str >> 28) & 0x3F) as byte
    else if k == 6 then ((str >> 22) & 0x3F) as byte
    else ((str >> 16) & 0x3F) as byte
  }

  /** The eight characters written for the first six of eight loaded bytes. */
  function FastChars(s: seq<byte>): text
    requires |s| == 8
  {
    var str := LoadBig(s);
    [EncChar(SextetAt(str, 0)), EncChar(SextetAt(str, 1)), EncChar(SextetAt(str, 2)), EncChar(SextetAt(str, 3)),
     EncChar(SextetAt(str, 4)), EncChar(SextetAt(str, 5)), EncChar(SextetAt(str, 6)), EncChar(SextetAt(str, 7))]
  }

  lemma SextetsOfLoad(a: byte, b: byte, c: byte, d: byte, e: byte, f: byte, g: byte, h: byte)
    ensures var str := LoadBig([a, b, c, d, e, f, g, h]);
            && SextetAt(str, 0) == Sextet0(a) && SextetAt(str, 1) == Sextet1(a, b)
            && SextetAt(str, 2) == Sextet2(b, c) && SextetAt(str, 3) == Sextet3(c)
            && SextetAt(str, 4) == Sextet0(d) && SextetAt(str, 5) == Sextet1(d, e)
            && SextetAt(str, 6) == Sextet2(e, f) && SextetAt(str, 7) == Sextet3(f)
  {
  }

  lemma FastCharsAreGroups(s: seq<byte>)
    requires |s| == 8
    ensures FastChars(s) == Group(s[0], s[1], s[2]) + Group(s[3], s[4], s[5])
  {
    hide EncChar, Group, LoadBig, SextetAt, Sextet0, Sextet1, Sextet2, Sextet3;
    var first, second := Group(s[0], s[1], s[2]), Group(s[3], s[4], s[5]);
    assert FastChars(s)[..4] == first && FastChars(s)[4..] == second by {
      SextetsOfLoad(s[0], s[1], s[2], s[3], s[4], s[5], s[6], s[7]);
      assert s == [s[0], s[1], s[2], s[3], s[4], s[5], s[6], s[7]];
      GroupSextets(s[0], s[1], s[2]);
      GroupSextets(s[3], s[4], s[5]);
    }
    assert FastChars(s) == FastChars(s)[..4] + FastChars(s)[4..];
  }

  /** Six bytes at once from a state between groups are what feeding them one by one gives. */
  lemma FastIsFeed(st: EncState, s: seq<byte>)
    requires |s| == 8 && st.bytes == 0
    ensures Feed(st, s[..6]).out == FastChars(s) && Feed(st, s[..6]).state.bytes == 0
  {
    hide EncStep, Feed, Group, FastChars;
    FastCharsAreGroups(s);
    var next := Feed(st, [s[0], s[1], s[2]]).state;
    FeedGroup(st, s[0], s[1], s[2]);
    FeedGroup(next, s[3], s[4], s[5]);
    FeedConcatenates(st, [s[0], s[1], s[2]], [s[3], s[4], s[5]]);
    assert s[..6] == [s[0], s[1], s[2]] + [s[3], s[4], s[5]];
  }

  // ----- states that differ in a stale carry -----

  /** Between groups the carry is never looked at again; the 64-bit loop does not even maintain it. */
  predicate Same(a: EncState, b: EncState) {
    a.bytes == b.bytes && (a.bytes == 0 || a.carry == b.carry)
  }

  lemma {:induction false} FeedIgnoresStaleCarry(a: EncState, b: EncState, src: seq<byte>)
    requires Same(a, b) && a.bytes <= 2
    ensures Feed(a, src).out == Feed(b, src).out && Same(Feed(a, src).state, Feed(b, src).state)
    ensures Feed(a, src).state.bytes <= 2
  {
    hide EncChar;
    if |src| > 0 {
      FeedIgnoresStaleCarry(a, b, src[..|src| - 1]);
    }
  }

  lemma FinalOfSame(a: EncState, b: EncState)
    requires Same(a, b)
    ensures Final(a) == Final(b)
  {
  }

  /** The number of characters out after `k` bytes in. */
  function CharsFor(k: nat): nat {
    k / 3 * 4 + k % 3
  }

  lemma CharsForOneMore(k: nat)
    ensures CharsFor(k + 1) == CharsFor(k) + if k % 3 == 2 then 2 else 1
  {
    var q, r := k / 3, k % 3;
    assert k == 3 * q + r;
    if r == 2 {
      assert (k + 1) / 3 == q + 1 && (k + 1) % 3 == 0;
    } else {
      assert (k + 1) / 3 == q && (k + 1) % 3 == r + 1;
    }
  }

  lemma CharsForFew(k: nat)
    requires k <= 2
    ensures CharsFor(k) == k && k % 3 == k
  {
  }

  lemma NextOfThree(k: nat)
    ensures (k + 1) % 3 == if k % 3 == 2 then 0 else k % 3 + 1
  {
  }

  lemma StepCounts(st: EncState, c: byte)
    requires st.bytes <= 2
    ensures EncStep(st, c).state.bytes == if st.bytes == 2 then 0 else st.bytes + 1
    ensures |EncStep(st, c).out| == if st.bytes == 2 then 2 else 1
  {
    hide EncChar, Sextet0, Sextet3, WithTop4, WithTop2, CarryOf0, CarryOf1;
  }

  /** How much room a call needs: only the number of bytes consumed so far matters, not what they are. */
  lemma {:induction false} FeedLength(st: EncState, src: seq<byte>)
    requires st.bytes <= 2
    ensures Feed(st, src).state.bytes == (st.bytes + |src|) % 3
    ensures |Feed(st, src).out| == CharsFor(st.bytes + |src|) - st.bytes
  {
    hide EncStep, CharsFor;
    if |src| > 0 {
      var front, k := src[..|src| - 1], st.bytes + |src| - 1;
      FeedLength(st, front);
      StepCounts(Feed(st, front).state, src[|src| - 1]);
      CharsForOneMore(k);
      NextOfThree(k);
    } else {
      CharsForFew(st.bytes);
    }
  }

  lemma FeedNext(st: EncState, src: seq<byte>, pos: nat)
    requires pos < |src|
    ensures var front := Feed(st, src[..pos]);
            var last := EncStep(front.state, src[pos]);
            Feed(st, src[..pos + 1]) == Encoded(last.state, front.out + last.out)
  {
    hide EncStep;
    assert src[..pos + 1][..pos] == src[..pos];
  }

  /** The encoder's locals after `pos` bytes: `text` written, `bytes` and `carry` as feeding those bytes leaves them. */
  ghost predicate Fed(st: EncState, src: seq<byte>, pos: nat, bytes: nat, carry: byte, text: text) {
    && pos <= |src|
    && bytes <= 2
    && Same(EncState(bytes, carry), Feed(st, src[..pos]).state)
    && text == Feed(st, src[..pos]).out
  }

  lemma FedNothing(st: EncState, src: seq<byte>)
    requires st.bytes <= 2
    ensures Fed(st, src, 0, st.bytes, st.carry, [])
  {
  }

  lemma FedAll(st: EncState, src: seq<byte>, bytes: nat, carry: byte, text: text)
    requires Fed(st, src, |src|, bytes, carry, text)
    ensures text == Feed(st, src).out && Same(EncState(bytes, carry), Feed(st, src).state)
  {
    hide Feed;
    assert src[..|src|] == src;
  }

  lemma FedOneMore(st: EncState, src: seq<byte>, pos: nat, bytes: nat, carry: byte, text: text)
    requires pos < |src| && Fed(st, src, pos, bytes, carry, text)
    ensures var step := EncStep(EncState(bytes, carry), src[pos]);
            Fed(st, src, pos + 1, step.state.bytes, step.state.carry, text + step.out)
  {
    hide EncChar, Feed;
    FeedNext(st, src, pos);
  }

  lemma FedSixMore(st: EncState, src: seq<byte>, pos: nat, carry: byte, text: text)
    requires pos + 8 <= |src| && Fed(st, src, pos, 0, carry, text)
    ensures Fed(st, src, pos + 6, 0, carry, text + FastChars(src[pos..pos + 8]))
  {
    hide Feed, FastChars;
    var front := Feed(st, src[..pos]);
    FeedConcatenates(st, src[..pos], src[pos..pos + 6]);
    assert src[..pos] + src[pos..pos + 6] == src[..pos + 6];
    FastIsFeed(front.state, src[pos..pos + 8]);
    assert src[pos..pos + 8][..6] == src[pos..pos + 6];
  }

  /** There is room left for what is still to be written. */
  lemma RoomLeft(st: EncState, src: seq<byte>, pos: nat)
    requires pos <= |src|
    ensures |Feed(st, src[..pos]).out| <= |Feed(st, src).out|
  {
    hide Feed;
    FeedConcatenates(st, src[..pos], src[pos..]);
    assert src[..pos] + src[pos..] == src;
  }

  /** Room in the buffer for the characters about to be written. */
  lemma RoomFor(st: EncState, src: seq<byte>, pos: nat, bytes: nat, carry: byte, text: text)
    requires Fed(st, src, pos, bytes, carry, text)
    ensures |text| <= |Feed(st, src).out|
  {
    hide Feed;
    RoomLeft(st, src, pos);
  }

  /** The 64-bit loop: six bytes in and eight characters out for as long as eight bytes can be loaded. */
  method EncodeSixAtATime(ghost st: EncState, src: seq<byte>, from: nat, ghost carry: byte,
                          out: array<byte>, at: nat, ghost was: seq<byte>, ghost before: text, len: nat)
    returns (pos: nat, outl: nat, ghost written: text)
    requires Fed(st, src, from, 0, carry, before) && len == |before|
    requires at + |Feed(st, src).out| <= out.Length == |was|
    requires at + len <= out.Length && out[..] == Overwrite(was, at, before)
    modifies out
    ensures Fed(st, src, pos, 0, carry, written) && outl == |written|
    ensures from <= pos <= |src| && |src| - pos < 8
    ensures at + outl <= out.Length && out[..] == Overwrite(was, at, written)
  {
    hide EncChar, Feed, Fed, Overwrite, FastChars;
    pos, outl, written := from, len, before;
    FedInRange(st, src, from, 0, carry, before);
    while |src| - pos >= 8
      invariant Fed(st, src, pos, 0, carry, written) && outl == |written|
      invariant from <= pos <= |src|
      invariant at + outl <= out.Length && out[..] == Overwrite(was, at, written)
    {
      var chars := FastChars(src[pos..pos + 8]);
      FedSixMore(st, src, pos, carry, written);
      RoomFor(st, src, pos + 6, 0, carry, written + chars);
      OverwriteExtends(was, at, written, chars);
      FastCharsAreEight(src[pos..pos + 8]);
      Put(out, at + outl, chars);
      pos := pos + 6;
      outl := outl + 8;
      written := written + chars;
    }
  }

  lemma FastCharsAreEight(s: seq<byte>)
    requires |s| == 8
    ensures |FastChars(s)| == 8
  {
  }

  lemma FedInRange(st: EncState, src: seq<byte>, pos: nat, bytes: nat, carry: byte, text: text)
    requires Fed(st, src, pos, bytes, carry, text)
    ensures pos <= |src| && bytes <= 2
  {
  }

  /** Writes the characters of one byte behind what is written already. */
  method Emit(ghost st: EncState, src: seq<byte>, pos: nat, ghost bytes: nat, ghost carry: byte, chars: text,
              out: array<byte>, at: nat, ghost was: seq<byte>, ghost before: text, len: nat)
    returns (ghost written: text)
    requires pos < |src| && Fed(st, src, pos, bytes, carry, before) && len == |before|
    requires chars == EncStep(EncState(bytes, carry), src[pos]).out
    requires at + |Feed(st, src).out| <= out.Length == |was|
    requires at + len <= out.Length && out[..] == Overwrite(was, at, before)
    modifies out
    ensures var step := EncStep(EncState(bytes, carry), src[pos]);
            Fed(st, src, pos + 1, step.state.bytes, step.state.carry, written)
    ensures |written| == len + |chars| && at + |written| <= out.Length
    ensures out[..] == Overwrite(was, at, written)
  {
    hide EncStep, Feed, Fed, Overwrite;
    FedOneMore(st, src, pos, bytes, carry, before);
    ghost var step := EncStep(EncState(bytes, carry), src[pos]);
    written := before + chars;
    RoomFor(st, src, pos + 1, step.state.bytes, step.state.carry, written);
    OverwriteExtends(was, at, before, chars);
    Put(out, at + len, chars);
  }

  lemma EncodeCases(carry: byte, c: byte)
    ensures EncStep(EncState(0, carry), c) == Encoded(EncState(1, CarryOf0(c)), [EncChar(Sextet0(c))])
    ensures EncStep(EncState(1, carry), c) == Encoded(EncState(2, CarryOf1(c)), [EncChar(WithTop4(carry, c))])
    ensures EncStep(EncState(2, carry), c)
         == Encoded(EncState(0, carry), [EncChar(WithTop2(carry, c)), EncChar(Sextet3(c))])
  {
    hide EncChar, CarryOf0, CarryOf1, Sextet0, Sextet3, WithTop4, WithTop2;
  }

  // ----- the decoder's locals -----

  /** What holds of every state between calls: an open decoder that stands between groups carries nothing. */
  predicate Sound(st: DecState) {
    st.bytes <= 3 && (st.eof == Open && st.bytes == 0 ==> st.carry == 0)
  }

  /** After `pos` characters: `done` is written, and what is left decodes to the rest. */
  ghost predicate Decoding(st: DecState, src: text, pos: nat, bytes: nat, carry: byte, done: seq<byte>) {
    && pos <= |src|
    && DecodeLoop(st, src) == DecodeLoop(DecState(Open, bytes, carry), src[pos..]).After(done)
  }

  lemma DecodingStarts(st: DecState, src: text)
    requires st.eof == Open
    ensures Decoding(st, src, 0, st.bytes, st.carry, [])
  {
    hide DecodeLoop;
    assert src[0..] == src;
    assert [] + DecodeLoop(st, src).out == DecodeLoop(st, src).out;
  }

  /** The loop is left with `done` written and these locals. */
  ghost predicate Finished(st: DecState, src: text, eof: Eof, bytes: nat, carry: byte, done: seq<byte>, ret: bool) {
    bytes <= 3 && DecodeLoop(st, src) == Decoded(DecState(eof, bytes, carry), done, ret)
  }

  lemma DecodingEnds(st: DecState, src: text, bytes: nat, carry: byte, done: seq<byte>)
    requires bytes <= 3 && Decoding(st, src, |src|, bytes, carry, done)
    ensures Finished(st, src, Open, bytes, carry, done, true)
  {
    assert done + [] == done;
  }

  lemma DecodingTakes(st: DecState, src: text, pos: nat, bytes: nat, carry: byte, done: seq<byte>)
    requires pos < |src| && IsValue(DecChar(src[pos]))
    requires Decoding(st, src, pos, bytes, carry, done)
    ensures var q := DecChar(src[pos]);
            var next := NextState(DecState(Open, bytes, carry), q);
            Decoding(st, src, pos + 1, next.bytes, next.carry, done + Emits(DecState(Open, bytes, carry), q))
  {
    hide DecChar, Emits, Rest6, Rest4, Rest2;
    var here := DecState(Open, bytes, carry);
    var q := DecChar(src[pos]);
    assert src[pos..][1..] == src[pos + 1..];
    var rest := DecodeLoop(NextState(here, q), src[pos + 1..]).out;
    assert done + (Emits(here, q) + rest) == (done + Emits(here, q)) + rest;
  }

  lemma DecodingStops(st: DecState, src: text, pos: nat, bytes: nat, carry: byte, done: seq<byte>)
    requires pos < |src| && !IsValue(DecChar(src[pos]))
    requires bytes <= 3 && Decoding(st, src, pos, bytes, carry, done)
    ensures var stop := Stop(DecState(Open, bytes, carry), DecChar(src[pos]), src[pos..]);
            Finished(st, src, stop.state.eof, stop.state.bytes, stop.state.carry, done, stop.ret)
  {
    hide DecChar;
    assert done + [] == done;
  }

  lemma DecodingFits(st: DecState, src: text, pos: nat, bytes: nat, carry: byte, done: seq<byte>)
    requires Decoding(st, src, pos, bytes, carry, done)
    ensures |done| <= |DecodeLoop(st, src).out|
  {
    hide DecodeLoop;
  }

  /** Writes the byte that a character completes behind what is written already. */
  method Complete(ghost st: DecState, src: text, pos: nat, ghost bytes: nat, ghost carry: byte, value: byte,
                  out: array<byte>, at: nat, ghost was: seq<byte>, ghost before: seq<byte>, len: nat)
    returns (ghost done: seq<byte>)
    requires pos < |src| && Decoding(st, src, pos, bytes, carry, before) && len == |before|
    requires IsValue(DecChar(src[pos])) && Emits(DecState(Open, bytes, carry), DecChar(src[pos])) == [value]
    requires at + |DecodeLoop(st, src).out| <= out.Length == |was|
    requires at + len <= out.Length && out[..] == Overwrite(was, at, before)
    modifies out
    ensures var next := NextState(DecState(Open, bytes, carry), DecChar(src[pos]));
            Decoding(st, src, pos + 1, next.bytes, next.carry, done)
    ensures |done| == len + 1 && at + |done| <= out.Length
    ensures out[..] == Overwrite(was, at, done)
  {
    hide DecChar, Emits, NextState, DecodeLoop, Decoding, Overwrite;
    DecodingTakes(st, src, pos, bytes, carry, before);
    ghost var next := NextState(DecState(Open, bytes, carry), DecChar(src[pos]));
    done := before + [value];
    DecodingFits(st, src, pos + 1, next.bytes, next.carry, done);
    OverwriteExtends(was, at, before, [value]);
    Put(out, at + len, [value]);
  }

  lemma TakesFirst(carry: byte, q: byte)
    ensures NextState(DecState(Open, 0, carry), q) == DecState(Open, 1, Rest6(q))
    ensures Emits(DecState(Open, 0, carry), q) == []
  {
    hide Rest6, Rest4, Rest2, Finish2, Finish4, Finish6;
  }

  lemma TakesSecond(carry: byte, q: byte)
    ensures NextState(DecState(Open, 1, carry), q) == DecState(Open, 2, Rest4(q))
    ensures Emits(DecState(Open, 1, carry), q) == [Finish2(carry, q)]
  {
    hide Rest6, Rest4, Rest2, Finish2, Finish4, Finish6;
  }

  lemma TakesThird(carry: byte, q: byte)
    ensures NextState(DecState(Open, 2, carry), q) == DecState(Open, 3, Rest2(q))
    ensures Emits(DecState(Open, 2, carry), q) == [Finish4(carry, q)]
  {
    hide Rest6, Rest4, Rest2, Finish2, Finish4, Finish6;
  }

  lemma TakesFourth(carry: byte, q: byte)
    ensures NextState(DecState(Open, 3, carry), q) == DecState(Open, 0, 0)
    ensures Emits(DecState(Open, 3, carry), q) == [Finish6(carry, q)]
  {
    hide Rest6, Rest4, Rest2, Finish2, Finish4, Finish6;
  }

  lemma StopsEarly(st: DecState, src: text, pos: nat, bytes: nat, carry: byte, done: seq<byte>)
    requires pos < |src| && !IsValue(DecChar(src[pos]))
    requires bytes <= 1 && Decoding(st, src, pos, bytes, carry, done)
    ensures Finished(st, src, Closed, bytes, carry, done, false)
  {
    hide DecChar, DecodeLoop, Decoding, Finished;
    DecodingStops(st, src, pos, bytes, carry, done);
  }

  lemma StopsThird(st: DecState, src: text, pos: nat, carry: byte, done: seq<byte>)
    requires pos < |src| && !IsValue(DecChar(src[pos]))
    requires Decoding(st, src, pos, 2, carry, done)
    ensures if !IsPad(DecChar(src[pos])) then Finished(st, src, Open, 3, carry, done, false)
            else if pos + 1 == |src| then Finished(st, src, Almost, 3, carry, done, true)
            else Finished(st, src, Closed, 0, carry, done, IsPad(DecChar(src[pos + 1])) && pos + 2 == |src|)
  {
    hide DecChar, DecodeLoop, Decoding, Finished;
    DecodingStops(st, src, pos, 2, carry, done);
  }

  lemma StopsFourth(st: DecState, src: text, pos: nat, carry: byte, done: seq<byte>)
    requires pos < |src| && !IsValue(DecChar(src[pos]))
    requires Decoding(st, src, pos, 3, carry, done)
    ensures Finished(st, src, Closed, 0, carry, done, IsPad(DecChar(src[pos])) && pos + 1 == |src|)
  {
    hide DecChar, DecodeLoop, Decoding, Finished;
    DecodingStops(st, src, pos, 3, carry, done);
  }

  lemma DecodeLoopIsFinished(st: DecState, src: text, eof: Eof, bytes: nat, carry: byte, done: seq<byte>, ret: bool)
    requires st.eof == Open && Finished(st, src, eof, bytes, carry, done, ret)
    ensures bytes <= 3 && Decode(st, src) == Decoded(DecState(eof, bytes, carry), done, ret)
  {
    hide DecodeLoop;
  }

  lemma DecodeAtEnd(st: DecState, src: text)
    requires st.eof != Open
    ensures Decode(st, src)
         == if |src| > 0 && st.eof == Almost
              then Decoded(DecState(Closed, 0, st.carry), [], IsPad(DecChar(src[0])) && |src| == 1)
              else Decoded(st, [], false)
  {
  }

  lemma DecodeIsLoop(st: DecState, src: text)
    requires st.eof == Open
    ensures Decode(st, src) == DecodeLoop(st, src)
  {
  }

  /** Four characters of the alphabet between groups are three bytes, and the decoder is between groups again. */
  lemma DecodingTakesFour(st: DecState, src: text, pos: nat, done: seq<byte>)
    requires pos + 4 <= |src| && Decoding(st, src, pos, 0, 0, done)
    requires !Marked(FourEntries(src[pos..pos + 4]))
    ensures var x := FourEntries(src[pos..pos + 4]);
            Decoding(st, src, pos + 4, 0, 0, done + [ByteAt(x, 0), ByteAt(x, 1), ByteAt(x, 2)])
  {
    hide DecChar, IsValue, Decoding, Emits, NextState, Joined, Marked, ByteAt, Rest6, Rest4, Rest2, Finish2, Finish4, Finish6;
    var a, b, c, d := DecChar(src[pos]), DecChar(src[pos + 1]), DecChar(src[pos + 2]), DecChar(src[pos + 3]);
    FourValues(src[pos..pos + 4]);
    JoinedBytes(a, b, c, d);
    TakesFirst(0, a);
    DecodingTakes(st, src, pos, 0, 0, done);
    var x0, x1, x2 := Finish2(Rest6(a), b), Finish4(Rest4(b), c), Finish6(Rest2(c), d);
    assert done + [] == done;
    TakesSecond(Rest6(a), b);
    DecodingTakes(st, src, pos + 1, 1, Rest6(a), done);
    TakesThird(Rest4(b), c);
    DecodingTakes(st, src, pos + 2, 2, Rest4(b), done + [x0]);
    TakesFourth(Rest2(c), d);
    DecodingTakes(st, src, pos + 3, 3, Rest2(c), done + [x0] + [x1]);
    assert done + [x0] + [x1] + [x2] == done + [x0, x1, x2];
  }

  /** An unmarked word comes from four characters of the alphabet. */
  lemma FourValues(t: text)
    requires |t| == 4 && !Marked(FourEntries(t))
    ensures forall i | 0 <= i < 4 :: IsValue(DecChar(t[i])) && DecChar(t[i]) < 64
  {
    hide DecChar, IsValue, Joined, Marked;
    forall i | 0 <= i < 4
      ensures IsValue(DecChar(t[i])) ==> DecChar(t[i]) < 64
    {
      if IsValue(DecChar(t[i])) {
        ValuesAreSmall(t[i]);
      }
    }
    MarkedIff(DecChar(t[0]), DecChar(t[1]), DecChar(t[2]), DecChar(t[3]));
  }

  /** The 32-bit loop: four characters in and three bytes out, while more than four are left and all four are valid. */
  method DecodeFourAtATime(ghost st: DecState, src: text, from: nat, out: array<byte>, at: nat,
                           ghost was: seq<byte>, ghost before: seq<byte>, len: nat)
    returns (pos: nat, outl: nat, ghost done: seq<byte>)
    requires Decoding(st, src, from, 0, 0, before) && from <= |src| && len == |before|
    requires at + |DecodeLoop(st, src).out| <= out.Length == |was|
    requires at + len <= out.Length && out[..] == Overwrite(was, at, before)
    modifies out
    ensures Decoding(st, src, pos, 0, 0, done) && outl == |done|
    ensures from <= pos <= |src| && (|src| - pos <= 4 || Marked(FourEntries(src[pos..pos + 4])))
    ensures at + outl <= out.Length && out[..] == Overwrite(was, at, done)
  {
    hide DecodeLoop, Decoding, Overwrite, FourEntries, Marked, ByteAt;
    pos, outl, done := from, len, before;
    while |src| - pos > 4
      invariant Decoding(st, src, pos, 0, 0, done) && outl == |done|
      invariant from <= pos <= |src|
      invariant at + outl <= out.Length && out[..] == Overwrite(was, at, done)
    {
      var x := FourEntries(src[pos..pos + 4]);
      if Marked(x) {
        break;
      }
      var three := [ByteAt(x, 0), ByteAt(x, 1), ByteAt(x, 2)];
      DecodingTakesFour(st, src, pos, done);
      DecodingFits(st, src, pos + 4, 0, 0, done + three);
      OverwriteExtends(was, at, done, three);
      Put(out, at + outl, three);
      pos := pos + 4;
      outl := outl + 3;
      done := done + three;
    }
  }

  /** One case of the decoder's switch: it takes a character and goes on to the next case, or it leaves the loop. */
  ghost predicate Turned(st: DecState, src: text, from: nat, stop: bool, e: Eof, b: nat, cy: byte, pos: nat, outl: nat,
                         ret: bool, done: seq<byte>) {
    && outl == |done|
    && Sound(DecState(e, b, cy))
    && if stop then Finished(st, src, e, b, cy, done, ret)
       else e == Open && !ret && from < pos <= |src| && Decoding(st, src, pos, b, cy, done)
  }

  /** The first character of a group. */
  method DecodeFirst(ghost st: DecState, src: text, from: nat, cy0: byte, out: array<byte>, at: nat,
                ghost was: seq<byte>, ghost before: seq<byte>, len: nat)
    returns (stop: bool, e: Eof, b: nat, cy: byte, pos: nat, outl: nat, ret: bool, ghost done: seq<byte>)
    requires cy0 == 0 && Decoding(st, src, from, 0, cy0, before) && from <= |src| && len == |before|
    requires at + |DecodeLoop(st, src).out| <= out.Length == |was|
    requires at + len <= out.Length && out[..] == Overwrite(was, at, before)
    modifies out
    ensures Turned(st, src, from, stop, e, b, cy, pos, outl, ret, done)
    ensures !stop ==> b == 1
    ensures at + outl <= out.Length && out[..] == Overwrite(was, at, done)
  {
    hide IsPad, IsValue, DecChar, DecodeLoop, Decoding, Finished, Overwrite, Emits, NextState, Stop,
      Rest6, Rest4, Rest2, Finish2, Finish4, Finish6;
    stop, e, b, cy, pos, outl, ret, done := true, Open, 0, cy0, from, len, false, before;
    if pos == |src| {
      ret := true;
      DecodingEnds(st, src, b, cy, done);
      return;
    }
    var q := DecChar(src[pos]);
    if !IsValue(q) {
      StopsEarly(st, src, pos, b, cy, done);
      e := Closed;
      return;
    }
    TakesFirst(cy, q);
    DecodingTakes(st, src, pos, b, cy, done);
    assert done + [] == done;
    cy := Rest6(q);
    b, pos := 1, pos + 1;
    stop := false;
  }

  /** The second one, which completes the first byte. */
  method DecodeSecond(ghost st: DecState, src: text, from: nat, cy0: byte, out: array<byte>, at: nat,
                ghost was: seq<byte>, ghost before: seq<byte>, len: nat)
    returns (stop: bool, e: Eof, b: nat, cy: byte, pos: nat, outl: nat, ret: bool, ghost done: seq<byte>)
    requires Decoding(st, src, from, 1, cy0, before) && from <= |src| && len == |before|
    requires at + |DecodeLoop(st, src).out| <= out.Length == |was|
    requires at + len <= out.Length && out[..] == Overwrite(was, at, before)
    modifies out
    ensures Turned(st, src, from, stop, e, b, cy, pos, outl, ret, done)
    ensures !stop ==> b == 2
    ensures at + outl <= out.Length && out[..] == Overwrite(was, at, done)
  {
    hide IsPad, IsValue, DecChar, DecodeLoop, Decoding, Finished, Overwrite, Emits, NextState, Stop,
      Rest6, Rest4, Rest2, Finish2, Finish4, Finish6;
    stop, e, b, cy, pos, outl, ret, done := true, Open, 1, cy0, from, len, false, before;
    if pos == |src| {
      ret := true;
      DecodingEnds(st, src, b, cy, done);
      return;
    }
    var q := DecChar(src[pos]);
    if !IsValue(q) {
      StopsEarly(st, src, pos, b, cy, done);
      e := Closed;
      return;
    }
    TakesSecond(cy, q);
    done := Complete(st, src, pos, b, cy, Finish2(cy, q), out, at, was, done, outl);
    cy := Rest4(q);
    b, pos, outl := 2, pos + 1, outl + 1;
    stop := false;
  }

  /** The third one, or the padding that takes its place. */
  method DecodeThird(ghost st: DecState, src: text, from: nat, cy0: byte, out: array<byte>, at: nat,
                ghost was: seq<byte>, ghost before: seq<byte>, len: nat)
    returns (stop: bool, e: Eof, b: nat, cy: byte, pos: nat, outl: nat, ret: bool, ghost done: seq<byte>)
    requires Decoding(st, src, from, 2, cy0, before) && from <= |src| && len == |before|
    requires at + |DecodeLoop(st, src).out| <= out.Length == |was|
    requires at + len <= out.Length && out[..] == Overwrite(was, at, before)
    modifies out
    ensures Turned(st, src, from, stop, e, b, cy, pos, outl, ret, done)
    ensures !stop ==> b == 3
    ensures at + outl <= out.Length && out[..] == Overwrite(was, at, done)
  {
    hide IsPad, IsValue, DecChar, DecodeLoop, Decoding, Finished, Overwrite, Emits, NextState, Stop,
      Rest6, Rest4, Rest2, Finish2, Finish4, Finish6;
    stop, e, b, cy, pos, outl, ret, done := true, Open, 2, cy0, from, len, false, before;
    if pos == |src| {
      ret := true;
      DecodingEnds(st, src, b, cy, done);
      return;
    }
    var q := DecChar(src[pos]);
    if !IsValue(q) {
      StopsThird(st, src, pos, cy, done);
      b := 3;
      if IsPad(q) {
        pos := pos + 1;
        if pos < |src| {
          b := 0;
          e := Closed;
          ret := IsPad(DecChar(src[pos])) && pos + 1 == |src|;
        } else {
          e := Almost;
          ret := true;
        }
      }
      return;
    }
    TakesThird(cy, q);
    done := Complete(st, src, pos, b, cy, Finish4(cy, q), out, at, was, done, outl);
    cy := Rest2(q);
    b, pos, outl := 3, pos + 1, outl + 1;
    stop := false;
  }

  /** The fourth one, or the padding. */
  method DecodeFourth(ghost st: DecState, src: text, from: nat, cy0: byte, out: array<byte>, at: nat,
                ghost was: seq<byte>, ghost before: seq<byte>, len: nat)
    returns (stop: bool, e: Eof, b: nat, cy: byte, pos: nat, outl: nat, ret: bool, ghost done: seq<byte>)
    requires Decoding(st, src, from, 3, cy0, before) && from <= |src| && len == |before|
    requires at + |DecodeLoop(st, src).out| <= out.Length == |was|
    requires at + len <= out.Length && out[..] == Overwrite(was, at, before)
    modifies out
    ensures Turned(st, src, from, stop, e, b, cy, pos, outl, ret, done)
    ensures !stop ==> b == 0
    ensures at + outl <= out.Length && out[..] == Overwrite(was, at, done)
  {
    hide IsPad, IsValue, DecChar, DecodeLoop, Decoding, Finished, Overwrite, Emits, NextState, Stop,
      Rest6, Rest4, Rest2, Finish2, Finish4, Finish6;
    stop, e, b, cy, pos, outl, ret, done := true, Open, 3, cy0, from, len, false, before;
    if pos == |src| {
      ret := true;
      DecodingEnds(st, src, b, cy, done);
      return;
    }
    var q := DecChar(src[pos]);
    if !IsValue(q) {
      StopsFourth(st, src, pos, cy, done);
      b := 0;
      e := Closed;
      ret := IsPad(q) && pos + 1 == |src|;
      return;
    }
    TakesFourth(cy, q);
    done := Complete(st, src, pos, b, cy, Finish6(cy, q), out, at, was, done, outl);
    cy := 0;
    b, pos, outl := 0, pos + 1, outl + 1;
    stop := false;
  }

  /** The decoder's loop, from a state that is still open; it is entered at the case the state calls for. */
  method DecodeChars(st: DecState, src: text, out: array<byte>, at: nat)
    returns (e: Eof, b: nat, cy: byte, outl: nat, ret: bool, ghost done: seq<byte>)
    requires st.eof == Open && Sound(st)
    requires at + |DecodeLoop(st, src).out| <= out.Length
    modifies out
    ensures Finished(st, src, e, b, cy, done, ret) && Sound(DecState(e, b, cy))
    ensures outl == |done| && at + outl <= out.Length
    ensures out[..] == Overwrite(old(out[..]), at, done)
  {
    hide DecodeLoop, Decoding, Finished, Overwrite;
    ghost var was := out[..];
    OverwriteNothing(was, at);
    e, b, cy, done := Open, st.bytes, st.carry, [];
    var pos: nat := 0;
    outl, ret := 0, false;
    DecodingStarts(st, src);
    var stop := false;
    while true
      invariant e == Open && !ret && Sound(DecState(e, b, cy))
      invariant Decoding(st, src, pos, b, cy, done)
      invariant pos <= |src| && outl == |done|
      invariant at + outl <= out.Length && out[..] == Overwrite(was, at, done)
      decreases |src| - pos
    {
      if b == 0 {
        pos, outl, done := DecodeFourAtATime(st, src, pos, out, at, was, done, outl);
        stop, e, b, cy, pos, outl, ret, done := DecodeFirst(st, src, pos, cy, out, at, was, done, outl);
        if stop {
          break;
        }
      }
      if b == 1 {
        stop, e, b, cy, pos, outl, ret, done := DecodeSecond(st, src, pos, cy, out, at, was, done, outl);
        if stop {
          break;
        }
      }
      if b == 2 {
        stop, e, b, cy, pos, outl, ret, done := DecodeThird(st, src, pos, cy, out, at, was, done, outl);
        if stop {
          break;
        }
      }
      stop, e, b, cy, pos, outl, ret, done := DecodeFourth(st, src, pos, cy, out, at, was, done, outl);
      if stop {
        break;
      }
    }
  }

  // ----- the state struct and its calls -----

  /** `struct base64_state` */
  class Base64State {
    var eof: Eof
    var bytes: nat
    var carry: byte

    ghost function Encoder(): EncState
      reads this
    {
      EncState(bytes, carry)
    }

    ghost function Decoder(): DecState
      reads this
    {
      DecState(eof, bytes, carry)
    }

    /** `base64_stream_encode_init`, `base64_stream_decode_init` */
    constructor ()
      ensures Encoder() == START && Decoder() == DEC_START && Sound(Decoder())
    {
      eof, bytes, carry := Open, 0, 0;
    }


    /** `base64_stream_encode`: the text goes to `out` from `at` on. */
    method StreamEncode(src: seq<byte>, out: array<byte>, at: nat) returns (outl: nat)
      requires bytes <= 2
      requires at + |Feed(Encoder(), src).out| <= out.Length
      modifies this, out
      ensures bytes <= 2 && eof == old(eof)
      ensures Same(Encoder(), Feed(old(Encoder()), src).state)
      ensures outl == |Feed(old(Encoder()), src).out|
      ensures out[..] == Overwrite(old(out[..]), at, Feed(old(Encoder()), src).out)
    {
      hide EncChar, EncStep, Feed, Fed, Overwrite, Same, FastChars, CarryOf0, CarryOf1, Sextet0, Sextet3, WithTop4, WithTop2;
      ghost var st := Encoder();
      ghost var was := out[..];
      ghost var written: text := [];
      var b, cy := bytes, carry;
      var pos: nat := 0;
      outl := 0;
      FedNothing(st, src);
      OverwriteNothing(was, at);
      while true
        invariant b <= 2 && eof == old(eof) && Encoder() == st
        invariant Fed(st, src, pos, b, cy, written)
        invariant pos <= |src| && outl == |written|
        invariant at + outl <= out.Length && out[..] == Overwrite(was, at, written)
        decreases |src| - pos
      {
        if b == 0 {
          pos, outl, written := EncodeSixAtATime(st, src, pos, cy, out, at, was, written, outl);
          if pos == |src| {
            break;
          }
          EncodeCases(cy, src[pos]);
          written := Emit(st, src, pos, b, cy, [EncChar(Sextet0(src[pos]))], out, at, was, written, outl);
          cy := CarryOf0(src[pos]);
          b, pos, outl := 1, pos + 1, outl + 1;
        }
        if b == 1 {
          if pos == |src| {
            break;
          }
          EncodeCases(cy, src[pos]);
          written := Emit(st, src, pos, b, cy, [EncChar(WithTop4(cy, src[pos]))], out, at, was, written, outl);
          cy := CarryOf1(src[pos]);
          b, pos, outl := 2, pos + 1, outl + 1;
        }
        if pos == |src| {
          break;
        }
        EncodeCases(cy, src[pos]);
        written := Emit(st, src, pos, b, cy, [EncChar(WithTop2(cy, src[pos])), EncChar(Sextet3(src[pos]))],
                        out, at, was, written, outl);
        b, pos, outl := 0, pos + 1, outl + 2;
      }
      FedAll(st, src, b, cy, written);
      bytes, carry := b, cy;
    }

    /** `base64_stream_encode_final` */
    method EncodeFinal(out: array<byte>, at: nat) returns (outl: nat)
      requires bytes <= 2
      requires at + |Final(Encoder())| <= out.Length
      modifies out
      ensures outl == |Final(Encoder())|
      ensures out[..] == Overwrite(old(out[..]), at, Final(Encoder()))
    {
      hide EncChar, Overwrite;
      if bytes == 1 {
        Put(out, at, [EncChar(carry), PAD, PAD]);
        return 3;
      }
      if bytes == 2 {
        Put(out, at, [EncChar(carry), PAD]);
        return 2;
      }
      OverwriteNothing(out[..], at);
      return 0;
    }

    /** `base64_stream_decode`: the bytes go to `out` from `at` on; `ret` is false on malformed text. */
    method StreamDecode(src: text, out: array<byte>, at: nat) returns (outl: nat, ret: bool)
      requires Sound(Decoder())
      requires at + |Decode(Decoder(), src).out| <= out.Length
      modifies this, out
      ensures Sound(Decoder())
      ensures Decode(old(Decoder()), src).state == Decoder() && Decode(old(Decoder()), src).ret == ret
      ensures outl == |Decode(old(Decoder()), src).out|
      ensures out[..] == Overwrite(old(out[..]), at, Decode(old(Decoder()), src).out)
    {
      hide IsPad, IsValue, DecChar, Decode, DecodeLoop, Decoding, Finished, Overwrite, Emits, NextState, Stop,
        Rest6, Rest4, Rest2, Finish2, Finish4, Finish6;
      if eof != Open {
        DecodeAtEnd(Decoder(), src);
        OverwriteNothing(out[..], at);
        outl, ret := 0, false;
        if |src| > 0 && eof == Almost {
          bytes := 0;
          eof := Closed;
          ret := IsPad(DecChar(src[0])) && |src| == 1;
        }
        return;
      }
      ghost var st := Decoder();
      DecodeIsLoop(st, src);
      ghost var done;
      var e, b, cy;
      e, b, cy, outl, ret, done := DecodeChars(DecState(eof, bytes, carry), src, out, at);
      DecodeLoopIsFinished(st, src, e, b, cy, done, ret);
      eof, bytes, carry := e, b, cy;
    }
  }
}
