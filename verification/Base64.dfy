/** Base64 (section 4 of RFC 4648) and the stream codec that computes it byte by byte. */
module Base64 {
  import opened ByteNumbers

  type text = seq<byte>

  /** '=' */
  const PAD: byte := 61

  /** `base64_table_enc`: A-Z, a-z, 0-9, '+', '/'. */
  function EncChar(v: byte): byte {
    if v < 26 then v + 65
    else if v < 52 then v + 71
    else if v < 62 then v - 4
    else if v == 62 then 43
    else 47
  }

  const IS_PAD: byte := 254
  const INVALID: byte := 255

  /** `base64_table_dec`: 254 for '=', 255 for a byte outside the alphabet. */
  function DecChar(c: byte): byte {
    if 65 <= c <= 90 then c - 65
    else if 97 <= c <= 122 then c - 71
    else if 48 <= c <= 57 then c + 4
    else if c == 43 then 62
    else if c == 47 then 63
    else if c == PAD then IS_PAD
    else INVALID
  }

  /** A value of the decode table that stands for six bits. */
  predicate IsValue(q: byte) {
    q < IS_PAD
  }

  predicate IsPad(q: byte) {
    q == IS_PAD
  }

  lemma DecodeEncodedChar(v: byte)
    requires v < 64
    ensures DecChar(EncChar(v)) == v
  {
  }

  // ----- the standard's definition -----

  /** A 24-bit group as four characters. */
  function Group(a: byte, b: byte, c: byte): (t: text)
    ensures |t| == 4
  {
    var v := ((a as bv24) << 16) | ((b as bv24) << 8) | (c as bv24);
    [EncChar(((v >> 18) & 0x3F) as byte), EncChar(((v >> 12) & 0x3F) as byte),
     EncChar(((v >> 6) & 0x3F) as byte), EncChar((v & 0x3F) as byte)]
  }

  function Rfc(s: seq<byte>): text {
    if |s| == 0 then []
    else if |s| == 1 then Group(s[0], 0, 0)[..2] + [PAD, PAD]
    else if |s| == 2 then Group(s[0], s[1], 0)[..3] + [PAD]
    else Group(s[0], s[1], s[2]) + Rfc(s[3..])
  }

  // The six-bit values of a group, and the carry that links two of them.

  function Sextet0(a: byte): byte {
    a >> 2
  }

  function CarryOf0(a: byte): byte {
    (a << 4) & 0x30
  }

  function WithTop4(carry: byte, b: byte): byte {
    carry | (b >> 4)
  }

  function CarryOf1(b: byte): byte {
    (b << 2) & 0x3C
  }

  function WithTop2(carry: byte, c: byte): byte {
    carry | (c >> 6)
  }

  function Sextet3(c: byte): byte {
    c & 0x3F
  }

  function Sextet1(a: byte, b: byte): byte {
    WithTop4(CarryOf0(a), b)
  }

  function Sextet2(b: byte, c: byte): byte {
    WithTop2(CarryOf1(b), c)
  }

  // ----- the encoder's state machine -----

  datatype EncState = EncState(bytes: nat, carry: byte)

  datatype Encoded = Encoded(state: EncState, out: text)

  const START := EncState(0, 0)

  function EncStep(st: EncState, c: byte): Encoded {
    if st.bytes == 0 then
      Encoded(EncState(1, CarryOf0(c)), [EncChar(Sextet0(c))])
    else if st.bytes == 1 then
      Encoded(EncState(2, CarryOf1(c)), [EncChar(WithTop4(st.carry, c))])
    else
      Encoded(EncState(0, st.carry), [EncChar(WithTop2(st.carry, c)), EncChar(Sextet3(c))])
  }

  /** Feeding a block, the last byte last. */
  function Feed(st: EncState, src: seq<byte>): Encoded {
    if |src| == 0 then Encoded(st, [])
    else
      var front := Feed(st, src[..|src| - 1]);
      var last := EncStep(front.state, src[|src| - 1]);
      Encoded(last.state, front.out + last.out)
  }

  /** `base64_stream_encode_final` */
  function Final(st: EncState): text {
    if st.bytes == 1 then [EncChar(st.carry), PAD, PAD]
    else if st.bytes == 2 then [EncChar(st.carry), PAD]
    else []
  }

  lemma {:induction false} FeedConcatenates(st: EncState, a: seq<byte>, b: seq<byte>)
    ensures var first := Feed(st, a);
            Feed(st, a + b) == Encoded(Feed(first.state, b).state, first.out + Feed(first.state, b).out)
  {
    hide EncStep;
    var first := Feed(st, a);
    if |b| == 0 {
      assert a + b == a;
      assert first.out + [] == first.out;
    } else {
      var front := b[..|b| - 1];
      assert (a + b)[..|a + b| - 1] == a + front;
      FeedConcatenates(st, a, front);
      var last := EncStep(Feed(first.state, front).state, b[|b| - 1]);
      assert (first.out + Feed(first.state, front).out) + last.out == first.out + (Feed(first.state, front).out + last.out);
    }
  }

  lemma FeedOne(st: EncState, c: byte)
    ensures Feed(st, [c]) == EncStep(st, c)
  {
    hide EncStep;
    assert [c][..0] == [];
    assert [] + EncStep(st, c).out == EncStep(st, c).out;
  }

  /** Three bytes from a fresh state are one group, and the state is fresh again but for a stale carry. */
  lemma FeedGroup(st: EncState, a: byte, b: byte, c: byte)
    requires st.bytes == 0
    ensures Feed(st, [a, b, c]).out == Group(a, b, c) && Feed(st, [a, b, c]).state.bytes == 0
  {
    hide EncChar, Feed, Group, Sextet0, Sextet3, CarryOf0, CarryOf1, WithTop4, WithTop2;
    FeedThree(st, a, b, c);
    GroupSextets(a, b, c);
  }

  lemma FeedThree(st: EncState, a: byte, b: byte, c: byte)
    ensures var one := EncStep(st, a);
            var two := EncStep(one.state, b);
            var three := EncStep(two.state, c);
            Feed(st, [a, b, c]) == Encoded(three.state, one.out + two.out + three.out)
  {
    hide EncStep, Feed;
    FeedOne(st, a);
    var one := EncStep(st, a);
    FeedOne(one.state, b);
    FeedConcatenates(st, [a], [b]);
    assert [a] + [b] == [a, b];
    FeedOne(EncStep(one.state, b).state, c);
    FeedConcatenates(st, [a, b], [c]);
    assert [a, b] + [c] == [a, b, c];
  }

  lemma GroupSextets(a: byte, b: byte, c: byte)
    ensures Group(a, b, c)
         == [EncChar(Sextet0(a)), EncChar(Sextet1(a, b)), EncChar(Sextet2(b, c)), EncChar(Sextet3(c))]
  {
    hide EncChar;
  }

  /** The stream encoder with its trailer is the standard's encoding, from any state between groups. */
  lemma {:induction false} FeedIsRfc(st: EncState, s: seq<byte>)
    requires st.bytes == 0
    ensures Feed(st, s).out + Final(Feed(st, s).state) == Rfc(s)
    decreases |s|
  {
    hide EncStep, Feed, Group, EncChar;
    if |s| == 0 {
      FeedNothing(st);
    } else if |s| == 1 {
      FeedOne(st, s[0]);
      assert s == [s[0]];
      OneByteGroup(st, s[0]);
    } else if |s| == 2 {
      FeedTwo(st, s[0], s[1]);
      assert s == [s[0], s[1]];
      TwoByteGroup(st, s[0], s[1]);
    } else {
      var next := Feed(st, s[..3]);
      assert s[..3] == [s[0], s[1], s[2]];
      FeedGroup(st, s[0], s[1], s[2]);
      FeedConcatenates(st, s[..3], s[3..]);
      assert s[..3] + s[3..] == s;
      FeedIsRfc(next.state, s[3..]);
      Associates(next.out, Feed(next.state, s[3..]).out, Final(Feed(st, s).state));
    }
  }

  /** Four characters for every group of three bytes, the last one filled up. */
  lemma {:induction false} RfcLength(s: seq<byte>)
    ensures |Rfc(s)| == (|s| + 2) / 3 * 4
    decreases |s|
  {
    if |s| >= 3 {
      RfcLength(s[3..]);
    }
  }

  lemma Associates(a: text, b: text, c: text)
    ensures (a + b) + c == a + (b + c)
  {
  }

  lemma FeedNothing(st: EncState)
    ensures Feed(st, []) == Encoded(st, [])
  {
  }

  lemma FeedTwo(st: EncState, a: byte, b: byte)
    ensures var one := EncStep(st, a);
            var two := EncStep(one.state, b);
            Feed(st, [a, b]) == Encoded(two.state, one.out + two.out)
  {
    hide EncStep, Feed;
    FeedOne(st, a);
    FeedOne(EncStep(st, a).state, b);
    FeedConcatenates(st, [a], [b]);
    assert [a] + [b] == [a, b];
  }

  lemma OneByteGroup(st: EncState, a: byte)
    requires st.bytes == 0
    ensures EncStep(st, a).state.bytes == 1
    ensures EncStep(st, a).out + Final(EncStep(st, a).state) == Group(a, 0, 0)[..2] + [PAD, PAD]
  {
    hide EncChar, Group, Sextet0, Sextet1, Sextet2, Sextet3, CarryOf0, CarryOf1;
    GroupSextets(a, 0, 0);
    NoBits(a, 0);
  }

  lemma TwoByteGroup(st: EncState, a: byte, b: byte)
    requires st.bytes == 0
    ensures EncStep(EncStep(st, a).state, b).state.bytes == 2
    ensures EncStep(st, a).out + EncStep(EncStep(st, a).state, b).out + Final(EncStep(EncStep(st, a).state, b).state)
         == Group(a, b, 0)[..3] + [PAD]
  {
    hide EncChar, Group, Sextet0, Sextet2, Sextet3, CarryOf0, CarryOf1, WithTop4, WithTop2;
    GroupSextets(a, b, 0);
    NoBits(a, b);
  }

  lemma NoBits(a: byte, b: byte)
    ensures Sextet1(a, 0) == CarryOf0(a) && Sextet2(b, 0) == CarryOf1(b)
  {
  }

  // ----- the decoder's state machine -----

  /** `eof`: still open, waiting for the second '=', or at the end of the data. */
  datatype Eof = Open | Almost | Closed

  datatype DecState = DecState(eof: Eof, bytes: nat, carry: byte)

  datatype Decoded = Decoded(state: DecState, out: seq<byte>, ret: bool) {
    function After(emitted: seq<byte>): Decoded {
      Decoded(state, emitted + out, ret)
    }
  }

  const DEC_START := DecState(Open, 0, 0)

  // The bits of a character that finish a byte, and the bits it leaves for the next one.

  function Rest6(q: byte): byte {
    q << 2
  }

  function Finish2(carry: byte, q: byte): byte {
    carry | (q >> 4)
  }

  function Rest4(q: byte): byte {
    q << 4
  }

  function Finish4(carry: byte, q: byte): byte {
    carry | (q >> 2)
  }

  function Rest2(q: byte): byte {
    q << 6
  }

  function Finish6(carry: byte, q: byte): byte {
    carry | q
  }

  /** The state after a character of the alphabet. */
  function NextState(st: DecState, q: byte): DecState {
    if st.bytes == 0 then DecState(Open, 1, Rest6(q))
    else if st.bytes == 1 then DecState(Open, 2, Rest4(q))
    else if st.bytes == 2 then DecState(Open, 3, Rest2(q))
    else DecState(Open, 0, 0)
  }

  /** The byte it completes, if any. */
  function Emits(st: DecState, q: byte): seq<byte> {
    if st.bytes == 0 then []
    else if st.bytes == 1 then [Finish2(st.carry, q)]
    else if st.bytes == 2 then [Finish4(st.carry, q)]
    else [Finish6(st.carry, q)]
  }

  /** Any other character breaks the loop; after two characters of a group a '=' takes the next one with it. */
  function Stop(st: DecState, q: byte, src: text): Decoded
    requires |src| > 0
  {
    if st.bytes <= 1 then
      Decoded(DecState(Closed, st.bytes, st.carry), [], false)
    else if st.bytes == 2 then
      if IsPad(q) then
        if |src| > 1 then Decoded(DecState(Closed, 0, st.carry), [], IsPad(DecChar(src[1])) && |src| == 2)
        else Decoded(DecState(Almost, 3, st.carry), [], true)
      else Decoded(DecState(Open, 3, st.carry), [], false)
    else
      Decoded(DecState(Closed, 0, st.carry), [], IsPad(q) && |src| == 1)
  }

  function DecodeLoop(st: DecState, src: text): Decoded
    decreases |src|
  {
    if |src| == 0 then Decoded(st, [], true)
    else
      var q := DecChar(src[0]);
      if !IsValue(q) then Stop(st, q, src)
      else DecodeLoop(NextState(st, q), src[1..]).After(Emits(st, q))
  }

  /** `base64_stream_decode` */
  function Decode(st: DecState, src: text): Decoded {
    if st.eof == Open then DecodeLoop(st, src)
    else if |src| > 0 && st.eof == Almost then
      Decoded(DecState(Closed, 0, st.carry), [], IsPad(DecChar(src[0])) && |src| == 1)
    else Decoded(st, [], false)
  }

  /** `base64_decode`: the bytes it writes, and whether it reports success. */
  function DecodedBytes(src: text): seq<byte> {
    Decode(DEC_START, src).out
  }

  predicate DecodesWell(src: text) {
    Decode(DEC_START, src).ret && Decode(DEC_START, src).state.bytes == 0
  }

  predicate NoInvalid(t: text) {
    forall c | c in t :: DecChar(c) != INVALID
  }

  /** The decoder met a foreign character in third place: it reports failure but stays open. */
  predicate Stalled(d: Decoded) {
    !d.ret && d.state.eof == Open
  }

  /** The position of the first character that stands for no six bits: '=' or one outside the alphabet. */
  function FirstForeign(t: text): (p: nat)
    ensures p <= |t|
    ensures p < |t| ==> !IsValue(DecChar(t[p]))
    ensures forall i | 0 <= i < p :: IsValue(DecChar(t[i]))
  {
    if |t| == 0 || !IsValue(DecChar(t[0])) then 0 else FirstForeign(t[1..]) + 1
  }

  lemma ForeignIs(t: text, p: nat)
    requires p <= |t|
    requires p < |t| ==> !IsValue(DecChar(t[p]))
    requires forall i | 0 <= i < p :: IsValue(DecChar(t[i]))
    ensures FirstForeign(t) == p
  {
    hide DecChar, IsValue;
    var q := FirstForeign(t);
    assert q < |t| ==> !IsValue(DecChar(t[q]));
  }

  /** No padding and no foreign character. */
  predicate Unpadded(t: text) {
    FirstForeign(t) == |t|
  }

  lemma ForeignOfBoth(a: text, b: text)
    ensures FirstForeign(a + b) == if Unpadded(a) then |a| + FirstForeign(b) else FirstForeign(a)
  {
    hide DecChar, IsValue;
    ForeignIs(a + b, if Unpadded(a) then |a| + FirstForeign(b) else FirstForeign(a));
  }

  /** How many characters of a group the decoder has. */
  function Pending(st: DecState): nat {
    if st.bytes <= 2 then st.bytes else 3
  }

  /** The place in its group of the character k behind one that has `pending` before it. */
  function InGroup(pending: nat, k: nat): (r: nat)
    ensures r < 4
  {
    (pending + k) % 4
  }

  /** The first such character of the text is none of the padding, and comes third in its group. */
  predicate StallsIn(pending: nat, t: text) {
    var p := FirstForeign(t);
    p < |t| && InGroup(pending, p) == 2 && !IsPad(DecChar(t[p]))
  }

  /** How an open decoder leaves a text can be read off the text. */
  lemma {:induction false} LoopLeaves(st: DecState, t: text)
    requires st.eof == Open
    ensures var d := DecodeLoop(st, t);
            && (Stalled(d) <==> StallsIn(Pending(st), t))
            && (Stalled(d) ==> Pending(d.state) == 3)
            && (d.state.eof == Open <==> FirstForeign(t) == |t| || Stalled(d))
            && (FirstForeign(t) == |t| ==> Pending(d.state) == InGroup(Pending(st), |t|))
    decreases |t|
  {
    hide DecChar, Emits, IsValue, IsPad, NextState, Stop, Pending, InGroup;
    PendingFew(st);
    AfterOne(Pending(st), 0);
    if |t| > 0 {
      var q := DecChar(t[0]);
      if IsValue(q) {
        NextPending(st, q);
        LoopLeaves(NextState(st, q), t[1..]);
        AfterOne(Pending(st), FirstForeign(t[1..]));
        AfterOne(Pending(st), |t[1..]|);
      } else {
        StopLeaves(st, q, t);
      }
    }
  }

  lemma PendingFew(st: DecState)
    ensures Pending(st) <= 3
  {
  }

  lemma NextPending(st: DecState, q: byte)
    ensures NextState(st, q).eof == Open && Pending(NextState(st, q)) == InGroup(Pending(st), 1)
  {
  }

  lemma StopLeaves(st: DecState, q: byte, src: text)
    requires |src| > 0
    ensures Stalled(Stop(st, q, src)) <==> Pending(st) == 2 && !IsPad(q)
    ensures Stalled(Stop(st, q, src)) ==> Pending(Stop(st, q, src).state) == 3
    ensures Stop(st, q, src).state.eof == Open <==> Stalled(Stop(st, q, src))
  {
    hide DecChar, IsPad;
  }

  lemma AfterOne(pending: nat, p: nat)
    requires pending <= 3
    ensures InGroup(InGroup(pending, 1), p) == InGroup(pending, p + 1) && InGroup(pending, 0) == pending
  {
    if pending == 3 {
      OneGroupMore(p);
    }
  }

  lemma OneGroupMore(p: nat)
    ensures (3 + (p + 1)) % 4 == (0 + p) % 4
  {
  }

  /** A stalled decoder goes on with the next text exactly when that starts with a character of the alphabet. */
  lemma StalledGoesOn(st: DecState, b: text)
    requires st.eof == Open && Pending(st) == 3
    ensures Decode(st, b).out == [] <==> |b| == 0 || !IsValue(DecChar(b[0]))
    ensures Decode(st, b).out == [] && |b| > 0 ==> Decode(st, b).state.eof == Closed
  {
    hide DecChar, IsValue, Finish6;
  }

  /**
   * Cutting a text in two gives the bytes of the whole text, except when the first part has a foreign character in
   * third place before any other and the second starts with one of the alphabet: the decoder drops the rest of its
   * block only, and picks up again with the next one.
   */
  lemma DecodeConcatenatesIff(st: DecState, a: text, b: text)
    ensures var first := Decode(st, a);
            Decode(st, a + b).out == first.out + Decode(first.state, b).out
            <==> !(st.eof == Open && StallsIn(Pending(st), a) && |b| > 0 && IsValue(DecChar(b[0])))
  {
    hide DecChar, DecodeLoop, StallsIn, Pending, IsValue;
    var first := Decode(st, a);
    if st.eof == Open {
      LoopLeaves(st, a);
    }
    if Stalled(first) {
      LoopStalls(st, a, b);
      StalledGoesOn(first.state, b);
      assert first.out + [] == first.out;
    } else {
      DecodeConcatenates(st, a, b);
    }
  }

  /** Unless it stalls, the decoder is left as by the whole text; and as long as there is more text, says the same of it. */
  lemma DecodeConcatenates(st: DecState, a: text, b: text)
    requires !Stalled(Decode(st, a))
    ensures var first := Decode(st, a);
            && Decode(st, a + b).state == Decode(first.state, b).state
            && Decode(st, a + b).out == first.out + Decode(first.state, b).out
            && (|b| > 0 ==> (Decode(st, a + b).ret <==> Decode(first.state, b).ret))
  {
    hide DecChar, DecodeLoop;
    if st.eof == Open {
      LoopConcatenates(st, a, b);
    } else if |a| == 0 {
      assert a + b == b;
      assert [] + Decode(st, b).out == Decode(st, b).out;
    } else {
      assert [] + Decode(Decode(st, a).state, b).out == [];
    }
  }

  lemma {:induction false} LoopConcatenates(st: DecState, a: text, b: text)
    requires st.eof == Open && !Stalled(DecodeLoop(st, a))
    ensures var first := DecodeLoop(st, a);
            && DecodeLoop(st, a + b).state == Decode(first.state, b).state
            && DecodeLoop(st, a + b).out == first.out + Decode(first.state, b).out
            && (|b| > 0 ==> (DecodeLoop(st, a + b).ret <==> Decode(first.state, b).ret))
    decreases |a|
  {
    hide DecChar, NextState, Emits, Stop, IsValue;
    if |a| == 0 {
      assert a + b == b;
      assert [] + Decode(st, b).out == Decode(st, b).out;
    } else {
      var q := DecChar(a[0]);
      assert (a + b)[1..] == a[1..] + b;
      if IsValue(q) {
        StaysOpen(st, q);
        LoopConcatenates(NextState(st, q), a[1..], b);
        var first := DecodeLoop(NextState(st, q), a[1..]);
        Associates(Emits(st, q), first.out, Decode(first.state, b).out);
      } else {
        StopConcatenates(st, q, a, b);
      }
    }
  }

  lemma StaysOpen(st: DecState, q: byte)
    ensures NextState(st, q).eof == Open
  {
  }

  lemma StopConcatenates(st: DecState, q: byte, a: text, b: text)
    requires |a| > 0 && !Stalled(Stop(st, q, a))
    ensures var first := Stop(st, q, a);
            && Stop(st, q, a + b).state == Decode(first.state, b).state
            && Stop(st, q, a + b).out == first.out + Decode(first.state, b).out
            && (|b| > 0 ==> (Stop(st, q, a + b).ret <==> Decode(first.state, b).ret))
  {
    hide DecChar, DecodeLoop, IsPad;
    if |a| > 1 {
      assert (a + b)[1] == a[1];
    } else if |b| > 0 {
      assert (a + b)[1] == b[0];
    }
  }

  lemma {:induction false} LoopStalls(st: DecState, a: text, b: text)
    requires st.eof == Open && Stalled(DecodeLoop(st, a))
    ensures DecodeLoop(st, a + b) == DecodeLoop(st, a)
    decreases |a|
  {
    hide DecChar, NextState, Emits, IsValue;
    if |a| > 0 {
      var q := DecChar(a[0]);
      assert (a + b)[1..] == a[1..] + b;
      if IsValue(q) {
        StaysOpen(st, q);
        LoopStalls(NextState(st, q), a[1..], b);
      }
    }
  }

  /** Text without foreign characters never stalls a decoder. */
  lemma ValidTextNeverStalls(st: DecState, a: text)
    requires NoInvalid(a)
    ensures !Stalled(Decode(st, a))
  {
    hide DecChar, DecodeLoop;
    if st.eof == Open {
      LoopLeaves(st, a);
      var p := FirstForeign(a);
      assert p < |a| ==> a[p] in a;
    }
  }

  /** A character completes at most one byte. */
  lemma {:induction false} DecodeLoopLength(st: DecState, src: text)
    ensures |DecodeLoop(st, src).out| <= |src|
    decreases |src|
  {
    hide DecChar, IsValue, IsPad, Rest6, Rest4, Rest2, Finish2, Finish4, Finish6;
    if |src| > 0 {
      var q := DecChar(src[0]);
      if IsValue(q) {
        DecodeLoopLength(NextState(st, q), src[1..]);
      }
    }
  }

  // ----- which texts are well formed -----

  /** An open decoder that has `pending` characters of a group accepts whole groups, the last one padded or not. */
  predicate Accepts(pending: nat, t: text) {
    var p := FirstForeign(t);
    if p == |t| then InGroup(pending, p) == 0
    else if p + 1 == |t| then InGroup(pending, p) == 3 && IsPad(DecChar(t[p]))
    else p + 2 == |t| && InGroup(pending, p) == 2 && IsPad(DecChar(t[p])) && IsPad(DecChar(t[p + 1]))
  }

  lemma {:induction false} LoopAcceptsIff(st: DecState, t: text)
    requires st.eof == Open && st.bytes <= 3
    ensures DecodeLoop(st, t).ret && DecodeLoop(st, t).state.bytes == 0 <==> Accepts(st.bytes, t)
    decreases |t|
  {
    hide DecChar, Emits, IsValue, IsPad, NextState, Stop, InGroup;
    AfterOne(st.bytes, 0);
    if |t| > 0 {
      var q := DecChar(t[0]);
      if IsValue(q) {
        NextBytes(st, q);
        LoopAcceptsIff(NextState(st, q), t[1..]);
        AfterOne(st.bytes, FirstForeign(t[1..]));
      } else {
        StopAcceptsIff(st, t);
      }
    }
  }

  lemma NextBytes(st: DecState, q: byte)
    requires st.bytes <= 3
    ensures NextState(st, q).eof == Open && NextState(st, q).bytes == InGroup(st.bytes, 1)
  {
  }

  lemma StopAcceptsIff(st: DecState, t: text)
    requires st.bytes <= 3 && |t| > 0
    ensures var d := Stop(st, DecChar(t[0]), t);
            d.ret && d.state.bytes == 0 <==>
              || (st.bytes == 3 && |t| == 1 && IsPad(DecChar(t[0])))
              || (st.bytes == 2 && |t| == 2 && IsPad(DecChar(t[0])) && IsPad(DecChar(t[1])))
  {
    hide DecChar, IsPad;
  }

  /** `base64_decode` reports success on just these texts. */
  lemma DecodesWellIff(t: text)
    ensures DecodesWell(t) <==> Accepts(0, t)
  {
    hide DecodeLoop, Accepts;
    LoopAcceptsIff(DEC_START, t);
  }

  /** An accepted text leaves as many characters pending as it is longer than whole groups. */
  lemma {:induction false} LoopKeepsCount(st: DecState, t: text)
    requires st.eof == Open && st.bytes <= 3 && DecodeLoop(st, t).ret
    ensures DecodeLoop(st, t).state.bytes == InGroup(st.bytes, |t|)
    decreases |t|
  {
    hide DecChar, Emits, IsValue, IsPad, NextState;
    if |t| > 0 {
      var q := DecChar(t[0]);
      if IsValue(q) {
        NextBytes(st, q);
        LoopKeepsCount(NextState(st, q), t[1..]);
        AfterOne(st.bytes, |t| - 1);
      }
    }
  }

  /** How many bytes k characters of the alphabet complete. */
  function BytesFor(k: nat): nat {
    k * 3 / 4
  }

  /** The bytes written are three for four characters of the alphabet, as far as they are complete. */
  lemma {:induction false} LoopWrites(st: DecState, t: text)
    requires st.eof == Open && st.bytes <= 3
    ensures |DecodeLoop(st, t).out| == BytesFor(st.bytes + FirstForeign(t)) - BytesFor(st.bytes)
    decreases |t|
  {
    hide DecChar, IsValue, IsPad, NextState, Emits, Stop, InGroup, BytesFor;
    if |t| > 0 {
      var q := DecChar(t[0]);
      if IsValue(q) {
        NextBytes(st, q);
        EmitsOne(st, q);
        LoopWrites(NextState(st, q), t[1..]);
        ThreeQuarters(st.bytes, FirstForeign(t[1..]));
      } else {
        StopWritesNothing(st, q, t);
      }
    }
  }

  lemma EmitsOne(st: DecState, q: byte)
    requires st.bytes <= 3
    ensures |Emits(st, q)| == BytesFor(st.bytes + 1) - BytesFor(st.bytes)
  {
    hide Finish2, Finish4, Finish6;
  }

  lemma StopWritesNothing(st: DecState, q: byte, src: text)
    requires |src| > 0
    ensures Stop(st, q, src).out == []
  {
    hide DecChar;
  }

  lemma ThreeQuarters(b: nat, p: nat)
    requires b <= 3
    ensures BytesFor(b) <= BytesFor(b + 1) <= BytesFor(b + (p + 1)) && BytesFor(b) <= BytesFor(b + p)
    ensures BytesFor(InGroup(b, 1)) <= BytesFor(InGroup(b, 1) + p)
    ensures (BytesFor(b + 1) - BytesFor(b)) + (BytesFor(InGroup(b, 1) + p) - BytesFor(InGroup(b, 1)))
         == BytesFor(b + (p + 1)) - BytesFor(b)
  {
    if b == 3 {
      FourMore(p);
    }
  }

  lemma FourMore(p: nat)
    ensures BytesFor(4 + p) == BytesFor(p) + 3
  {
  }

  // ----- decoding what was encoded -----

  lemma LoopStep(st: DecState, v: byte, rest: text)
    requires v < 64
    ensures DecodeLoop(st, [EncChar(v)] + rest) == DecodeLoop(NextState(st, v), rest).After(Emits(st, v))
  {
    hide EncChar, DecChar, NextState, Emits;
    DecodeEncodedChar(v);
    assert ([EncChar(v)] + rest)[1..] == rest;
  }

  lemma SextetsFit(a: byte, b: byte, c: byte)
    ensures Sextet0(a) < 64 && Sextet1(a, b) < 64 && Sextet2(b, c) < 64 && Sextet3(c) < 64
  {
  }

  lemma SextetsRestore(a: byte, b: byte, c: byte)
    ensures Finish2(Rest6(Sextet0(a)), Sextet1(a, b)) == a
    ensures Finish4(Rest4(Sextet1(a, b)), Sextet2(b, c)) == b
    ensures Finish6(Rest2(Sextet2(b, c)), Sextet3(c)) == c
  {
  }

  /** What the four characters of a group do to a decoder that stands between groups. */
  lemma GroupEmits(st: DecState, a: byte, b: byte, c: byte)
    requires st.eof == Open && st.bytes == 0
    ensures var st1 := NextState(st, Sextet0(a));
            var st2 := NextState(st1, Sextet1(a, b));
            var st3 := NextState(st2, Sextet2(b, c));
            && Emits(st, Sextet0(a)) == []
            && Emits(st1, Sextet1(a, b)) == [a]
            && st2.bytes == 2
            && Emits(st2, Sextet2(b, c)) == [b]
            && st3.bytes == 3
            && Emits(st3, Sextet3(c)) == [c]
            && NextState(st3, Sextet3(c)) == DEC_START
  {
    hide Sextet0, Sextet1, Sextet2, Sextet3, Rest6, Rest4, Rest2, Finish2, Finish4, Finish6;
    SextetsRestore(a, b, c);
  }

  /** The four characters of a group give its three bytes back. */
  lemma DecodeGroup(st: DecState, a: byte, b: byte, c: byte, rest: text)
    requires st.eof == Open && st.bytes == 0
    ensures DecodeLoop(st, Group(a, b, c) + rest) == DecodeLoop(DEC_START, rest).After([a, b, c])
  {
    hide Group, EncChar, DecodeLoop, NextState, Emits, Sextet0, Sextet1, Sextet2, Sextet3;
    GroupSextets(a, b, c);
    SextetsFit(a, b, c);
    GroupEmits(st, a, b, c);
    var t3 := [EncChar(Sextet3(c))] + rest;
    var t2 := [EncChar(Sextet2(b, c))] + t3;
    var t1 := [EncChar(Sextet1(a, b))] + t2;
    FourInFront(EncChar(Sextet0(a)), EncChar(Sextet1(a, b)), EncChar(Sextet2(b, c)), EncChar(Sextet3(c)), rest);
    var st1 := NextState(st, Sextet0(a));
    var st2 := NextState(st1, Sextet1(a, b));
    LoopStep(st, Sextet0(a), t1);
    LoopStep(st1, Sextet1(a, b), t2);
    LoopStep(st2, Sextet2(b, c), t3);
    LoopStep(NextState(st2, Sextet2(b, c)), Sextet3(c), rest);
    var out := DecodeLoop(DEC_START, rest).out;
    ThreeInFront(a, b, c, out);
  }

  lemma FourInFront(a: byte, b: byte, c: byte, d: byte, rest: text)
    ensures [a, b, c, d] + rest == [a] + ([b] + ([c] + ([d] + rest)))
  {
  }

  lemma ThreeInFront(a: byte, b: byte, c: byte, rest: seq<byte>)
    ensures [] + ([a] + ([b] + ([c] + rest))) == [a, b, c] + rest
  {
  }

  lemma DecodeOneByte(st: DecState, a: byte)
    requires st.eof == Open && st.bytes == 0
    ensures var d := DecodeLoop(st, Group(a, 0, 0)[..2] + [PAD, PAD]);
            d.out == [a] && d.ret && d.state.bytes == 0
  {
    hide Group, EncChar, DecodeLoop, NextState, Emits, Sextet0, Sextet1, Sextet2, Sextet3;
    GroupSextets(a, 0, 0);
    SextetsFit(a, 0, 0);
    GroupEmits(st, a, 0, 0);
    var t1 := [EncChar(Sextet1(a, 0))] + [PAD, PAD];
    assert Group(a, 0, 0)[..2] + [PAD, PAD] == [EncChar(Sextet0(a))] + t1;
    var st1 := NextState(st, Sextet0(a));
    LoopStep(st, Sextet0(a), t1);
    LoopStep(st1, Sextet1(a, 0), [PAD, PAD]);
    LoopStops(NextState(st1, Sextet1(a, 0)), [PAD, PAD]);
    assert [] + ([a] + []) == [a];
  }

  lemma DecodeTwoBytes(st: DecState, a: byte, b: byte)
    requires st.eof == Open && st.bytes == 0
    ensures var d := DecodeLoop(st, Group(a, b, 0)[..3] + [PAD]);
            d.out == [a, b] && d.ret && d.state.bytes == 0
  {
    hide Group, EncChar, DecodeLoop, NextState, Emits, Sextet0, Sextet1, Sextet2, Sextet3;
    GroupSextets(a, b, 0);
    SextetsFit(a, b, 0);
    GroupEmits(st, a, b, 0);
    var t2 := [EncChar(Sextet2(b, 0))] + [PAD];
    var t1 := [EncChar(Sextet1(a, b))] + t2;
    assert Group(a, b, 0)[..3] + [PAD] == [EncChar(Sextet0(a))] + t1;
    var st1 := NextState(st, Sextet0(a));
    var st2 := NextState(st1, Sextet1(a, b));
    LoopStep(st, Sextet0(a), t1);
    LoopStep(st1, Sextet1(a, b), t2);
    LoopStep(st2, Sextet2(b, 0), [PAD]);
    LoopStops(NextState(st2, Sextet2(b, 0)), [PAD]);
    assert [] + ([a] + ([b] + [])) == [a, b];
  }

  lemma LoopStops(st: DecState, src: text)
    requires |src| > 0 && src[0] == PAD
    ensures DecodeLoop(st, src) == Stop(st, IS_PAD, src)
  {
  }

  /** The decoder inverts the standard's encoding and reports success, from any state between groups. */
  lemma {:induction false} DecodeRfc(st: DecState, s: seq<byte>)
    requires st.eof == Open && st.bytes == 0
    ensures var d := DecodeLoop(st, Rfc(s));
            d.out == s && d.ret && d.state.bytes == 0
    decreases |s|
  {
    hide Group, DecodeLoop, NextState, Emits, Stop;
    if |s| == 0 {
      LoopOfNothing(st);
    } else if |s| == 1 {
      DecodeOneByte(st, s[0]);
    } else if |s| == 2 {
      DecodeTwoBytes(st, s[0], s[1]);
    } else {
      DecodeGroup(st, s[0], s[1], s[2], Rfc(s[3..]));
      DecodeRfc(DEC_START, s[3..]);
      assert s == [s[0], s[1], s[2]] + s[3..];
    }
  }

  lemma LoopOfNothing(st: DecState)
    ensures DecodeLoop(st, []) == Decoded(st, [], true)
  {
  }

  /** One-shot decoding of one-shot encoding gives the bytes back. */
  lemma DecodedBytesOfRfc(s: seq<byte>)
    ensures DecodedBytes(Rfc(s)) == s && DecodesWell(Rfc(s))
  {
    hide Rfc, DecodeLoop;
    DecodeRfc(DEC_START, s);
  }

  lemma EncCharIsValid(v: byte)
    ensures DecChar(EncChar(v)) != INVALID
  {
  }

  lemma {:induction false} RfcHasNoInvalid(s: seq<byte>)
    ensures NoInvalid(Rfc(s))
    decreases |s|
  {
    if |s| >= 3 {
      GroupHasNoInvalid(s[0], s[1], s[2]);
      RfcHasNoInvalid(s[3..]);
    } else if |s| == 2 {
      GroupHasNoInvalid(s[0], s[1], 0);
    } else if |s| == 1 {
      GroupHasNoInvalid(s[0], 0, 0);
    }
  }

  lemma GroupHasNoInvalid(a: byte, b: byte, c: byte)
    ensures NoInvalid(Group(a, b, c))
  {
    hide EncChar, DecChar, Group, Sextet0, Sextet1, Sextet2, Sextet3;
    GroupSextets(a, b, c);
    EncCharIsValid(Sextet0(a));
    EncCharIsValid(Sextet1(a, b));
    EncCharIsValid(Sextet2(b, c));
    EncCharIsValid(Sextet3(c));
  }
}
