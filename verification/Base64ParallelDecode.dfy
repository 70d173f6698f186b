/** The decoder that splits its text among threads, and the texts it accepts. */
module Base64ParallelDecode {
  import opened ByteNumbers
  import opened Memory
  import opened Blocks
  import opened Base64
  import opened Base64Codec
  import opened Base64Parallel
  import Base64Streams

  /** Sources at least this long are split among threads. */
  const OMP_THRESHOLD: nat := 20000

  function Quotient(a: nat, b: nat): nat
    requires b > 0
  {
    a / b
  }

  /** The length of a thread's part. */
  function PartLength(src: text, numThreads: nat): nat
    requires numThreads >= 1
  {
    Quotient(|src|, numThreads * 4) * 4
  }

  // ----- well-formed texts side by side -----

  /** Whole groups in front do not change the place in the group. */
  lemma WholeGroups(n: nat, p: nat)
    requires n % 4 == 0
    ensures InGroup(0, n + p) == InGroup(0, p) && InGroup(0, 0) == 0
    ensures n > 0 ==> InGroup(0, n - 1) == 3
  {
    var m := n / 4;
    assert n == 4 * m;
  }

  /** Of two texts side by side, the first of whole groups, only the second may be padded. */
  lemma BothDecodeWellIff(a: text, b: text)
    requires |a| % 4 == 0
    ensures DecodesWell(a + b) <==> DecodesWell(a) && DecodesWell(b) && (Unpadded(a) || |b| == 0)
  {
    hide DecChar, DecodesWell, FirstForeign, InGroup, IsPad;
    WholeGroups(|a|, FirstForeign(b));
    WholeGroups(|a|, 0);
    DecodesWellIff(a + b);
    DecodesWellIff(a);
    DecodesWellIff(b);
    ForeignOfBoth(a, b);
    if |b| == 0 {
      assert a + b == a;
      EmptyText(b);
    }
  }

  lemma EmptyText(b: text)
    requires |b| == 0
    ensures FirstForeign(b) == 0 && DecodesWell(b) && DecodedBytes(b) == []
  {
  }

  /** Between groups the carry is never looked at again. */
  lemma CarryIsForgotten(st: DecState, b: text)
    requires st.eof == Open && st.bytes == 0
    ensures Decode(st, b).out == Decode(DEC_START, b).out
  {
    hide DecChar, IsValue, Rest6;
  }

  /** Whole groups without padding decode on their own, three bytes for four characters. */
  lemma UnpaddedDecodes(a: text, b: text)
    requires |a| % 4 == 0 && Unpadded(a)
    ensures DecodesWell(a) && |DecodedBytes(a)| == |a| / 4 * 3
    ensures DecodedBytes(a + b) == DecodedBytes(a) + DecodedBytes(b)
  {
    hide DecChar, FirstForeign, DecodeLoop, IsPad;
    DecodesWellIff(a);
    LoopLeaves(DEC_START, a);
    LoopWrites(DEC_START, a);
    DecodeConcatenates(DEC_START, a, b);
    CarryIsForgotten(Decode(DEC_START, a).state, b);
  }

  // ----- which texts the partition accepts -----

  ghost predicate PartWell(src: text, len: nat, i: nat) {
    StartOf(i, len) + len <= |src| && DecodesWell(PartOf(src, len, i))
  }

  /** Every part and the rest behind the parts decode well, each on its own. */
  ghost predicate SegmentsWell(src: text, len: nat, n: nat) {
    && StartOf(n, len) <= |src|
    && (forall i | 0 <= i < n :: PartWell(src, len, i))
    && DecodesWell(src[StartOf(n, len)..])
  }

  ghost predicate PaddedBeforeEnd(src: text, len: nat, i: nat) {
    StartOf(i, len) + len < |src| && !Unpadded(PartOf(src, len, i))
  }

  /** Some part is padded although the text goes on behind it. */
  ghost predicate PaddedInside(src: text, len: nat, n: nat) {
    exists i: nat | i < n :: PaddedBeforeEnd(src, len, i)
  }

  lemma GroupStart(i: nat, len: nat)
    requires len % 4 == 0
    ensures StartOf(i, len) % 4 == 0 && StartOf(i, len) / 4 * 3 == StartOf(i, len / 4 * 3)
  {
    var m := len / 4;
    assert i * (4 * m) == 4 * (i * m);
    assert i * (m * 3) == (i * m) * 3;
  }

  /** Cutting a well-formed text at a part: the part is well formed, and padded only at the end of the text. */
  lemma PartOfWell(src: text, len: nat, i: nat)
    requires len % 4 == 0 && StartOf(i, len) + len <= |src| && DecodesWell(src)
    ensures PartWell(src, len, i) && !PaddedBeforeEnd(src, len, i)
    ensures StartOf(i, len) < |src| ==> Unpadded(src[..StartOf(i, len)])
  {
    hide DecodesWell, Unpadded, StartOf;
    GroupStart(i, len);
    var at := StartOf(i, len);
    var part, tail := PartOf(src, len, i), src[at + len..];
    assert src[..at] + src[at..] == src;
    BothDecodeWellIff(src[..at], src[at..]);
    assert part + tail == src[at..];
    BothDecodeWellIff(part, tail);
  }

  /** The parts in front of k side by side. */
  lemma {:induction false} FrontWell(src: text, len: nat, n: nat, k: nat)
    requires len % 4 == 0 && k <= n && SegmentsWell(src, len, n) && !PaddedInside(src, len, n)
    ensures StartOf(k, len) <= |src| && DecodesWell(src[..StartOf(k, len)])
    ensures Unpadded(src[..StartOf(k, len)]) || StartOf(k, len) == |src|
  {
    hide DecodesWell, Unpadded, FirstForeign;
    if k == 0 {
      NoParts(src, len);
    } else {
      FrontWell(src, len, n, k - 1);
      assert PartWell(src, len, k - 1) && !PaddedBeforeEnd(src, len, k - 1);
      RegionsAreAdjacent(k - 1, len);
      GroupStart(k - 1, len);
      FrontGrowsWell(src, len, StartOf(k - 1, len));
    }
  }

  lemma NoParts(src: text, len: nat)
    ensures StartOf(0, len) == 0 && DecodesWell(src[..0]) && Unpadded(src[..0])
  {
    EmptyText(src[..0]);
  }

  lemma FrontGrowsWell(src: text, len: nat, at: nat)
    requires len % 4 == 0 && at % 4 == 0 && at + len <= |src|
    requires DecodesWell(src[..at]) && (Unpadded(src[..at]) || at == |src|)
    requires DecodesWell(src[at..at + len]) && (at + len < |src| ==> Unpadded(src[at..at + len]))
    ensures DecodesWell(src[..at + len]) && (Unpadded(src[..at + len]) || at + len == |src|)
  {
    hide DecodesWell, FirstForeign;
    var front, part := src[..at], src[at..at + len];
    assert front + part == src[..at + len];
    BothDecodeWellIff(front, part);
    ForeignOfBoth(front, part);
  }

  /**
   The whole text decodes well exactly when every segment does and no part is padded before the end of the text.
   So the partition accepts more than the sequential decoder: texts padded at a boundary between parts.
   */
  lemma SequentialIff(src: text, len: nat, n: nat)
    requires len % 4 == 0 && StartOf(n, len) <= |src|
    ensures DecodesWell(src) <==> SegmentsWell(src, len, n) && !PaddedInside(src, len, n)
  {
    hide DecodesWell, Unpadded, StartOf;
    var at := StartOf(n, len);
    GroupStart(n, len);
    assert src[..at] + src[at..] == src;
    BothDecodeWellIff(src[..at], src[at..]);
    if DecodesWell(src) {
      forall i | 0 <= i < n
        ensures PartWell(src, len, i) && !PaddedBeforeEnd(src, len, i)
      {
        PartInside(i, n, len);
        PartOfWell(src, len, i);
      }
    }
    if SegmentsWell(src, len, n) && !PaddedInside(src, len, n) {
      FrontWell(src, len, n, n);
    }
  }

  // ----- texts on which the two differ -----

  /** 'A', k times. */
  function Letters(k: nat): text {
    seq(k, i => 65 as byte)
  }

  /** m whole groups and a padded one, and m + 1 whole groups behind it. */
  function PaddedHalf(m: nat): (t: text)
    ensures |t| == 8 * m + 8
  {
    Letters(4 * m + 2) + [PAD, PAD] + Letters(4 * m + 4)
  }

  lemma LettersDecode(k: nat)
    requires k % 4 == 0
    ensures Unpadded(Letters(k)) && DecodesWell(Letters(k))
  {
    hide DecodesWell;
    ForeignIs(Letters(k), k);
    DecodesWellIff(Letters(k));
  }

  lemma PaddedLettersDecode(m: nat)
    ensures var t := Letters(4 * m + 2) + [PAD, PAD];
            DecodesWell(t) && !Unpadded(t)
  {
    hide DecodesWell;
    var t := Letters(4 * m + 2) + [PAD, PAD];
    ForeignIs(t, 4 * m + 2);
    DecodesWellIff(t);
  }

  lemma HalvesOf(t: text, first: text, second: text)
    requires t == first + second && |first| == |second|
    ensures PartOf(t, |first|, 0) == first && PartOf(t, |first|, 1) == second && StartOf(2, |first|) == |t|
  {
  }

  /**
   A text padded in the middle, of any size: two threads accept what one does not. From m = 2499 on, and not
   before, these texts are long enough to be given to the threads.
   */
  lemma PaddedHalfAccepted(m: nat)
    ensures var t := PaddedHalf(m);
            && PartLength(t, 2) == 4 * m + 4
            && SegmentsWell(t, 4 * m + 4, 2) && !DecodesWell(t)
            && (m >= 2499 <==> |t| >= OMP_THRESHOLD)
  {
    hide DecodesWell, Letters, StartOf, FirstForeign;
    var first, second, t := Letters(4 * m + 2) + [PAD, PAD], Letters(4 * m + 4), PaddedHalf(m);
    PaddedLettersDecode(m);
    LettersDecode(4 * m + 4);
    LettersAreMany(4 * m + 2);
    LettersAreMany(4 * m + 4);
    assert first + second == t;
    BothDecodeWellIff(first, second);
    HalvesOf(t, first, second);
    PartInside(0, 2, 4 * m + 4);
    PartInside(1, 2, 4 * m + 4);
    assert t[|t|..] == [];
    EmptyText(t[|t|..]);
    assert PartWell(t, 4 * m + 4, 0) && PartWell(t, 4 * m + 4, 1);
  }

  lemma LettersAreMany(k: nat)
    ensures |Letters(k)| == k
  {
  }

  // ----- the threads -----

  /** For texts of whole groups a call's own verdict says whether they are well formed. */
  lemma VerdictOfGroups(t: text)
    requires |t| % 4 == 0
    ensures Decode(DEC_START, t).ret <==> DecodesWell(t)
  {
    hide DecodeLoop;
    if Decode(DEC_START, t).ret {
      LoopKeepsCount(DEC_START, t);
    }
  }

  /** A part's bytes fit its region. */
  lemma PartFits(t: text)
    requires |t| % 4 == 0
    ensures |DecodedBytes(t)| <= |t| / 4 * 3
  {
    hide DecodeLoop, FirstForeign;
    LoopWrites(DEC_START, t);
  }

  /** The parts that are done have left their bytes in their regions. */
  ghost predicate PartsDone(src: text, len: nat, n: nat, todo: set<nat>, sizes: seq<nat>, rets: seq<bool>, out: seq<byte>) {
    && len % 4 == 0 && StartOf(n, len) <= |src| && |sizes| == |rets| == n
    && forall i | 0 <= i < n && i !in todo :: PartDone(src, len, i, sizes[i], rets[i], out)
  }

  ghost predicate PartDone(src: text, len: nat, i: nat, size: nat, ret: bool, out: seq<byte>) {
    && StartOf(i, len) + len <= |src|
    && size == |DecodedBytes(PartOf(src, len, i))|
    && (ret <==> DecodesWell(PartOf(src, len, i)))
    && Holds(out, StartOf(i, len / 4 * 3), DecodedBytes(PartOf(src, len, i)))
  }

  /** One thread's writes leave the regions of the others as they were. */
  lemma OneMoreDone(src: text, len: nat, n: nat, todo: set<nat>, sizes: seq<nat>, rets: seq<bool>, out: seq<byte>, i: nat)
    requires PartsDone(src, len, n, todo, sizes, rets, out) && i < n && i in todo
    requires StartOf(i, len) + len <= |src| && StartOf(n, len / 4 * 3) <= |out|
    ensures var part := PartOf(src, len, i);
            var at := StartOf(i, len / 4 * 3);
            && at + |DecodedBytes(part)| <= |out|
            && PartsDone(src, len, n, todo - {i}, sizes[i := |DecodedBytes(part)|], rets[i := DecodesWell(part)],
                         Overwrite(out, at, DecodedBytes(part)))
  {
    hide DecodedBytes, DecodesWell, StartOf, Holds, Overwrite;
    var q := len / 4 * 3;
    var part, at := PartOf(src, len, i), StartOf(i, q);
    PartFits(part);
    PartInside(i, n, q);
    assert [] + DecodedBytes(part) == DecodedBytes(part);
    WrittenIsHeld(out, at, DecodedBytes(part));
    var out' := Overwrite(out, at, DecodedBytes(part));
    forall j | 0 <= j < n && j !in todo
      ensures PartDone(src, len, j, sizes[j], rets[j], out')
    {
      assert PartDone(src, len, j, sizes[j], rets[j], out);
      RegionsAreDisjoint(i, j, q);
      PartFits(PartOf(src, len, j));
      WriteElsewhere(out, at, DecodedBytes(part), StartOf(j, q), DecodedBytes(PartOf(src, len, j)));
    }
  }

  lemma WrittenIsHeld(out: seq<byte>, at: nat, s: seq<byte>)
    requires at + |s| <= |out|
    ensures Holds(Overwrite(out, at, s), at, s)
  {
  }

  /** Of a well-formed text the parts in front of k have written the bytes of the text in front of k. */
  lemma {:induction false} PartsJoin(src: text, len: nat, n: nat, sizes: seq<nat>, rets: seq<bool>, out: seq<byte>, k: nat)
    requires PartsDone(src, len, n, {}, sizes, rets, out) && k <= n && DecodesWell(src)
    ensures StartOf(k, len) <= |src|
    ensures var bytes := DecodedBytes(src[..StartOf(k, len)]);
            && |bytes| <= |out| && out[..|bytes|] == bytes && |bytes| == Sum(sizes[..k])
            && (StartOf(k, len) < |src| ==> |bytes| == StartOf(k, len / 4 * 3))
    decreases k
  {
    hide DecodedBytes, DecodesWell, Unpadded, FirstForeign;
    if k == 0 {
      EmptyText(src[..0]);
      NoParts(src, len);
    } else {
      PartsJoin(src, len, n, sizes, rets, out, k - 1);
      RegionsAreAdjacent(k - 1, len);
      assert PartDone(src, len, k - 1, sizes[k - 1], rets[k - 1], out);
      PartJoins(src, len, k - 1, out);
      assert sizes[..k][..k - 1] == sizes[..k - 1];
    }
  }

  function Sum(ns: seq<nat>): nat {
    if |ns| == 0 then 0 else Sum(ns[..|ns| - 1]) + ns[|ns| - 1]
  }

  lemma PartJoins(src: text, len: nat, i: nat, out: seq<byte>)
    requires len % 4 == 0 && StartOf(i, len) + len <= |src| && DecodesWell(src)
    requires Holds(out, StartOf(i, len / 4 * 3), DecodedBytes(PartOf(src, len, i)))
    requires var front := DecodedBytes(src[..StartOf(i, len)]);
             |front| <= |out| && out[..|front|] == front
    ensures var front, part := DecodedBytes(src[..StartOf(i, len)]), DecodedBytes(PartOf(src, len, i));
            var all := DecodedBytes(src[..StartOf(i, len) + len]);
            && all == front + part && |all| <= |out| && out[..|all|] == all
            && (StartOf(i, len) + len < |src| ==> |all| == StartOf(i + 1, len / 4 * 3))
  {
    hide DecodedBytes, DecodesWell, Unpadded, StartOf;
    var at, q := StartOf(i, len), len / 4 * 3;
    var part := PartOf(src, len, i);
    PartOfWell(src, len, i);
    GroupStart(i, len);
    RegionsAreAdjacent(i, q);
    assert src[..at] + part == src[..at + len];
    if at < |src| {
      UnpaddedDecodes(src[..at], part);
      if at + len < |src| {
        UnpaddedDecodes(part, []);
      }
    } else {
      EmptyText(part);
      assert src[..at] == src[..at + len];
    }
  }

  /** The parts are whole groups, as long as they can be, all of one length. */
  lemma PartsAreLongest(src: text, n: nat, len: nat)
    requires n >= 1
    ensures len == PartLength(src, n) <==> len % 4 == 0 && n * len <= |src| < n * (len + 4)
  {
    hide StartOf;
    var size := n * 4;
    var m := Quotient(|src|, size);
    DivMod(|src|, size);
    GroupsOfParts(n, m);
    DivideStart(|src|, size);
    if len % 4 == 0 && n * len <= |src| < n * (len + 4) {
      var k := len / 4;
      GroupsOfParts(n, k);
      SameCount(k, |src| - n * len, m, |src| % size, size);
    }
  }

  lemma GroupsOfParts(n: nat, k: nat)
    ensures n * (4 * k) == StartOf(k, n * 4) && n * (4 * k + 4) == StartOf(k, n * 4) + n * 4
  {
    assert n * (4 * k) == k * (n * 4);
  }

  lemma DivideStart(a: nat, size: nat)
    requires size > 0
    ensures a == StartOf(Quotient(a, size), size) + a % size && a % size < size
  {
    DivMod(a, size);
  }

  lemma DecodePartsFit(src: text, n: nat)
    requires n >= 1
    ensures PartLength(src, n) % 4 == 0 && StartOf(n, PartLength(src, n)) <= |src|
  {
    var m := Quotient(|src|, n * 4);
    DivMod(|src|, n * 4);
    assert n * (m * 4) == m * (n * 4);
  }

  /** The offset i*len*3/4 is exact. */
  lemma DecodedStart(i: nat, len: nat)
    requires len % 4 == 0
    ensures i * len * 3 / 4 == StartOf(i, len / 4 * 3) && i * len == StartOf(i, len)
  {
    var m := len / 4;
    assert i * (4 * m) * 3 == 4 * (i * (m * 3));
  }

  /** Where part i starts in the text, and its region in the output. */
  method Offsets(i: nat, len: nat) returns (from: nat, to: nat)
    requires len % 4 == 0
    ensures from == StartOf(i, len) && to == StartOf(i, len / 4 * 3)
  {
    DecodedStart(i, len);
    from, to := i * len, i * len * 3 / 4;
  }

  /** One thread decodes its part into its region. */
  method DecodePart(src: text, ghost len: nat, ghost n: nat, ghost i: nat, ghost todo: set<nat>,
                    sizes: seq<nat>, rets: seq<bool>, part: text, out: array<byte>, at: nat)
    returns (s: nat, ret: bool)
    requires PartsDone(src, len, n, todo, sizes, rets, out[..]) && i < n && i in todo
    requires StartOf(i, len) + len <= |src| && StartOf(n, len / 4 * 3) <= out.Length
    requires part == PartOf(src, len, i) && at == StartOf(i, len / 4 * 3)
    modifies out
    ensures |sizes| == |rets| == n
    ensures PartsDone(src, len, n, todo - {i}, sizes[i := s], rets[i := ret], out[..])
  {
    hide Decode, DecodesWell, StartOf, PartDone, Holds, Overwrite;
    OneMoreDone(src, len, n, todo, sizes, rets, out[..], i);
    VerdictOfGroups(part);
    var state := new Base64State();
    s, ret := state.StreamDecode(part, out, at);
  }

  method Threads(n: nat) returns (all: set<nat>)
    ensures forall i: nat :: i in all <==> i < n
  {
    all := {};
    for i := 0 to n
      invariant forall k: nat :: k in all <==> k < i
    {
      all := all + {i};
    }
  }

  /** The parallel part, whatever the order in which the threads come to run. */
  method DecodeParts(src: text, out: array<byte>, n: nat, len: nat) returns (sizes: seq<nat>, rets: seq<bool>)
    requires len % 4 == 0 && StartOf(n, len) <= |src|
    requires StartOf(n, len / 4 * 3) <= out.Length
    modifies out
    ensures PartsDone(src, len, n, {}, sizes, rets, out[..])
  {
    hide Decode, DecodesWell, StartOf, PartDone, Holds, Overwrite;
    sizes, rets := seq(n, i => 0), seq(n, i => false);
    var todo: set<nat> := Threads(n);
    while todo != {}
      invariant forall i | i in todo :: i < n
      invariant PartsDone(src, len, n, todo, sizes, rets, out[..])
      decreases |todo|
    {
      var i: nat :| i in todo;
      PartInside(i, n, len);
      var from, to := Offsets(i, len);
      var s, ret := DecodePart(src, len, n, i, todo, sizes, rets, src[from..from + len], out, to);
      sizes, rets := sizes[i := s], rets[i := ret];
      todo := todo - {i};
    }
  }

  method Reduce(sizes: seq<nat>, rets: seq<bool>) returns (sum: nat, result: nat)
    requires |sizes| == |rets|
    ensures sum == Sum(sizes)
    ensures result <= |rets| && (result == |rets| <==> forall i | 0 <= i < |rets| :: rets[i])
  {
    sum, result := 0, 0;
    for i := 0 to |sizes|
      invariant sum == Sum(sizes[..i])
      invariant result <= i && (result == i <==> forall k | 0 <= k < i :: rets[k])
    {
      assert sizes[..i + 1][..i] == sizes[..i];
      sum := sum + sizes[i];
      result := result + if rets[i] then 1 else 0;
    }
    assert sizes[..|sizes|] == sizes;
  }

  /** The bytes of the rest fit behind the regions. */
  lemma RestFits(src: text, len: nat, n: nat)
    requires len % 4 == 0 && StartOf(n, len) <= |src|
    ensures StartOf(n, len / 4 * 3) + |DecodedBytes(src[StartOf(n, len)..])| <= |src| * 3 / 4
  {
    hide DecodeLoop, FirstForeign, StartOf;
    GroupStart(n, len);
    LoopWrites(DEC_START, src[StartOf(n, len)..]);
  }

  lemma AllRet(src: text, len: nat, n: nat, sizes: seq<nat>, rets: seq<bool>, out: seq<byte>)
    requires PartsDone(src, len, n, {}, sizes, rets, out)
    ensures |sizes| == |rets| == n
    ensures (forall i | 0 <= i < n :: rets[i]) <==> forall i | 0 <= i < n :: PartWell(src, len, i)
  {
    hide DecodesWell, StartOf, Holds;
    forall i | 0 <= i < n
      ensures rets[i] <==> PartWell(src, len, i)
    {
      assert PartDone(src, len, i, sizes[i], rets[i], out);
    }
  }

  /** Behind the regions the bytes of the rest complete those of the text. */
  lemma RestJoins(src: text, len: nat, n: nat, sizes: seq<nat>, rets: seq<bool>, out: seq<byte>)
    requires PartsDone(src, len, n, {}, sizes, rets, out) && DecodesWell(src)
    requires var rest := DecodedBytes(src[StartOf(n, len)..]);
             StartOf(n, len / 4 * 3) + |rest| <= |out|
    ensures var rest := DecodedBytes(src[StartOf(n, len)..]);
            var final := Overwrite(out, StartOf(n, len / 4 * 3), rest);
            && |DecodedBytes(src)| == Sum(sizes) + |rest| <= |out|
            && final[..|DecodedBytes(src)|] == DecodedBytes(src)
  {
    hide DecodedBytes, DecodesWell, Unpadded, StartOf;
    var at := StartOf(n, len);
    var front, rest := src[..at], src[at..];
    PartsJoin(src, len, n, sizes, rets, out, n);
    assert sizes[..n] == sizes;
    GroupStart(n, len);
    assert front + rest == src;
    BothDecodeWellIff(front, rest);
    if at < |src| {
      UnpaddedDecodes(front, rest);
    } else {
      EmptyText(rest);
      assert front == src;
      OverwriteNothing(out, StartOf(n, len / 4 * 3));
    }
  }

  /** The regions hold the bytes of the parts, and those of the rest stand behind them. */
  ghost predicate SegmentsIn(src: text, len: nat, n: nat, out: seq<byte>) {
    && StartOf(n, len) <= |src|
    && (forall i | 0 <= i < n :: PartIn(src, len, i, out))
    && Holds(out, StartOf(n, len / 4 * 3), DecodedBytes(src[StartOf(n, len)..]))
  }

  ghost predicate PartIn(src: text, len: nat, i: nat, out: seq<byte>) {
    StartOf(i, len) + len <= |src| && Holds(out, StartOf(i, len / 4 * 3), DecodedBytes(PartOf(src, len, i)))
  }

  /** How many bytes the first k parts yield together. */
  ghost function BytesOfParts(src: text, len: nat, k: nat): nat {
    if k == 0 || StartOf(k - 1, len) + len > |src| then 0
    else BytesOfParts(src, len, k - 1) + |DecodedBytes(PartOf(src, len, k - 1))|
  }

  lemma {:induction false} SizesAddUp(src: text, len: nat, n: nat, sizes: seq<nat>, rets: seq<bool>, out: seq<byte>, k: nat)
    requires PartsDone(src, len, n, {}, sizes, rets, out) && k <= n
    ensures Sum(sizes[..k]) == BytesOfParts(src, len, k)
  {
    hide DecodedBytes, DecodesWell, StartOf, Holds;
    if k > 0 {
      SizesAddUp(src, len, n, sizes, rets, out, k - 1);
      assert PartDone(src, len, k - 1, sizes[k - 1], rets[k - 1], out);
      assert sizes[..k][..k - 1] == sizes[..k - 1];
    }
  }

  /** Writing the rest behind the regions leaves them as they are. */
  lemma RestBehindParts(src: text, len: nat, n: nat, sizes: seq<nat>, rets: seq<bool>, out: seq<byte>)
    requires PartsDone(src, len, n, {}, sizes, rets, out)
    requires StartOf(n, len / 4 * 3) + |DecodedBytes(src[StartOf(n, len)..])| <= |out|
    ensures SegmentsIn(src, len, n, Overwrite(out, StartOf(n, len / 4 * 3), DecodedBytes(src[StartOf(n, len)..])))
  {
    hide DecodedBytes, DecodesWell, StartOf, Holds, Overwrite;
    var at, rest := StartOf(n, len / 4 * 3), DecodedBytes(src[StartOf(n, len)..]);
    WrittenIsHeld(out, at, rest);
    forall i | 0 <= i < n
      ensures PartIn(src, len, i, Overwrite(out, at, rest))
    {
      assert PartDone(src, len, i, sizes[i], rets[i], out);
      PartFits(PartOf(src, len, i));
      PartInside(i, n, len / 4 * 3);
      WriteElsewhere(out, at, rest, StartOf(i, len / 4 * 3), DecodedBytes(PartOf(src, len, i)));
    }
  }

  /** A padded part does not fill its region: there is a gap in front of the next one. */
  lemma PaddedPartLeavesGap(part: text)
    requires |part| % 4 == 0 && DecodesWell(part)
    ensures |DecodedBytes(part)| < |part| / 4 * 3 <==> !Unpadded(part)
  {
    hide DecodeLoop, FirstForeign, IsPad;
    DecodesWellIff(part);
    LoopWrites(DEC_START, part);
  }

  /**
   `base64_decode_openmp` for any number of threads in any order: it accepts the texts whose segments are all well
   formed, and gives the sequential result on all the texts the sequential decoder accepts.
   */
  method DecodeParallel(src: text, out: array<byte>, numThreads: nat) returns (outlen: nat, ret: bool)
    requires numThreads >= 1
    requires |src| * 3 / 4 <= out.Length
    modifies out
    ensures ret <==> SegmentsWell(src, PartLength(src, numThreads), numThreads)
    ensures ret ==>
              var len := PartLength(src, numThreads);
              && SegmentsIn(src, len, numThreads, out[..])
              && outlen == BytesOfParts(src, len, numThreads) + |DecodedBytes(src[StartOf(numThreads, len)..])|
    ensures DecodesWell(src) ==>
              ret && outlen == |DecodedBytes(src)| <= out.Length && out[..][..outlen] == DecodedBytes(src)
  {
    hide Decode, DecodesWell, StartOf, PartsDone, PartWell, PaddedInside, SegmentsIn, BytesOfParts, Overwrite, Sum,
      PartLength;
    DecodePartsFit(src, numThreads);
    var len := PartLength(src, numThreads);
    SequentialIff(src, len, numThreads);
    RestFits(src, len, numThreads);
    var sizes, rets := DecodeParts(src, out, numThreads, len);
    AllRet(src, len, numThreads, sizes, rets, out[..]);
    var sum, result := Reduce(sizes, rets);
    if result != numThreads {
      return 0, false;
    }
    ghost var parts := out[..];
    RestBehindParts(src, len, numThreads, sizes, rets, parts);
    SizesAddUp(src, len, numThreads, sizes, rets, parts, numThreads);
    assert sizes[..numThreads] == sizes;
    if DecodesWell(src) {
      RestJoins(src, len, numThreads, sizes, rets, parts);
    }
    var from, to := Offsets(numThreads, len);
    var s;
    s, ret := Base64Streams.DecodeRest(src[from..], out, to);
    outlen := sum + s;
  }
}
