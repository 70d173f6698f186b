/** The encoder that splits its source among threads, each writing its own region of the output. */
module Base64Parallel {
  import opened ByteNumbers
  import opened Memory
  import opened Blocks
  import opened Base64
  import opened Base64Codec
  import Base64Streams

  // ----- the standard's encoding of parts -----

  /** Whole groups encode on their own. */
  lemma {:induction false} RfcConcatenates(a: seq<byte>, b: seq<byte>)
    requires |a| % 3 == 0
    ensures Rfc(a + b) == Rfc(a) + Rfc(b)
    decreases |a|
  {
    hide Group;
    if |a| == 0 {
      assert a + b == b;
    } else {
      assert (a + b)[3..] == a[3..] + b;
      RfcConcatenates(a[3..], b);
    }
  }

  /** Feeding whole groups from a fresh state needs no trailer. */
  lemma FeedOfGroups(s: seq<byte>)
    requires |s| % 3 == 0
    ensures Feed(START, s).out == Rfc(s)
  {
    hide Feed, Rfc;
    FeedIsRfc(START, s);
    FeedLength(START, s);
  }

  // ----- the partition -----

  /** Characters written for `len` bytes, `len` a multiple of three. */
  function RegionSize(len: nat): nat {
    len / 3 * 4
  }

  /** The offset of region i as the code computes it. */
  lemma RegionStart(i: nat, len: nat)
    requires len % 3 == 0
    ensures i * len * 4 / 3 == StartOf(i, RegionSize(len))
  {
    var m := len / 3;
    assert len == 3 * m;
    assert i * len * 4 == 3 * (i * (m * 4)) by {
      ThreeTimes(i, m);
    }
  }

  lemma ThreeTimes(i: nat, m: nat)
    ensures i * (3 * m) * 4 == 3 * (i * (m * 4))
  {
  }

  /** Regions are adjacent: each ends where the next one starts. */
  lemma RegionsAreAdjacent(i: nat, size: nat)
    ensures StartOf(i + 1, size) == StartOf(i, size) + size
  {
  }

  /** No two regions overlap. */
  lemma RegionsAreDisjoint(i: nat, j: nat, size: nat)
    requires i != j
    ensures StartOf(i, size) + size <= StartOf(j, size) || StartOf(j, size) + size <= StartOf(i, size)
  {
    if i < j {
      StartsApart(i, j, size);
    } else {
      StartsApart(j, i, size);
    }
  }

  lemma PartInside(i: nat, n: nat, size: nat)
    requires i < n
    ensures StartOf(i, size) + size <= StartOf(n, size)
  {
    StartsApart(i, n, size);
  }

  /** The length of a part as the code computes it. */
  ghost predicate IsPartLen(src: seq<byte>, n: nat, len: nat) {
    n >= 1 && len == |src| / (n * 3) * 3
  }

  /** The parts together are no longer than the source, and the regions than the text. */
  lemma PartsFit(src: seq<byte>, n: nat, len: nat)
    requires IsPartLen(src, n, len)
    ensures len % 3 == 0 && StartOf(n, len) <= |src|
    ensures StartOf(n, len) % 3 == 0 && StartOf(n, RegionSize(len)) == RegionSize(StartOf(n, len))
  {
    var m := |src| / (n * 3);
    assert len == 3 * m;
    DivMod(|src|, n * 3);
    assert StartOf(n, len) == 3 * (n * m) by {
      assert n * (3 * m) == 3 * (n * m);
    }
    assert m * (n * 3) == 3 * (n * m);
    assert StartOf(n, RegionSize(len)) == n * (m * 4) == 4 * (n * m);
  }

  function PartOf(src: seq<byte>, len: nat, i: nat): (r: seq<byte>)
    requires StartOf(i, len) + len <= |src|
    ensures |r| == len
  {
    src[StartOf(i, len)..StartOf(i, len) + len]
  }

  // ----- one thread -----

  /** A thread that has encoded `pos` bytes of its part has `text` in its region and a state to go on from. */
  ghost predicate ThreadAt(part: seq<byte>, pos: nat, state: EncState, text: text) {
    && pos <= |part|
    && state.bytes <= 2
    && Same(state, Feed(START, part[..pos]).state)
    && text == Feed(START, part[..pos]).out
  }

  lemma ThreadStarts(part: seq<byte>)
    ensures ThreadAt(part, 0, START, [])
  {
  }

  lemma ThreadAdvances(part: seq<byte>, pos: nat, n: nat, state: EncState, text: text, after: EncState)
    requires ThreadAt(part, pos, state, text) && pos + n <= |part|
    requires after.bytes <= 2 && Same(after, Feed(state, part[pos..pos + n]).state)
    ensures ThreadAt(part, pos + n, after, text + Feed(state, part[pos..pos + n]).out)
  {
    hide Feed;
    FeedConcatenates(START, part[..pos], part[pos..pos + n]);
    assert part[..pos] + part[pos..pos + n] == part[..pos + n];
    FeedIgnoresStaleCarry(state, Feed(START, part[..pos]).state, part[pos..pos + n]);
  }

  /** It never writes outside its region. */
  lemma ThreadFits(part: seq<byte>, pos: nat, state: EncState, text: text)
    requires |part| % 3 == 0 && ThreadAt(part, pos, state, text)
    ensures |text| <= RegionSize(|part|)
  {
    FeedLength(START, part[..pos]);
    CharsForGrows(pos, |part|);
  }

  lemma CharsForGrows(k: nat, n: nat)
    requires k <= n && n % 3 == 0
    ensures CharsFor(k) <= n / 3 * 4
  {
  }

  lemma ThreadEnds(part: seq<byte>, state: EncState, text: text)
    requires |part| % 3 == 0 && ThreadAt(part, |part|, state, text)
    ensures text == Rfc(part) && |text| == RegionSize(|part|)
  {
    hide Feed, Rfc;
    assert part[..|part|] == part;
    FeedOfGroups(part);
    RfcLength(part);
  }

  // ----- memory shared by the threads -----

  /** The region that starts at `start` holds `text` so far. */
  ghost predicate Holds(out: seq<byte>, start: nat, text: text) {
    start + |text| <= |out| && out[start..start + |text|] == text
  }

  lemma WriteInRegion(out: seq<byte>, start: nat, text: text, more: text)
    requires Holds(out, start, text) && start + |text| + |more| <= |out|
    ensures Holds(Overwrite(out, start + |text|, more), start, text + more)
  {
  }

  lemma WriteElsewhere(out: seq<byte>, at: nat, more: text, start: nat, text: text)
    requires Holds(out, start, text) && at + |more| <= |out|
    requires at + |more| <= start || start + |text| <= at
    ensures Holds(Overwrite(out, at, more), start, text)
  {
  }

  lemma WriteBefore(out: seq<byte>, at: nat, more: text, from: nat)
    requires at + |more| <= from <= |out|
    ensures Overwrite(out, at, more)[from..] == out[from..]
  {
  }

  /** The threads with their states, positions and texts, and the memory they share. */
  ghost predicate Running(src: seq<byte>, len: nat, n: nat,
                          pos: seq<nat>, states: seq<EncState>, texts: seq<text>, out: seq<byte>) {
    && len % 3 == 0
    && StartOf(n, len) <= |src|
    && StartOf(n, RegionSize(len)) <= |out|
    && |pos| == |states| == |texts| == n
    && forall i | 0 <= i < n :: ThreadOk(src, len, i, pos[i], states[i], texts[i], out)
  }

  ghost predicate ThreadOk(src: seq<byte>, len: nat, i: nat, pos: nat, state: EncState, text: text, out: seq<byte>) {
    && StartOf(i, len) + len <= |src|
    && ThreadAt(PartOf(src, len, i), pos, state, text)
    && Holds(out, StartOf(i, RegionSize(len)), text)
  }

  lemma Launch(src: seq<byte>, len: nat, n: nat, out: seq<byte>)
    requires len % 3 == 0 && StartOf(n, len) <= |src| && StartOf(n, RegionSize(len)) <= |out|
    ensures Running(src, len, n, seq(n, i => 0), seq(n, i => START), seq(n, i => []), out)
  {
    hide ThreadAt;
    forall i | 0 <= i < n
      ensures ThreadOk(src, len, i, 0, START, [], out)
    {
      PartInside(i, n, len);
      PartInside(i, n, RegionSize(len));
      ThreadStarts(PartOf(src, len, i));
    }
  }

  lemma ThreadIs(src: seq<byte>, len: nat, n: nat, pos: seq<nat>, states: seq<EncState>, texts: seq<text>, out: seq<byte>, i: nat)
    requires Running(src, len, n, pos, states, texts, out) && i < n
    ensures |pos| == |states| == |texts| == n
    ensures StartOf(i, len) + len <= |src|
    ensures ThreadOk(src, len, i, pos[i], states[i], texts[i], out)
    ensures ThreadAt(PartOf(src, len, i), pos[i], states[i], texts[i]) && states[i].bytes <= 2
    ensures pos[i] <= len
  {
    hide StartOf, RegionSize, Feed, Same;
    assert ThreadOk(src, len, i, pos[i], states[i], texts[i], out);
  }

  /** A turn of one thread is a turn of them all: the others' regions and states stay as they are. */
  lemma TurnKeepsRunning(src: seq<byte>, len: nat, n: nat, pos: seq<nat>, states: seq<EncState>, texts: seq<text>,
                         out: seq<byte>, i: nat, newPos: nat, newState: EncState, more: text)
    requires Running(src, len, n, pos, states, texts, out) && i < n && StartOf(i, len) + len <= |src|
    requires ThreadAt(PartOf(src, len, i), newPos, newState, texts[i] + more)
    ensures var at := StartOf(i, RegionSize(len)) + |texts[i]|;
            && at + |more| <= |out|
            && Running(src, len, n, pos[i := newPos], states[i := newState], texts[i := texts[i] + more],
                       Overwrite(out, at, more))
  {
    hide ThreadAt, Holds, StartOf, RegionSize, Overwrite;
    var start := StartOf(i, RegionSize(len));
    ThreadFits(PartOf(src, len, i), newPos, newState, texts[i] + more);
    PartInside(i, n, RegionSize(len));
    WriteInRegion(out, start, texts[i], more);
    forall j | 0 <= j < n && j != i
      ensures ThreadOk(src, len, j, pos[j], states[j], texts[j], Overwrite(out, start + |texts[i]|, more))
    {
      ThreadIs(src, len, n, pos, states, texts, out, j);
      RegionsAreDisjoint(i, j, RegionSize(len));
      ThreadFits(PartOf(src, len, j), pos[j], states[j], texts[j]);
      WriteElsewhere(out, start + |texts[i]|, more, StartOf(j, RegionSize(len)), texts[j]);
    }
  }

  /** When all are done, their regions side by side are the encoding of the parts side by side. */
  lemma {:induction false} RegionsJoin(src: seq<byte>, len: nat, n: nat, pos: seq<nat>, states: seq<EncState>,
                                       texts: seq<text>, out: seq<byte>, k: nat)
    requires Running(src, len, n, pos, states, texts, out) && k <= n
    requires forall i | 0 <= i < n :: pos[i] == len
    ensures StartOf(k, len) <= |src| && StartOf(k, RegionSize(len)) <= |out|
    ensures out[..StartOf(k, RegionSize(len))] == Rfc(src[..StartOf(k, len)])
  {
    hide Rfc, ThreadAt, RegionSize;
    if k > 0 {
      var a, b := StartOf(k - 1, len), StartOf(k - 1, RegionSize(len));
      RegionsJoin(src, len, n, pos, states, texts, out, k - 1);
      RegionsAreAdjacent(k - 1, len);
      RegionsAreAdjacent(k - 1, RegionSize(len));
      assert ThreadOk(src, len, k - 1, pos[k - 1], states[k - 1], texts[k - 1], out);
      var part := PartOf(src, len, k - 1);
      ThreadEnds(part, states[k - 1], texts[k - 1]);
      StartIsGroup(k - 1, len);
      RfcConcatenates(src[..a], part);
      assert src[..a] + part == src[..a + len];
      assert out[..b] + out[b..b + RegionSize(len)] == out[..b + RegionSize(len)];
    } else {
      RfcOfNothing(src, out, len);
    }
  }

  lemma StartIsGroup(i: nat, len: nat)
    requires len % 3 == 0
    ensures StartOf(i, len) % 3 == 0
  {
    var m := len / 3;
    assert i * (3 * m) == 3 * (i * m);
  }

  lemma RfcOfNothing(src: seq<byte>, out: seq<byte>, len: nat)
    ensures StartOf(0, len) == 0 && StartOf(0, RegionSize(len)) == 0
    ensures out[..0] == Rfc(src[..0])
  {
  }

  // ----- the schedule -----

  /** Bytes the threads have still to encode. */
  ghost function Left(pos: seq<nat>, len: nat): nat {
    if |pos| == 0 then 0
    else (if pos[0] <= len then len - pos[0] else 0) + Left(pos[1..], len)
  }

  lemma {:induction false} TurnLeavesLess(pos: seq<nat>, len: nat, i: nat, newPos: nat)
    requires i < |pos| && pos[i] < newPos <= len
    ensures Left(pos[i := newPos], len) < Left(pos, len)
  {
    if i > 0 {
      TurnLeavesLess(pos[1..], len, i - 1, newPos);
      assert pos[i := newPos][1..] == pos[1..][i - 1 := newPos];
    } else {
      assert pos[i := newPos][1..] == pos[1..];
    }
  }

  /** One thread encodes the next `amount` bytes of its part. */
  method Turn(ghost src: seq<byte>, ghost len: nat, ghost n: nat, ghost i: nat, ghost pos: seq<nat>, ghost states: seq<EncState>,
              ghost texts: seq<text>, state: Base64State, piece: seq<byte>, out: array<byte>, at: nat)
    returns (s: nat, ghost more: text)
    requires Running(src, len, n, pos, states, texts, out[..]) && i < n
    requires state.Encoder() == states[i] && pos[i] + |piece| <= len
    requires StartOf(i, len) + len <= |src| && piece == PartOf(src, len, i)[pos[i]..pos[i] + |piece|]
    requires at == StartOf(i, RegionSize(len)) + |texts[i]|
    modifies state, out
    ensures s == |more|
    ensures Running(src, len, n, pos[i := pos[i] + |piece|], states[i := state.Encoder()], texts[i := texts[i] + more], out[..])
    ensures at + |more| <= out.Length && out[..] == Overwrite(old(out[..]), at, more)
  {
    hide Feed, Same, Running, ThreadAt, Holds, StartOf, RegionSize, Overwrite;
    ghost var part := PartOf(src, len, i);
    ThreadIs(src, len, n, pos, states, texts, out[..], i);
    more := Feed(states[i], piece).out;
    assert at + |more| <= out.Length by {
      var after := Feed(states[i], piece).state;
      SameAsItself(states[i], piece);
      ThreadAdvances(part, pos[i], |piece|, states[i], texts[i], after);
      TurnKeepsRunning(src, len, n, pos, states, texts, out[..], i, pos[i] + |piece|, after, more);
    }
    s := state.StreamEncode(piece, out, at);
    ThreadAdvances(part, pos[i], |piece|, states[i], texts[i], state.Encoder());
    TurnKeepsRunning(src, len, n, pos, states, texts, old(out[..]), i, pos[i] + |piece|, state.Encoder(), more);
  }

  lemma SameAsItself(st: EncState, src: seq<byte>)
    requires st.bytes <= 2
    ensures Feed(st, src).state.bytes <= 2 && Same(Feed(st, src).state, Feed(st, src).state)
  {
    FeedIgnoresStaleCarry(st, st, src);
  }

  /** Every thread gets its own copy of the initial state. */
  method Copies(n: nat) returns (codecs: seq<Base64State>)
    ensures |codecs| == n && (forall i | 0 <= i < n :: fresh(codecs[i]) && codecs[i].Encoder() == START)
    ensures forall i, j | 0 <= i < j < n :: codecs[i] != codecs[j]
  {
    codecs := [];
    for k := 0 to n
      invariant |codecs| == k && (forall i | 0 <= i < k :: fresh(codecs[i]) && codecs[i].Encoder() == START)
      invariant forall i, j | 0 <= i < j < k :: codecs[i] != codecs[j]
    {
      var state := new Base64State();
      codecs := codecs + [state];
    }
  }

  lemma AllDone(src: seq<byte>, len: nat, n: nat, pos: seq<nat>, states: seq<EncState>, texts: seq<text>, out: seq<byte>)
    requires Running(src, len, n, pos, states, texts, out)
    requires forall i | 0 <= i < |pos| :: pos[i] >= len
    ensures |texts| == n && forall i | 0 <= i < n :: |texts[i]| == RegionSize(len)
    ensures StartOf(n, len) <= |src| && StartOf(n, RegionSize(len)) <= |out|
    ensures out[..StartOf(n, RegionSize(len))] == Rfc(src[..StartOf(n, len)])
  {
    hide Rfc, ThreadAt, StartOf, RegionSize;
    forall i | 0 <= i < n
      ensures pos[i] == len && |texts[i]| == RegionSize(len)
    {
      ThreadIs(src, len, n, pos, states, texts, out, i);
      ThreadEnds(PartOf(src, len, i), states[i], texts[i]);
    }
    RegionsJoin(src, len, n, pos, states, texts, out, n);
  }

  /** The parts' text with the rest's behind it is the text of the whole. */
  lemma RestCompletes(src: seq<byte>, cut: nat, was: seq<byte>, parts: seq<byte>, at: nat)
    requires cut <= |src| && cut % 3 == 0 && at == RegionSize(cut)
    requires at <= |parts| == |was| && at + |Rfc(src[cut..])| <= |was|
    requires parts[..at] == Rfc(src[..cut]) && parts[at..] == was[at..]
    ensures |Rfc(src)| == at + |Rfc(src[cut..])|
    ensures Overwrite(parts, at, Rfc(src[cut..])) == Overwrite(was, 0, Rfc(src))
  {
    hide Rfc;
    RfcConcatenates(src[..cut], src[cut..]);
    assert src[..cut] + src[cut..] == src;
    RfcLength(src[..cut]);
  }

  lemma RoomBehind(src: seq<byte>, cut: nat)
    requires cut <= |src| && cut % 3 == 0
    ensures RegionSize(cut) + |Rfc(src[cut..])| == |Rfc(src)|
  {
    hide Rfc;
    RfcConcatenates(src[..cut], src[cut..]);
    assert src[..cut] + src[cut..] == src;
    RfcLength(src[..cut]);
  }

  lemma RoomForParts(src: seq<byte>, n: nat, len: nat)
    requires IsPartLen(src, n, len)
    ensures StartOf(n, len) <= |src|
    ensures StartOf(n, RegionSize(len)) + |Rfc(src[StartOf(n, len)..])| == |Rfc(src)|
  {
    hide Rfc, StartOf, RegionSize, IsPartLen;
    PartsFit(src, n, len);
    RoomBehind(src, StartOf(n, len));
  }

  /** The sum reduction over the threads' lengths. */
  method Reduce(written: seq<nat>, ghost size: nat) returns (sum: nat)
    requires forall i | 0 <= i < |written| :: written[i] == size
    ensures sum == StartOf(|written|, size)
  {
    sum := 0;
    for i := 0 to |written|
      invariant sum == StartOf(i, size)
    {
      RegionsAreAdjacent(i, size);
      sum := sum + written[i];
    }
  }

  lemma PieceOfPart(src: seq<byte>, len: nat, i: nat, pos: nat, amount: nat)
    requires StartOf(i, len) + len <= |src| && pos + amount <= len
    ensures src[StartOf(i, len) + pos..StartOf(i, len) + pos + amount] == PartOf(src, len, i)[pos..pos + amount]
  {
    SliceOfSlice(src, StartOf(i, len), StartOf(i, len) + len, pos, pos + amount);
  }

  /** What lies behind the last region is not written by any thread. */
  lemma TurnStaysBelow(src: seq<byte>, len: nat, n: nat, pos: seq<nat>, states: seq<EncState>, texts: seq<text>,
                       before: seq<byte>, i: nat, newPos: nat, newState: EncState, more: text, after: seq<byte>)
    requires i < n && |texts| == |pos| == |states| == n
    requires Running(src, len, n, pos[i := newPos], states[i := newState], texts[i := texts[i] + more], after)
    requires StartOf(i, RegionSize(len)) + |texts[i]| + |more| <= |before|
    requires after == Overwrite(before, StartOf(i, RegionSize(len)) + |texts[i]|, more)
    ensures StartOf(n, RegionSize(len)) <= |before|
    ensures after[StartOf(n, RegionSize(len))..] == before[StartOf(n, RegionSize(len))..]
  {
    hide ThreadAt, Holds, StartOf, RegionSize, Overwrite;
    ThreadIs(src, len, n, pos[i := newPos], states[i := newState], texts[i := texts[i] + more], after, i);
    ThreadFits(PartOf(src, len, i), newPos, newState, texts[i] + more);
    PartInside(i, n, RegionSize(len));
    WriteBefore(before, StartOf(i, RegionSize(len)) + |texts[i]|, more, StartOf(n, RegionSize(len)));
  }

  lemma PartLenFits(src: seq<byte>, n: nat, len: nat)
    requires IsPartLen(src, n, len)
    ensures len % 3 == 0 && StartOf(n, len) <= |src|
    ensures StartOf(n, len) % 3 == 0 && StartOf(n, RegionSize(len)) == RegionSize(StartOf(n, len))
    ensures StartOf(n, RegionSize(len)) + |Rfc(src[StartOf(n, len)..])| == |Rfc(src)|
  {
    hide Rfc, StartOf, RegionSize, IsPartLen;
    PartsFit(src, n, len);
    RoomForParts(src, n, len);
  }

  /** Where part i starts in the source, and its region in the output. */
  method Offsets(i: nat, len: nat) returns (from: nat, to: nat)
    requires len % 3 == 0
    ensures from == StartOf(i, len) && to == StartOf(i, RegionSize(len))
  {
    RegionStart(i, len);
    from, to := i * len, i * len * 4 / 3;
  }

  /** The parts' length, the end of the last part, and the end of its region. */
  method Partition(src: seq<byte>, n: nat) returns (len: nat, cut: nat, at: nat)
    requires n >= 1
    ensures IsPartLen(src, n, len) && cut == StartOf(n, len) && at == StartOf(n, RegionSize(len))
  {
    hide StartOf, RegionSize;
    len := |src| / (n * 3);
    len := len * 3;
    PartLenFits(src, n, len);
    cut, at := Offsets(n, len);
  }

  /** The parallel part: whichever thread runs next, and however far it gets before another one runs. */
  method EncodeParts(src: seq<byte>, out: array<byte>, n: nat, len: nat) returns (sum: nat)
    requires IsPartLen(src, n, len)
    requires StartOf(n, RegionSize(len)) <= out.Length
    modifies out
    ensures StartOf(n, len) <= |src| && sum == StartOf(n, RegionSize(len))
    ensures out[..][..sum] == Rfc(src[..StartOf(n, len)])
    ensures out[..][sum..] == old(out[..])[sum..]
  {
    hide Rfc, Feed, Same, Running, ThreadOk, ThreadAt, Holds, StartOf, RegionSize, Overwrite, Left, IsPartLen;
    PartLenFits(src, n, len);
    var codecs := Copies(n);
    var pos: seq<nat>, written: seq<nat> := seq(n, i => 0), seq(n, i => 0);
    ghost var states, texts := seq(n, i => START), seq(n, i => []);
    ghost var was, limit := out[..], StartOf(n, RegionSize(len));
    Launch(src, len, n, out[..]);
    while exists i :: 0 <= i < n && pos[i] < len
      invariant |pos| == |written| == |codecs| == |states| == |texts| == n
      invariant forall i | 0 <= i < n :: fresh(codecs[i]) && codecs[i].Encoder() == states[i] && written[i] == |texts[i]|
      invariant forall i, j | 0 <= i < j < n :: codecs[i] != codecs[j]
      invariant Running(src, len, n, pos, states, texts, out[..])
      invariant out[..][limit..] == was[limit..]
      decreases Left(pos, len)
    {
      var i: nat :| i < n && pos[i] < len;
      var amount: nat :| 0 < amount <= len - pos[i];
      ThreadIs(src, len, n, pos, states, texts, out[..], i);
      PieceOfPart(src, len, i, pos[i], amount);
      var from, to := Offsets(i, len);
      var piece := src[from + pos[i]..from + pos[i] + amount];
      ghost var before := out[..];
      ghost var more: text;
      var s: nat;
      s, more := Turn(src, len, n, i, pos, states, texts, codecs[i], piece, out, to + written[i]);
      TurnLeavesLess(pos, len, i, pos[i] + amount);
      TurnStaysBelow(src, len, n, pos, states, texts, before, i, pos[i] + amount, codecs[i].Encoder(), more, out[..]);
      states := states[i := codecs[i].Encoder()];
      texts := texts[i := texts[i] + more];
      written := written[i := written[i] + s];
      pos := pos[i := pos[i] + amount];
    }
    AllDone(src, len, n, pos, states, texts, out[..]);
    sum := Reduce(written, RegionSize(len));
  }

  /** The sequential end: what is left of the source is encoded behind the regions. */
  method EncodeBehindParts(src: seq<byte>, out: array<byte>, cut: nat, at: nat, ghost was: seq<byte>) returns (rest: nat)
    requires cut <= |src| && cut % 3 == 0 && at == RegionSize(cut)
    requires out.Length == |was| && at + |Rfc(src[cut..])| == |Rfc(src)| <= |was|
    requires out[..][..at] == Rfc(src[..cut]) && out[..][at..] == was[at..]
    modifies out
    ensures at + rest == |Rfc(src)| && out[..] == Overwrite(was, 0, Rfc(src))
  {
    hide Rfc, RegionSize, Overwrite;
    RestCompletes(src, cut, was, out[..], at);
    var state := new Base64State();
    rest := Base64Streams.EncodeRest(state, src[cut..], out, at);
  }

  /** For every number of threads and every schedule, the result is the standard's encoding of the whole source. */
  method EncodeParallel(src: seq<byte>, out: array<byte>, numThreads: nat) returns (outlen: nat)
    requires numThreads >= 1
    requires |Rfc(src)| <= out.Length
    modifies out
    ensures outlen == |Rfc(src)|
    ensures out[..] == Overwrite(old(out[..]), 0, Rfc(src))
  {
    hide Rfc, StartOf, RegionSize, Overwrite, IsPartLen;
    var len, cut, at := Partition(src, numThreads);
    PartLenFits(src, numThreads, len);
    var sum := EncodeParts(src, out, numThreads, len);
    var rest := EncodeBehindParts(src, out, cut, at, old(out[..]));
    outlen := sum + rest;
  }
}
