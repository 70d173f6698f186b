/**
 What the receiver makes of a byte stream. `Greedy` is the scan it is meant to perform:
 at each position a frame is emitted and jumped over, a refuted candidate costs one byte,
 an undecided one ends the scan. `ChunkScan` is the scan the receiver does perform when the
 stream reaches it in chunks of N bytes: the start of a candidate is remembered as an index
 into the chunk it began in, but it is used in the chunk that refuted it.
 */
module Scan {
  import opened ByteNumbers
  import opened Bytes
  import opened Frames

  datatype Event = Delivered(frame: seq<byte>) | ParseError | CrcRejected

  datatype Verdict = Valid(used: nat) | Refuted(used: nat, event: Event) | Undecided

  /** How many bytes of `t` from k on agree with the magic, up to the first that does not. */
  function Match(t: seq<byte>, k: nat): (m: nat)
    requires k <= LEN_MID && k <= |t|
    ensures k <= m <= LEN_MID && m <= |t|
    decreases LEN_MID - k
  {
    if k < LEN_MID && k < |t| && t[k] == MAGIC[k] then Match(t, k + 1) else k
  }

  /** The verdict on a candidate that starts with the bytes `t`, and how many of them it took. */
  ghost function Judge(t: seq<byte>): Verdict {
    var m := Match(t, 0);
    if m < LEN_MID then
      if m == |t| then Undecided else Refuted(m + 1, ParseError)
    else if |t| < POS_PAYLOAD then
      Undecided
    else if LengthField(t) > LEN_MAX_BUFFER then
      Refuted(POS_PAYLOAD, ParseError)
    else if |t| < LEN_OVERHEAD + LengthField(t) then
      Undecided
    else if StartsWithFrame(t) then
      Valid(LEN_OVERHEAD + LengthField(t))
    else
      Refuted(LEN_OVERHEAD + LengthField(t), CrcRejected)
  }

  datatype Scanned = Scanned(events: seq<Event>, tail: nat) {
    function After(event: Event): Scanned {
      Scanned([event] + events, tail)
    }
  }

  ghost function Greedy(s: seq<byte>, i: nat): Scanned
    requires i <= |s|
    decreases |s| - i
  {
    match Judge(s[i..])
    case Undecided => Scanned([], |s| - i)
    case Valid(used) =>
      JudgeUses(s[i..]);
      Greedy(s, i + used).After(Delivered(s[i..i + used]))
    case Refuted(used, event) =>
      JudgeUses(s[i..]);
      Greedy(s, i + 1).After(event)
  }

  /** How a run ends: waiting for more of a candidate, in an endless loop, or with a packet overrun. */
  datatype Outcome = Idle(tail: nat) | Stuck | Overrun

  datatype Run = Run(events: seq<Event>, outcome: Outcome) {
    function After(event: Event): Run {
      Run([event] + events, outcome)
    }
  }

  /** Where the chunk that holds position j begins. */
  function ChunkStart(j: nat, n: nat): (b: nat)
    requires n > 0
    ensures b <= j
  {
    j - j % n
  }

  function ChunkEnd(s: seq<byte>, j: nat, n: nat): nat
    requires n > 0
  {
    if ChunkStart(j, n) + n <= |s| then ChunkStart(j, n) + n else |s|
  }

  /** Where the scan goes on after the candidate at i is refuted by the byte at j. */
  function Resume(i: nat, j: nat, n: nat): nat
    requires n > 0
  {
    ChunkStart(j, n) + i % n + 1
  }

  ghost function ChunkScan(s: seq<byte>, n: nat, i: nat): Run
    requires i <= |s| && n > 0
    decreases |s| - i
  {
    match Judge(s[i..])
    case Undecided => Run([], if |s| - i > LEN_MAX_BUFFER then Overrun else Idle(|s| - i))
    case Valid(used) =>
      JudgeUses(s[i..]);
      ChunkScan(s, n, i + used).After(Delivered(s[i..i + used]))
    case Refuted(used, event) =>
      JudgeUses(s[i..]);
      var j := i + used - 1;
      ResumeIsAhead(i, j, n);
      if used > LEN_MAX_BUFFER then
        Run([], Overrun)
      else if Resume(i, j, n) > ChunkEnd(s, j, n) then
        Run([event], Stuck)
      else
        ChunkScan(s, n, Resume(i, j, n)).After(event)
  }

  lemma JudgeUses(t: seq<byte>)
    ensures Judge(t).Valid? ==> LEN_OVERHEAD <= Judge(t).used <= |t|
    ensures Judge(t).Refuted? ==> 1 <= Judge(t).used <= |t|
  {
  }

  /** A verdict is "valid" exactly on the frames of payloads, and it takes the frame and no more. */
  lemma ValidIffFrame(t: seq<byte>)
    ensures Judge(t).Valid? <==> StartsWithFrame(t)
    ensures Judge(t).Valid? ==> t[..Judge(t).used] == Frame(PayloadOf(t))
  {
    hide StartsWithFrame, LoadLength, Frame;
    if StartsWithFrame(t) {
      var p := PayloadOf(t);
      FrameFields(p, t);
      MatchIff(t, 0);
      assert t[..LEN_MID] == MAGIC;
    }
  }

  /**
   A candidate whose announced length is above the largest payload but not above the size of the packet
   array: the parser lets it pass, and there are bytes enough to outgrow the array.
   */
  predicate Oversized(t: seq<byte>) {
    && |t| > LEN_MAX_BUFFER
    && t[..LEN_MID] == MAGIC
    && LEN_MAX_PAYLOAD < LengthField(t) <= LEN_MAX_BUFFER
  }

  /** Just these candidates take more bytes than the packet array holds, or wait for more. */
  lemma OversizedIff(t: seq<byte>)
    ensures Oversized(t) <==>
              || (Judge(t).Undecided? && |t| > LEN_MAX_BUFFER)
              || (Judge(t).Refuted? && Judge(t).used > LEN_MAX_BUFFER)
  {
    hide StartsWithFrame, LoadLength;
    MatchIff(t, 0);
    ValidIffFrame(t);
    if StartsWithFrame(t) {
      FrameFields(PayloadOf(t), t);
    }
    if |t| >= LEN_MID {
      assert MAGIC <= t <==> t[..LEN_MID] == MAGIC;
    }
  }

  lemma MatchIff(t: seq<byte>, k: nat)
    requires k <= LEN_MID && k <= |t| && t[..k] == MAGIC[..k]
    ensures Match(t, k) == LEN_MID <==> MAGIC <= t
    ensures t[..Match(t, k)] == MAGIC[..Match(t, k)]
    ensures Match(t, k) < LEN_MID && Match(t, k) < |t| ==> t[Match(t, k)] != MAGIC[Match(t, k)]
    decreases LEN_MID - k
  {
    if k < LEN_MID && k < |t| && t[k] == MAGIC[k] {
      assert t[..k + 1] == t[..k] + [t[k]];
      assert MAGIC[..k + 1] == MAGIC[..k] + [MAGIC[k]];
      MatchIff(t, k + 1);
    } else if k == LEN_MID {
      assert MAGIC[..k] == MAGIC;
    }
  }

  lemma ResumeIsAhead(i: nat, j: nat, n: nat)
    requires i <= j && n > 0
    ensures ChunkStart(i, n) == ChunkStart(j, n) ==> Resume(i, j, n) == i + 1
    ensures ChunkStart(i, n) != ChunkStart(j, n) ==> Resume(i, j, n) > i + 1
  {
    hide ChunkStart;
    ChunkStartsAscend(i, j, n);
    StartPlusIndex(i, n);
  }

  lemma StartPlusIndex(i: nat, n: nat)
    requires n > 0
    ensures ChunkStart(i, n) + i % n == i && i % n < n
  {
  }

  lemma ChunkStartIsMultiple(i: nat, n: nat)
    requires n > 0
    ensures ChunkStart(i, n) == n * (i / n)
  {
  }

  lemma ChunkStartsAscend(i: nat, j: nat, n: nat)
    requires i <= j && n > 0
    ensures ChunkStart(i, n) <= ChunkStart(j, n)
  {
    hide ChunkStart;
    ChunkStartIsMultiple(i, n);
    ChunkStartIsMultiple(j, n);
    StartPlusIndex(i, n);
    StartPlusIndex(j, n);
    var p, q := i / n, j / n;
    if q < p {
      MultiplesApart(n, q, p);
      assert false;
    }
    MultiplesAscend(n, p, q);
  }

  lemma MultiplesApart(n: nat, q: nat, p: nat)
    requires q < p
    ensures n * p >= n * q + n
  {
    assert n * p == n * q + n * (p - q);
    assert n * (p - q) == n + n * (p - q - 1);
  }

  lemma MultiplesAscend(n: nat, p: nat, q: nat)
    requires p <= q
    ensures n * p <= n * q
  {
    assert n * q == n * p + n * (q - p);
  }

  // ----- conservation -----

  /** The stream bytes an event accounts for: a frame's own, or the one that is given up. */
  function Cost(event: Event): nat {
    match event
    case Delivered(frame) => |frame|
    case ParseError => 1
    case CrcRejected => 1
  }

  function TotalCost(events: seq<Event>): nat {
    if |events| == 0 then 0 else Cost(events[0]) + TotalCost(events[1..])
  }

  lemma CostAfter(event: Event, events: seq<Event>)
    ensures TotalCost([event] + events) == Cost(event) + TotalCost(events)
  {
  }

  lemma RefutedCostsOne(t: seq<byte>)
    requires Judge(t).Refuted?
    ensures Cost(Judge(t).event) == 1
  {
  }

  /** No byte is lost or counted twice by the greedy scan. */
  lemma {:induction false} GreedyConserves(s: seq<byte>, i: nat)
    requires i <= |s|
    ensures TotalCost(Greedy(s, i).events) + Greedy(s, i).tail == |s| - i
    decreases |s| - i
  {
    hide Judge, TotalCost;
    JudgeUses(s[i..]);
    match Judge(s[i..])
    case Undecided =>
      NothingCostsNothing();
    case Valid(used) =>
      GreedyConserves(s, i + used);
      CostAfter(Delivered(s[i..i + used]), Greedy(s, i + used).events);
    case Refuted(used, event) =>
      RefutedCostsOne(s[i..]);
      GreedyConserves(s, i + 1);
      CostAfter(event, Greedy(s, i + 1).events);
  }

  lemma NothingCostsNothing()
    ensures TotalCost([]) == 0
  {
  }

  /** The bytes the chunked scan jumps over: the distance between the chunks a refuted candidate starts and ends in. */
  ghost function Skipped(s: seq<byte>, n: nat, i: nat): nat
    requires i <= |s| && n > 0
    decreases |s| - i
  {
    match Judge(s[i..])
    case Undecided => 0
    case Valid(used) =>
      JudgeUses(s[i..]);
      Skipped(s, n, i + used)
    case Refuted(used, event) =>
      JudgeUses(s[i..]);
      var j := i + used - 1;
      ResumeIsAhead(i, j, n);
      ResumeFits(s, i, j, n);
      ChunkStartsAscend(i, j, n);
      if used > LEN_MAX_BUFFER then 0
      else if Resume(i, j, n) > ChunkEnd(s, j, n) then 0
      else ChunkStart(j, n) - ChunkStart(i, n) + Skipped(s, n, Resume(i, j, n))
  }

  lemma ResumeSkips(i: nat, j: nat, n: nat)
    requires i <= j && n > 0
    ensures Resume(i, j, n) - (i + 1) == ChunkStart(j, n) - ChunkStart(i, n)
  {
    hide ChunkStart;
    StartPlusIndex(i, n);
  }

  /** Every run that ends accounts for each byte it does not skip. */
  lemma {:induction false} SkippedAccounts(s: seq<byte>, n: nat, i: nat)
    requires i <= |s| && n > 0
    requires ChunkScan(s, n, i).outcome.Idle?
    ensures TotalCost(ChunkScan(s, n, i).events) + ChunkScan(s, n, i).outcome.tail + Skipped(s, n, i) == |s| - i
    decreases |s| - i
  {
    hide Judge, TotalCost, Resume, ChunkEnd, ChunkStart;
    JudgeUses(s[i..]);
    match Judge(s[i..])
    case Undecided =>
      NothingCostsNothing();
    case Valid(used) =>
      SkippedAccounts(s, n, i + used);
      CostAfter(Delivered(s[i..i + used]), ChunkScan(s, n, i + used).events);
    case Refuted(used, event) =>
      var j := i + used - 1;
      ResumeIsAhead(i, j, n);
      ResumeFits(s, i, j, n);
      ResumeSkips(i, j, n);
      RefutedCostsOne(s[i..]);
      SkippedAccounts(s, n, Resume(i, j, n));
      CostAfter(event, ChunkScan(s, n, Resume(i, j, n)).events);
  }

  /** The chunked scan never accounts for more bytes than there are. */
  lemma ChunkScanNeverGains(s: seq<byte>, n: nat, i: nat)
    requires i <= |s| && n > 0
    requires ChunkScan(s, n, i).outcome.Idle?
    ensures TotalCost(ChunkScan(s, n, i).events) + ChunkScan(s, n, i).outcome.tail <= |s| - i
  {
    hide Judge, TotalCost, ChunkScan, Skipped;
    SkippedAccounts(s, n, i);
  }

  lemma ResumeFits(s: seq<byte>, i: nat, j: nat, n: nat)
    requires n > 0
    ensures ChunkEnd(s, j, n) <= |s|
  {
  }

  // ----- when chunks do no harm -----

  /**
   No candidate the greedy scan refutes spans a chunk boundary, and the candidate it ends in
   fits a packet. This can be checked on the stream before it is received.
   */
  ghost predicate Uncut(s: seq<byte>, n: nat, i: nat)
    requires i <= |s| && n > 0
    decreases |s| - i
  {
    match Judge(s[i..])
    case Undecided => |s| - i <= LEN_MAX_BUFFER
    case Valid(used) =>
      JudgeUses(s[i..]);
      Uncut(s, n, i + used)
    case Refuted(used, event) =>
      JudgeUses(s[i..]);
      ChunkStart(i, n) == ChunkStart(i + used - 1, n) && Uncut(s, n, i + 1)
  }

  ghost function AsRun(g: Scanned): Run {
    Run(g.events, Idle(g.tail))
  }

  lemma {:induction false} UncutIsGreedy(s: seq<byte>, n: nat, i: nat)
    requires i <= |s| && 0 < n <= LEN_MAX_BUFFER
    requires Uncut(s, n, i)
    ensures ChunkScan(s, n, i) == AsRun(Greedy(s, i))
    decreases |s| - i
  {
    hide Judge, Resume, ChunkEnd, ChunkStart;
    JudgeUses(s[i..]);
    match Judge(s[i..])
    case Undecided =>
    case Valid(used) =>
      UncutIsGreedy(s, n, i + used);
    case Refuted(used, event) =>
      var j := i + used - 1;
      ResumeIsAhead(i, j, n);
      SameChunkIsShort(s, i, j, n);
      UncutIsGreedy(s, n, i + 1);
  }

  /** A run that ends has skipped bytes exactly when the stream is cut. */
  lemma {:induction false} SkipsIffCut(s: seq<byte>, n: nat, i: nat)
    requires i <= |s| && 0 < n <= LEN_MAX_BUFFER
    requires ChunkScan(s, n, i).outcome.Idle?
    ensures Skipped(s, n, i) > 0 <==> !Uncut(s, n, i)
    decreases |s| - i
  {
    hide Judge, Resume, ChunkEnd, ChunkStart;
    JudgeUses(s[i..]);
    match Judge(s[i..])
    case Undecided =>
    case Valid(used) =>
      SkipsIffCut(s, n, i + used);
    case Refuted(used, event) =>
      var j := i + used - 1;
      ResumeIsAhead(i, j, n);
      ResumeFits(s, i, j, n);
      ChunkStartsAscend(i, j, n);
      if ChunkStart(i, n) == ChunkStart(j, n) {
        SkipsIffCut(s, n, i + 1);
      }
  }

  /** After a cut the receiver either fails or skips bytes, which are then missing from its account. */
  lemma CutLosesBytes(s: seq<byte>, n: nat, i: nat)
    requires i <= |s| && 0 < n <= LEN_MAX_BUFFER
    requires !Uncut(s, n, i)
    requires ChunkScan(s, n, i).outcome.Idle?
    ensures TotalCost(ChunkScan(s, n, i).events) + ChunkScan(s, n, i).outcome.tail < |s| - i
  {
    hide Judge, TotalCost, ChunkScan, Skipped, Uncut;
    SkippedAccounts(s, n, i);
    SkipsIffCut(s, n, i);
  }

  /** The receiver performs the greedy scan exactly on the uncut streams. */
  lemma ChunkScanIsGreedyIff(s: seq<byte>, n: nat)
    requires 0 < n <= LEN_MAX_BUFFER
    ensures ChunkScan(s, n, 0) == AsRun(Greedy(s, 0)) <==> Uncut(s, n, 0)
  {
    hide Judge, TotalCost, ChunkScan, Greedy, Uncut;
    GreedyConserves(s, 0);
    if Uncut(s, n, 0) {
      UncutIsGreedy(s, n, 0);
    } else if ChunkScan(s, n, 0).outcome.Idle? {
      CutLosesBytes(s, n, 0);
    }
  }

  /** Each byte of the stream is a delivered byte, an error or waiting exactly on the uncut streams. */
  lemma ConservationIff(s: seq<byte>, n: nat)
    requires 0 < n <= LEN_MAX_BUFFER
    ensures var run := ChunkScan(s, n, 0);
            run.outcome.Idle? && TotalCost(run.events) + run.outcome.tail == |s| <==> Uncut(s, n, 0)
  {
    hide Judge, TotalCost, ChunkScan, Greedy, Uncut;
    if Uncut(s, n, 0) {
      UncutIsGreedy(s, n, 0);
      GreedyConserves(s, 0);
    } else if ChunkScan(s, n, 0).outcome.Idle? {
      CutLosesBytes(s, n, 0);
    }
  }

  lemma SameChunkIsShort(s: seq<byte>, i: nat, j: nat, n: nat)
    requires n > 0 && i <= j < |s| && ChunkStart(i, n) == ChunkStart(j, n)
    ensures j - i < n && i + 1 <= ChunkEnd(s, j, n)
  {
    StartPlusIndex(i, n);
    StartPlusIndex(j, n);
  }

  // ----- streams that are never cut -----

  /** A stream that fits one chunk is scanned greedily, whatever it holds. */
  lemma {:induction false} OneChunkIsUncut(s: seq<byte>, n: nat, i: nat)
    requires i <= |s| <= n <= LEN_MAX_BUFFER && n > 0
    ensures Uncut(s, n, i)
    decreases |s| - i
  {
    hide Judge;
    JudgeUses(s[i..]);
    match Judge(s[i..])
    case Undecided =>
    case Valid(used) =>
      OneChunkIsUncut(s, n, i + used);
    case Refuted(used, event) =>
      FirstChunk(i, n);
      FirstChunk(i + used - 1, n);
      OneChunkIsUncut(s, n, i + 1);
  }

  lemma FirstChunk(i: nat, n: nat)
    requires i < n
    ensures ChunkStart(i, n) == 0
  {
  }

  predicate Payloads(ps: seq<seq<byte>>) {
    forall k | 0 <= k < |ps| :: |ps[k]| <= LEN_MAX_PAYLOAD
  }

  /** The stream a sender of these payloads produces. */
  function Stream(ps: seq<seq<byte>>): seq<byte>
    requires Payloads(ps)
  {
    if |ps| == 0 then [] else Frame(ps[0]) + Stream(ps[1..])
  }

  function Deliveries(ps: seq<seq<byte>>): seq<Event>
    requires Payloads(ps)
  {
    if |ps| == 0 then [] else [Delivered(Frame(ps[0]))] + Deliveries(ps[1..])
  }

  lemma JudgeFrame(p: seq<byte>, rest: seq<byte>)
    requires |p| <= LEN_MAX_PAYLOAD
    ensures Judge(Frame(p) + rest) == Valid(|Frame(p)|)
  {
    hide Judge, Frame;
    var t := Frame(p) + rest;
    assert Frame(p) <= t;
    ValidIffFrame(t);
    FramesAreUnambiguous(p, PayloadOf(t), t);
    JudgeUses(t);
    assert |t[..Judge(t).used]| == Judge(t).used;
  }

  /** Frames are delivered in order, whatever came before them and however the chunks cut them. */
  lemma {:induction false} CleanStreamIsDelivered(front: seq<byte>, ps: seq<seq<byte>>, n: nat)
    requires Payloads(ps) && n > 0
    ensures var s := front + Stream(ps);
            Uncut(s, n, |front|) && Greedy(s, |front|) == Scanned(Deliveries(ps), 0)
    decreases |ps|
  {
    hide Judge, Frame;
    var s, i := front + Stream(ps), |front|;
    if |ps| == 0 {
      assert s[i..] == [];
      JudgeNothing();
    } else {
      var f := Frame(ps[0]);
      assert s[i..] == f + Stream(ps[1..]);
      JudgeFrame(ps[0], Stream(ps[1..]));
      assert s == (front + f) + Stream(ps[1..]);
      CleanStreamIsDelivered(front + f, ps[1..], n);
      assert s[i..i + |f|] == f;
    }
  }

  lemma JudgeNothing()
    ensures Judge([]) == Undecided
  {
  }

  // ----- whole runs -----

  /** A run over a stream of at most one chunk is the greedy scan, and no byte of it is lost. */
  lemma OneChunkRun(s: seq<byte>, n: nat)
    requires |s| <= n <= LEN_MAX_BUFFER && n > 0
    ensures ChunkScan(s, n, 0) == Run(Greedy(s, 0).events, Idle(Greedy(s, 0).tail))
    ensures TotalCost(Greedy(s, 0).events) + Greedy(s, 0).tail == |s|
  {
    hide Judge, ChunkScan, Greedy, Uncut;
    OneChunkIsUncut(s, n, 0);
    UncutIsGreedy(s, n, 0);
    GreedyConserves(s, 0);
  }

  /** A run over the frames of any payloads delivers them in order, makes no error call and ends clean. */
  lemma CleanRun(ps: seq<seq<byte>>, n: nat)
    requires Payloads(ps) && 0 < n <= LEN_MAX_BUFFER
    ensures ChunkScan(Stream(ps), n, 0) == Run(Deliveries(ps), Idle(0))
  {
    hide Judge, ChunkScan, Greedy, Uncut, Frame;
    CleanStreamIsDelivered([], ps, n);
    assert [] + Stream(ps) == Stream(ps);
    UncutIsGreedy(Stream(ps), n, 0);
  }
}
