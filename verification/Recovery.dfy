/** How the scan gets back in step: over junk, over a damaged frame, and where chunks prevent it. */
module Recovery {
  import opened ByteNumbers
  import opened Bytes
  import opened Burst
  import opened Frames
  import opened Scan

  /**
   Nowhere in [from, to) does the magic stand, and no part of it does at the very end of the stream.
   Parts of it may stand anywhere else.
   */
  predicate NoStart(s: seq<byte>, from: nat, to: nat) {
    && from <= to <= |s|
    && forall k | from <= k < to :: Match(s[k..], 0) < LEN_MID && Match(s[k..], 0) < |s| - k
  }

  /** Bytes [from, to) are none of them the first byte of the magic. */
  predicate NoFirstByte(s: seq<byte>, from: nat, to: nat) {
    from <= to <= |s| && forall k | from <= k < to :: s[k] != MAGIC[0]
  }

  function Errors(k: nat): seq<Event> {
    if k == 0 then [] else [ParseError] + Errors(k - 1)
  }

  /** The byte that breaks the magic refutes the candidate; the ones before it have to be gone back over. */
  lemma JudgeJunk(t: seq<byte>)
    requires Match(t, 0) < LEN_MID && Match(t, 0) < |t|
    ensures Judge(t) == Refuted(Match(t, 0) + 1, ParseError)
  {
  }

  lemma NoFirstByteMatches(t: seq<byte>)
    requires |t| > 0 && t[0] != MAGIC[0]
    ensures Match(t, 0) == 0
  {
  }

  /** Every junk byte costs one parse error and nothing else. */
  lemma {:induction false} GreedyOverJunk(s: seq<byte>, i: nat, k: nat)
    requires NoStart(s, i, i + k)
    ensures Greedy(s, i) == Scanned(Errors(k) + Greedy(s, i + k).events, Greedy(s, i + k).tail)
    decreases k
  {
    hide Judge;
    if k > 0 {
      JudgeJunk(s[i..]);
      GreedyOverJunk(s, i + 1, k - 1);
      assert Errors(k) + Greedy(s, i + k).events == [ParseError] + (Errors(k - 1) + Greedy(s, i + k).events);
    } else {
      assert [] + Greedy(s, i).events == Greedy(s, i).events;
    }
  }

  lemma {:induction false} ChunkScanOverJunk(s: seq<byte>, n: nat, i: nat, k: nat)
    requires n > 0 && NoFirstByte(s, i, i + k)
    ensures ChunkScan(s, n, i) == Run(Errors(k) + ChunkScan(s, n, i + k).events, ChunkScan(s, n, i + k).outcome)
    decreases k
  {
    hide Judge, Resume, ChunkEnd, ChunkStart;
    if k > 0 {
      NoFirstByteMatches(s[i..]);
      JudgeJunk(s[i..]);
      ResumeIsAhead(i, i, n);
      SameChunkIsShort(s, i, i, n);
      ChunkScanOverJunk(s, n, i + 1, k - 1);
      assert Errors(k) + ChunkScan(s, n, i + k).events == [ParseError] + (Errors(k - 1) + ChunkScan(s, n, i + k).events);
    } else {
      assert [] + ChunkScan(s, n, i).events == ChunkScan(s, n, i).events;
    }
  }

  /** Frames between junk are all delivered, and each junk byte is one parse error. */
  lemma FramesAmongJunk(before: seq<byte>, ps: seq<seq<byte>>, after: seq<byte>)
    requires Payloads(ps)
    requires var s := before + Stream(ps) + after;
             NoStart(s, 0, |before|) && NoStart(s, |s| - |after|, |s|)
    ensures Greedy(before + Stream(ps) + after, 0)
         == Scanned(Errors(|before|) + (Deliveries(ps) + Errors(|after|)), 0)
  {
    var s := before + Stream(ps) + after;
    GreedyOverJunk(s, 0, |before|);
    FramesThenJunk(before, ps, after);
  }

  lemma JunkAtEnd(s: seq<byte>, i: nat)
    requires NoStart(s, i, |s|)
    ensures Greedy(s, i) == Scanned(Errors(|s| - i), 0)
  {
    hide Judge, Match;
    GreedyOverJunk(s, i, |s| - i);
    assert s[|s|..] == [];
    JudgeNothing();
    assert Greedy(s, |s|) == Scanned([], 0);
    assert Errors(|s| - i) + [] == Errors(|s| - i);
  }

  lemma Regroup<T>(a: seq<T>, b: seq<T>, c: seq<T>, d: seq<T>)
    ensures a + (b + c) + d == (a + b) + c + d == a + (b + (c + d))
  {
  }

  lemma FrameInStream(front: seq<byte>, p: seq<byte>, rest: seq<byte>)
    requires |p| <= LEN_MAX_PAYLOAD
    ensures var s := front + (Frame(p) + rest);
            Greedy(s, |front|) == Greedy(s, |front + Frame(p)|).After(Delivered(Frame(p)))
  {
    hide Judge, Frame;
    var f, s := Frame(p), front + (Frame(p) + rest);
    assert s[|front|..] == f + rest;
    JudgeFrame(p, rest);
    assert s[|front|..|front| + |f|] == f;
  }

  lemma {:induction false} FramesThenJunk(front: seq<byte>, ps: seq<seq<byte>>, after: seq<byte>)
    requires Payloads(ps)
    requires var s := front + Stream(ps) + after;
             NoStart(s, |s| - |after|, |s|)
    ensures Greedy(front + Stream(ps) + after, |front|) == Scanned(Deliveries(ps) + Errors(|after|), 0)
    decreases |ps|
  {
    hide Judge, Frame, NoStart, Errors, Greedy;
    var s, i := front + Stream(ps) + after, |front|;
    if |ps| == 0 {
      JunkAtEnd(s, i);
      assert [] + Errors(|after|) == Errors(|after|);
    } else {
      var f, rest := Frame(ps[0]), Stream(ps[1..]);
      Regroup(front, f, rest, after);
      FramesThenJunk(front + f, ps[1..], after);
      FrameInStream(front, ps[0], rest + after);
      assert [Delivered(f)] + (Deliveries(ps[1..]) + Errors(|after|)) == Deliveries(ps) + Errors(|after|);
    }
  }

  /**
   A frame hit by one burst behind its length field, in which the magic does not stand a second time,
   costs one rejection and a parse error for each other byte. What follows it is unaffected.
   */
  lemma DamagedFrameIsSkipped(p: seq<byte>, damaged: seq<byte>, rest: seq<byte>)
    requires |p| <= LEN_MAX_PAYLOAD && |damaged| == |Frame(p)|
    requires damaged[..POS_PAYLOAD] == Frame(p)[..POS_PAYLOAD]
    requires OneBurst(Frame(p)[POS_PAYLOAD..], damaged[POS_PAYLOAD..])
    requires NoStart(damaged + rest, 1, |damaged|)
    ensures var s, g := damaged + rest, Greedy(damaged + rest, |damaged|);
            Greedy(s, 0) == Scanned([CrcRejected] + (Errors(|damaged| - 1) + g.events), g.tail)
  {
    hide Judge, Frame, OneBurst;
    var s := damaged + rest;
    JudgeDamaged(p, damaged, rest);
    assert s[0..] == s;
    GreedyOverJunk(s, 1, |damaged| - 1);
  }

  lemma JudgeDamaged(p: seq<byte>, damaged: seq<byte>, rest: seq<byte>)
    requires |p| <= LEN_MAX_PAYLOAD && |damaged| == |Frame(p)|
    requires damaged[..POS_PAYLOAD] == Frame(p)[..POS_PAYLOAD]
    requires OneBurst(Frame(p)[POS_PAYLOAD..], damaged[POS_PAYLOAD..])
    ensures Judge(damaged + rest) == Refuted(|damaged|, CrcRejected)
  {
    hide OneBurst, LoadLength, StartsWithFrame, Frame;
    var f, t := Frame(p), damaged + rest;
    BurstInvalidatesFrame(p, damaged);
    FrameFields(p, f);
    HeaderDecidesLength(f, damaged);
    HeaderDecidesLength(f, t);
    MatchIff(t, 0);
    assert t[..LEN_MID] == MAGIC;
    SameFrameBytes(damaged, t);
  }

  /**
   What such a frame costs the receiver, whatever the chunk size: one rejection, and a parse error for each further
   byte of the chunk it ends in. The chunks it filled before are skipped; the next frame is not affected.
   */
  lemma DamagedFrameCosts(p: seq<byte>, damaged: seq<byte>, rest: seq<byte>, n: nat)
    requires |p| <= LEN_MAX_PAYLOAD && |damaged| == |Frame(p)| && n > 0
    requires damaged[..POS_PAYLOAD] == Frame(p)[..POS_PAYLOAD]
    requires OneBurst(Frame(p)[POS_PAYLOAD..], damaged[POS_PAYLOAD..])
    requires NoFirstByte(damaged, 1, |damaged|)
    ensures var s := damaged + rest;
            var run := ChunkScan(s, n, |damaged|);
            ChunkScan(s, n, 0)
            == Run([CrcRejected] + (Errors(|damaged| - 1 - ChunkStart(|damaged| - 1, n)) + run.events), run.outcome)
  {
    hide Judge, Frame, OneBurst, ChunkStart, Errors;
    var s, j := damaged + rest, |damaged| - 1;
    JudgeDamaged(p, damaged, rest);
    assert s[0..] == s;
    ResumeIsAhead(0, j, n);
    FirstIsStart(n);
    ResumeSkips(0, j, n);
    ResumeStaysIn(s, j, n);
    assert forall k | 1 <= k < |damaged| :: s[k] == damaged[k];
    ChunkScanOverJunk(s, n, Resume(0, j, n), |damaged| - Resume(0, j, n));
  }

  lemma FirstIsStart(n: nat)
    requires n > 0
    ensures ChunkStart(0, n) == 0
  {
    FirstChunk(0, n);
  }

  lemma ResumeStaysIn(s: seq<byte>, j: nat, n: nat)
    requires n > 0 && j < |s|
    ensures ChunkStart(j, n) + 1 <= j + 1 <= ChunkEnd(s, j, n)
  {
    StartPlusIndex(j, n);
  }

  lemma HeaderDecidesLength(a: seq<byte>, b: seq<byte>)
    requires |a| >= POS_PAYLOAD && |b| >= POS_PAYLOAD && a[..POS_PAYLOAD] == b[..POS_PAYLOAD]
    ensures LengthField(a) == LengthField(b) && a[..LEN_MID] == b[..LEN_MID]
  {
    assert a[POS_PLEN..POS_PAYLOAD] == a[..POS_PAYLOAD][POS_PLEN..];
    assert b[POS_PLEN..POS_PAYLOAD] == b[..POS_PAYLOAD][POS_PLEN..];
    assert a[..LEN_MID] == a[..POS_PAYLOAD][..LEN_MID];
    assert b[..LEN_MID] == b[..POS_PAYLOAD][..LEN_MID];
  }

  // ----- where a chunk boundary does harm -----

  /** A chunk of junk that ends in the first byte of the magic, and one byte that refutes it. */
  function CutStream(n: nat): seq<byte>
    requires n > 0
  {
    seq(n - 1, k => 0x41 as byte) + [0x4D, 0x58]
  }

  lemma JudgeFalseStart(t: seq<byte>)
    requires |t| == 2 && t[0] == 0x4D && t[1] == 0x58
    ensures Judge(t) == Refuted(2, ParseError)
  {
    assert Match(t, 1) == 1;
  }

  /** The greedy scan gives up every byte of it; the receiver never comes back from it. */
  lemma CutStreamHangs(n: nat)
    requires 2 <= n <= LEN_MAX_BUFFER
    ensures Greedy(CutStream(n), 0) == Scanned(Errors(n + 1), 0)
    ensures ChunkScan(CutStream(n), n, 0).outcome == Stuck
    ensures !Uncut(CutStream(n), n, 0)
  {
    var s := CutStream(n);
    GreedyGivesUp(s, n);
    ChunkScanOverJunk(s, n, 0, n - 1);
    FalseStartHangs(s, n);
    ChunkScanIsGreedyIff(s, n);
  }

  lemma GreedyGivesUp(s: seq<byte>, n: nat)
    requires n > 0 && s == CutStream(n)
    ensures Greedy(s, 0) == Scanned(Errors(n + 1), 0)
  {
    hide Judge;
    JudgeFalseStart(s[n - 1..]);
    NoFirstByteMatches(s[n..]);
    JudgeJunk(s[n..]);
    JudgeNothing();
    assert s[n + 1..] == [];
    assert Greedy(s, n + 1) == Scanned([], 0);
    assert Greedy(s, n) == Scanned([ParseError], 0);
    assert Greedy(s, n - 1) == Scanned([ParseError, ParseError], 0);
    forall k | 0 <= k < n - 1
      ensures Match(s[k..], 0) == 0
    {
      NoFirstByteMatches(s[k..]);
    }
    GreedyOverJunk(s, 0, n - 1);
    ErrorsAdd(n - 1);
  }

  lemma {:induction false} ErrorsAdd(k: nat)
    ensures Errors(k) + [ParseError, ParseError] == Errors(k + 2)
  {
    if k > 0 {
      ErrorsAdd(k - 1);
      assert Errors(k) + [ParseError, ParseError] == [ParseError] + (Errors(k - 1) + [ParseError, ParseError]);
    } else {
      assert Errors(1) == [ParseError];
    }
  }

  lemma FalseStartHangs(s: seq<byte>, n: nat)
    requires n >= 2 && s == CutStream(n)
    ensures ChunkScan(s, n, n - 1) == Run([ParseError], Stuck)
  {
    hide Judge;
    JudgeFalseStart(s[n - 1..]);
    assert (n - 1) % n == n - 1;
    assert n % n == 0;
  }
}
