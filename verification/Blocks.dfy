/** Byte sequences cut into fixed-size blocks: the layout a memory stream keeps. */
module Blocks {
  import opened ByteNumbers
  import opened Memory

  lemma SliceOfSlice<T>(s: seq<T>, a: nat, b: nat, c: nat, d: nat)
    requires a <= b <= |s| && c <= d <= b - a
    ensures s[a..b][c..d] == s[a + c..a + d]
  {
    var inner, outer := s[a..b][c..d], s[a + c..a + d];
    assert |inner| == |outer|;
    forall i | 0 <= i < d - c
      ensures inner[i] == outer[i]
    {
      assert inner[i] == s[a..b][c + i] == s[a + (c + i)];
    }
  }

  lemma Associate<T>(a: seq<T>, b: seq<T>, c: seq<T>)
    ensures (a + b) + c == a + (b + c)
  {
  }

  lemma Middle<T>(a: seq<T>, b: seq<T>, c: seq<T>)
    ensures |a| + |b| <= |a + (b + c)|
    ensures (a + (b + c))[|a|..|a| + |b|] == b
  {
  }

  function Flatten(blocks: seq<seq<byte>>): seq<byte> {
    if |blocks| == 0 then [] else Flatten(blocks[..|blocks| - 1]) + blocks[|blocks| - 1]
  }

  /** All blocks but the last are full, and the last has room. */
  ghost predicate Canonical(blocks: seq<seq<byte>>, size: nat) {
    && |blocks| > 0
    && (forall i | 0 <= i < |blocks| - 1 :: |blocks[i]| == size)
    && |blocks[|blocks| - 1]| < size
  }

  /** Where block i starts in the flat sequence. */
  function StartOf(i: nat, size: nat): nat {
    i * size
  }

  lemma {:induction false} FullBlocks(blocks: seq<seq<byte>>, size: nat)
    requires forall i | 0 <= i < |blocks| :: |blocks[i]| == size
    ensures |Flatten(blocks)| == |blocks| * size
  {
    if |blocks| > 0 {
      FullBlocks(blocks[..|blocks| - 1], size);
      assert |blocks| * size == (|blocks| - 1) * size + size;
    }
  }

  /** The length follows from the block count and the last block alone. */
  lemma LengthOfCanonical(blocks: seq<seq<byte>>, size: nat)
    requires Canonical(blocks, size)
    ensures |Flatten(blocks)| == StartOf(|blocks| - 1, size) + |blocks[|blocks| - 1]|
  {
    FullBlocks(blocks[..|blocks| - 1], size);
  }

  lemma ExtendLast(blocks: seq<seq<byte>>, more: seq<byte>)
    requires |blocks| > 0
    ensures var last := |blocks| - 1;
            Flatten(blocks[last := blocks[last] + more]) == Flatten(blocks) + more
  {
    var last := |blocks| - 1;
    assert blocks[last := blocks[last] + more][..last] == blocks[..last];
  }

  lemma {:induction false} FlattenConcatenates(a: seq<seq<byte>>, b: seq<seq<byte>>)
    ensures Flatten(a + b) == Flatten(a) + Flatten(b)
  {
    if |b| == 0 {
      assert a + b == a;
    } else {
      assert (a + b)[..|a + b| - 1] == a + b[..|b| - 1];
      FlattenConcatenates(a, b[..|b| - 1]);
      Associate(Flatten(a), Flatten(b[..|b| - 1]), b[|b| - 1]);
    }
  }

  lemma FlattenOne(block: seq<byte>)
    ensures Flatten([block]) == block
  {
    assert [block][..0] == [];
    assert [] + block == block;
  }

  /** Block i is the stretch of the flat sequence that starts at i * size. */
  lemma BlockAt(blocks: seq<seq<byte>>, size: nat, i: nat)
    requires Canonical(blocks, size)
    requires i < |blocks|
    ensures i * size + |blocks[i]| <= |Flatten(blocks)|
    ensures Flatten(blocks)[i * size..i * size + |blocks[i]|] == blocks[i]
  {
    hide Flatten;
    var before, after := blocks[..i], blocks[i + 1..];
    assert blocks == before + ([blocks[i]] + after);
    FlattenConcatenates(before, [blocks[i]] + after);
    FlattenConcatenates([blocks[i]], after);
    FlattenOne(blocks[i]);
    FullBlocks(before, size);
    Middle(Flatten(before), blocks[i], Flatten(after));
  }

  lemma LastHasRoom(blocks: seq<seq<byte>>, size: nat)
    requires Canonical(blocks, size)
    ensures |blocks| > 0 && |blocks[|blocks| - 1]| < size
  {
  }

  /** Blocks that are all full keep their contents, and are laid out as they should be, with an empty one behind them. */
  lemma FullThenEmpty(blocks: seq<seq<byte>>, size: nat)
    requires size > 0 && forall i | 0 <= i < |blocks| :: |blocks[i]| == size
    ensures Canonical(blocks + [[]], size) && Flatten(blocks + [[]]) == Flatten(blocks)
  {
    var more := blocks + [[]];
    assert more[..|more| - 1] == blocks;
  }

  /** Filling the last block leaves a layout as it should be, or one in which every block is full. */
  lemma FilledIsCanonical(blocks: seq<seq<byte>>, size: nat, more: seq<byte>)
    requires Canonical(blocks, size) && |blocks[|blocks| - 1]| + |more| <= size
    ensures var last := |blocks| - 1;
            var filled := blocks[last := blocks[last] + more];
            if |filled[last]| == size then forall i | 0 <= i < |filled| :: |filled[i]| == size
            else Canonical(filled, size)
  {
  }

  lemma SamePrefix(a: seq<seq<byte>>, b: seq<seq<byte>>, k: nat)
    requires k < |a| && k < |b|
    ensures a[..k + 1] == b[..k + 1] <==> a[..k] == b[..k] && a[k] == b[k]
  {
    assert a[..k + 1] == a[..k] + [a[k]];
    assert b[..k + 1] == b[..k] + [b[k]];
  }

  lemma SameLengthSameCount(a: seq<seq<byte>>, b: seq<seq<byte>>, size: nat)
    requires Canonical(a, size) && Canonical(b, size)
    requires |Flatten(a)| == |Flatten(b)|
    ensures |a| == |b|
  {
    hide Flatten, Canonical, StartOf;
    LastHasRoom(a, size);
    LastHasRoom(b, size);
    LengthOfCanonical(a, size);
    LengthOfCanonical(b, size);
    SameCount(|a| - 1, |a[|a| - 1]|, |b| - 1, |b[|b| - 1]|, size);
  }

  /** A flat sequence has only one canonical layout. */
  lemma CanonicalIsUnique(a: seq<seq<byte>>, b: seq<seq<byte>>, size: nat)
    requires Canonical(a, size) && Canonical(b, size)
    requires Flatten(a) == Flatten(b)
    ensures a == b
  {
    SameLengthSameCount(a, b, size);
    LengthOfCanonical(a, size);
    LengthOfCanonical(b, size);
    forall i | 0 <= i < |a|
      ensures a[i] == b[i]
    {
      BlockAt(a, size, i);
      BlockAt(b, size, i);
    }
  }

  function BlockOf(offset: nat, size: nat): nat
    requires size > 0
  {
    offset / size
  }

  function PositionIn(offset: nat, size: nat): nat
    requires size > 0
  {
    offset % size
  }

  /** Where a read starts: in block offset / size, or past the end of everything. */
  lemma StartBlock(blocks: seq<seq<byte>>, size: nat, offset: nat)
    requires Canonical(blocks, size)
    ensures StartOf(offset / size, size) + offset % size == offset && 0 <= offset % size < size
    ensures offset / size >= |blocks| ==> offset >= |Flatten(blocks)|
  {
    hide Flatten, Canonical;
    LastHasRoom(blocks, size);
    LengthOfCanonical(blocks, size);
    DivMod(offset, size);
    var idx := offset / size;
    if idx >= |blocks| {
      MulMonotone(|blocks|, idx, size);
      PreviousMultiple(|blocks|, size);
    }
  }

  lemma DivMod(offset: nat, size: nat)
    requires size > 0
    ensures offset / size * size + offset % size == offset && 0 <= offset % size < size
  {
  }

  lemma PreviousMultiple(n: nat, size: nat)
    requires n > 0
    ensures n * size == (n - 1) * size + size
  {
  }

  lemma MulMonotone(m: nat, n: nat, size: nat)
    requires m <= n
    ensures m * size <= n * size
  {
    assert n * size == m * size + (n - m) * size;
  }

  /** After a block comes the next one; after the last comes the end. */
  lemma NextBlock(blocks: seq<seq<byte>>, size: nat, i: nat)
    requires Canonical(blocks, size)
    requires i < |blocks|
    ensures (i + 1) * size == i * size + size
    ensures if i == |blocks| - 1 then i * size + |blocks[i]| == |Flatten(blocks)| else |blocks[i]| == size
  {
    LengthOfCanonical(blocks, size);
  }

  /** What the part of a block that a read starts in at `pos` contributes. */
  function Part(block: seq<byte>, pos: nat, left: nat): (r: seq<byte>)
    ensures |r| == if pos + left > |block| then (if pos > |block| then 0 else |block| - pos) else left
  {
    Cut(block, pos, left)
  }

  /**
   A read has got `readed` bytes from `offset` on, wants `left` more, and stands at `pos` of block
   `idx`, or behind the last block.
   */
  ghost predicate ReadUpTo(blocks: seq<seq<byte>>, size: nat, offset: nat, idx: nat, pos: nat, readed: nat, left: nat) {
    && (readed > 0 ==> offset + readed <= |Flatten(blocks)|)
    && (left > 0 && idx < |blocks| ==> StartOf(idx, size) + pos == offset + readed && pos < size)
    && (left > 0 && idx >= |blocks| ==> offset + readed >= |Flatten(blocks)|)
  }

  lemma PartOfBlock(block: seq<byte>, pos: nat, left: nat)
    ensures var n := |Part(block, pos, left)|;
            if n == 0 then Part(block, pos, left) == [] else pos + n <= |block| && Part(block, pos, left) == block[pos..pos + n]
  {
  }

  lemma ReadStarts(blocks: seq<seq<byte>>, size: nat, offset: nat, length: nat, was: seq<byte>)
    requires Canonical(blocks, size) && size > 0
    ensures ReadUpTo(blocks, size, offset, BlockOf(offset, size), PositionIn(offset, size), 0, length)
    ensures Filled(was, Flatten(blocks), offset, 0) == was
  {
    hide Flatten, Canonical;
    StartBlock(blocks, size, offset);
    OverwriteNothing(was, 0);
  }

  /** A read goes on with a part of the block it stands in. */
  lemma ReadFromBlock(blocks: seq<seq<byte>>, size: nat, i: nat, pos: nat, offset: nat, readed: nat, left: nat)
    requires Canonical(blocks, size)
    requires ReadUpTo(blocks, size, offset, i, pos, readed, left) && left > 0 && i < |blocks|
    ensures var all, part := Flatten(blocks), Part(blocks[i], pos, left);
            && Cut(all, offset, readed + |part|) == Cut(all, offset, readed) + part
            && ReadUpTo(blocks, size, offset, i + 1, 0, readed + |part|, left - |part|)
  {
    hide Flatten, Canonical, Cut;
    NextBlock(blocks, size, i);
    PartIsStretch(blocks, size, i, pos, left);
    CutExtends(Flatten(blocks), offset, readed, Part(blocks[i], pos, left));
  }

  /** The destination after a read of `readed` bytes at `offset`. */
  function Filled(was: seq<byte>, s: seq<byte>, offset: nat, readed: nat): seq<byte>
    requires readed <= |was|
  {
    Overwrite(was, 0, Cut(s, offset, readed))
  }

  lemma FillsFurther(blocks: seq<seq<byte>>, size: nat, i: nat, pos: nat, offset: nat, readed: nat, left: nat, was: seq<byte>)
    requires Canonical(blocks, size)
    requires ReadUpTo(blocks, size, offset, i, pos, readed, left) && left > 0 && i < |blocks|
    requires readed + left <= |was|
    ensures var all, part := Flatten(blocks), Part(blocks[i], pos, left);
            && ReadUpTo(blocks, size, offset, i + 1, 0, readed + |part|, left - |part|)
            && |Filled(was, all, offset, readed)| == |was|
            && Overwrite(Filled(was, all, offset, readed), readed, part) == Filled(was, all, offset, readed + |part|)
  {
    hide Flatten, Canonical, Cut, Part, Overwrite;
    var all := Flatten(blocks);
    ReadFromBlock(blocks, size, i, pos, offset, readed, left);
    FullCut(all, offset, readed);
    OverwriteExtends(was, 0, Cut(all, offset, readed), Part(blocks[i], pos, left));
  }

  lemma FullCut(s: seq<byte>, offset: nat, readed: nat)
    requires readed > 0 ==> offset + readed <= |s|
    ensures |Cut(s, offset, readed)| == readed
  {
  }

  lemma FilledEnds(blocks: seq<seq<byte>>, size: nat, offset: nat, idx: nat, pos: nat, readed: nat, left: nat, was: seq<byte>)
    requires ReadUpTo(blocks, size, offset, idx, pos, readed, left) && (left == 0 || idx >= |blocks|)
    requires readed + left <= |was|
    ensures var all, length := Flatten(blocks), readed + left;
            && Filled(was, all, offset, readed) == Overwrite(was, 0, Cut(all, offset, length))
            && readed == |Cut(all, offset, length)|
            && Filled(was, all, offset, readed)[..readed] == Cut(all, offset, length)
  {
    hide Flatten, Cut, Overwrite;
    ReadEnds(blocks, size, offset, idx, pos, readed, left);
    FullCut(Flatten(blocks), offset, readed);
    OverwriteHolds(was, 0, Cut(Flatten(blocks), offset, readed));
  }

  lemma ReadEnds(blocks: seq<seq<byte>>, size: nat, offset: nat, idx: nat, pos: nat, readed: nat, left: nat)
    requires ReadUpTo(blocks, size, offset, idx, pos, readed, left) && (left == 0 || idx >= |blocks|)
    ensures Cut(Flatten(blocks), offset, readed) == Cut(Flatten(blocks), offset, readed + left)
  {
    hide Flatten;
    CutAtEnd(Flatten(blocks), offset, readed, readed + left);
  }

  lemma PartIsStretch(blocks: seq<seq<byte>>, size: nat, i: nat, pos: nat, left: nat)
    requires Canonical(blocks, size)
    requires i < |blocks| && pos < size
    ensures var all, part, at := Flatten(blocks), Part(blocks[i], pos, left), i * size + pos;
            |part| > 0 ==> at + |part| <= |all| && part == all[at..at + |part|]
  {
    hide Flatten, Canonical;
    BlockAt(blocks, size, i);
    var all, part, start := Flatten(blocks), Part(blocks[i], pos, left), i * size;
    if |part| > 0 {
      SliceOfSlice(all, start, start + |blocks[i]|, pos, pos + |part|);
    }
  }

  lemma CutExtends(s: seq<byte>, offset: nat, got: nat, part: seq<byte>)
    requires got > 0 ==> offset + got <= |s|
    requires |part| > 0 ==> offset + got + |part| <= |s| && part == s[offset + got..offset + got + |part|]
    ensures Cut(s, offset, got + |part|) == Cut(s, offset, got) + part
  {
  }

  /** A read that met the end is not made longer by asking for more. */
  lemma CutAtEnd(s: seq<byte>, offset: nat, got: nat, length: nat)
    requires got <= length
    requires got < length ==> offset + got >= |s|
    ensures Cut(s, offset, got) == Cut(s, offset, length)
  {
  }

  lemma SameCount(m: nat, r: nat, n: nat, s: nat, size: nat)
    requires r < size && s < size
    requires StartOf(m, size) + r == StartOf(n, size) + s
    ensures m == n && r == s
  {
    if m < n {
      StartsApart(m, n, size);
      assert false;
    } else if n < m {
      StartsApart(n, m, size);
      assert false;
    }
  }

  lemma StartsApart(m: nat, n: nat, size: nat)
    requires m < n
    ensures StartOf(n, size) >= StartOf(m, size) + size
  {
    assert n * size == m * size + (n - m) * size;
    MulAtLeast(n - m, size);
  }

  lemma MulAtLeast(k: nat, size: nat)
    requires k >= 1
    ensures k * size >= size
  {
    assert k * size == (k - 1) * size + size;
  }

  /** The stretch of `s` that a read of `length` bytes at `offset` gets, cut off at its end. */
  function Cut(s: seq<byte>, offset: nat, length: nat): (r: seq<byte>)
    ensures |r| <= length
  {
    if offset >= |s| then [] else if offset + length <= |s| then s[offset..offset + length] else s[offset..]
  }

  /** Reading `k` bytes at offsets at, at + k, at + 2k, ... up to the end. */
  function ReadInSteps(s: seq<byte>, k: nat, at: nat): seq<byte>
    requires k > 0
    decreases if at < |s| then |s| - at else 0
  {
    if at >= |s| then [] else Cut(s, at, k) + ReadInSteps(s, k, at + k)
  }

  lemma NextStep(s: seq<byte>, k: nat, at: nat)
    requires k > 0
    ensures ReadInSteps(s, k, at) == if at >= |s| then [] else Cut(s, at, k) + ReadInSteps(s, k, at + k)
  {
  }

  lemma {:induction false} StepwiseReadIsWhole(s: seq<byte>, k: nat, at: nat)
    requires k > 0 && at <= |s|
    ensures ReadInSteps(s, k, at) == s[at..]
    decreases |s| - at
  {
    hide ReadInSteps;
    NextStep(s, k, at);
    if at < |s| {
      if at + k <= |s| {
        StepwiseReadIsWhole(s, k, at + k);
        assert s[at..] == s[at..at + k] + s[at + k..];
      } else {
        NextStep(s, k, at + k);
        assert s[at..] + [] == s[at..];
      }
    }
  }
}
