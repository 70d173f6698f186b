/** The memory stream: a growing list of fixed-size buffers that behaves as one byte sequence. */
module MemStreams {
  import opened ByteNumbers
  import opened Blocks
  import opened Memory

  class Buffer {
    const ptr: array<byte>
    var idx: nat

    constructor (size: nat)
      ensures fresh(ptr) && ptr.Length == size && idx == 0
    {
      ptr := new byte[size];
      idx := 0;
    }

    /** Appends as much of `buff` as fits and says how much that was. */
    method Appand(buff: seq<byte>) returns (amount: nat)
      requires idx <= ptr.Length
      modifies this`idx, ptr
      ensures amount == if old(idx) + |buff| > ptr.Length then ptr.Length - old(idx) else |buff|
      ensures idx == old(idx) + amount <= ptr.Length
      ensures ptr[..idx] == old(ptr[..idx]) + buff[..amount]
    {
      amount := |buff|;
      if idx + amount > ptr.Length {
        amount := ptr.Length - idx;
      }
      forall i | 0 <= i < amount {
        ptr[idx + i] := buff[i];
      }
      idx := idx + amount;
    }

    method Same(right: Buffer) returns (res: bool)
      requires idx <= ptr.Length && right.idx <= right.ptr.Length
      ensures res <==> ptr[..idx] == right.ptr[..right.idx]
    {
      res := idx == right.idx && ptr[..idx] == right.ptr[..idx];
    }
  }

  class MemStream {
    const blockSize: nat
    var listBuffer: seq<Buffer>
    var listSize: nat
    ghost var blocks: seq<seq<byte>>
    ghost var Repr: set<object>

    ghost predicate Valid()
      reads this, Repr
      ensures Valid() ==> this in Repr
    {
      Backed() && Canonical(blocks, blockSize)
    }

    /** The buffers hold the blocks, and none is used twice. */
    ghost predicate Backed()
      reads this, Repr
      ensures Backed() ==> this in Repr
    {
      && this in Repr
      && blockSize > 0
      && listSize == |listBuffer| == |blocks|
      && (forall i | 0 <= i < |listBuffer| ::
            && listBuffer[i] in Repr
            && listBuffer[i].ptr in Repr
            && listBuffer[i].ptr.Length == blockSize
            && listBuffer[i].idx == |blocks[i]| <= blockSize
            && listBuffer[i].ptr[..listBuffer[i].idx] == blocks[i])
      && (forall i, j | 0 <= i < j < |listBuffer| ::
            listBuffer[i] != listBuffer[j] && listBuffer[i].ptr != listBuffer[j].ptr)
    }

    /** The flat byte sequence the blocks stand for. */
    ghost function Contents(): seq<byte>
      reads this
    {
      Flatten(blocks)
    }

    /** What the layout of the blocks promises, without the buffers behind them. */
    lemma Layout()
      requires Valid()
      ensures blockSize > 0 && listSize == |blocks| && Canonical(blocks, blockSize)
    {
    }

    constructor (size: nat)
      requires size > 0
      ensures Valid() && fresh(Repr)
      ensures blockSize == size && Contents() == []
    {
      blockSize := size;
      listBuffer := [];
      listSize := 0;
      blocks := [];
      Repr := {this};
      new;
      var buff := new Buffer(size);
      listBuffer := [buff];
      listSize := 1;
      blocks := [[]];
      Repr := {this, buff, buff.ptr};
      assert blocks[..0] == [];
    }

    method AddNewBuffer()
      requires Backed() && forall i | 0 <= i < |blocks| :: |blocks[i]| == blockSize
      modifies this
      ensures Valid() && fresh(Repr - old(Repr))
      ensures blocks == old(blocks) + [[]]
      ensures listBuffer[|listBuffer| - 1].idx == 0
      ensures Contents() == old(Contents())
    {
      hide Canonical, Flatten;
      var buff := new Buffer(blockSize);
      FullThenEmpty(blocks, blockSize);
      listBuffer := listBuffer + [buff];
      listSize := listSize + 1;
      blocks := blocks + [[]];
      Repr := Repr + {buff, buff.ptr};
    }

    /** Writes go to the last buffer; one that becomes full is followed by a new one at once. */
    method Write(buf: seq<byte>)
      requires Valid()
      modifies Repr
      ensures Valid() && fresh(Repr - old(Repr))
      ensures Contents() == old(Contents()) + buf
    {
      var pbuff: nat, length: nat := 0, |buf|;
      while length > 0
        invariant Valid() && fresh(Repr - old(Repr))
        invariant pbuff + length == |buf|
        invariant Contents() == old(Contents()) + buf[..pbuff]
      {
        var lenWritten := AppendToLast(buf[pbuff..]);
        assert buf[..pbuff + lenWritten] == buf[..pbuff] + buf[pbuff..][..lenWritten];
        length := length - lenWritten;
        pbuff := pbuff + lenWritten;
      }
      assert buf[..pbuff] == buf;
    }

    /** One round of the write loop: fill the last buffer, and add the next when it is full. */
    method AppendToLast(buf: seq<byte>) returns (lenWritten: nat)
      requires Valid() && |buf| > 0
      modifies Repr
      ensures Valid() && fresh(Repr - old(Repr))
      ensures 0 < lenWritten <= |buf|
      ensures Contents() == old(Contents()) + buf[..lenWritten]
    {
      hide Flatten, Backed, Canonical;
      Layout();
      LastHasRoom(blocks, blockSize);
      ghost var before := blocks;
      var isFull;
      lenWritten, isFull := FillLast(buf);
      ExtendLast(before, buf[..lenWritten]);
      FilledIsCanonical(before, blockSize, buf[..lenWritten]);
      if isFull {
        AddNewBuffer();
      }
    }

    /** Appends to the last buffer as much as fits. */
    method FillLast(buf: seq<byte>) returns (lenWritten: nat, isFull: bool)
      requires Backed() && |blocks| > 0
      modifies this`blocks, Repr - {this}
      ensures Backed() && Repr == old(Repr)
      ensures var last := |old(blocks)| - 1;
              var room := blockSize - |old(blocks)[last]|;
              && lenWritten == (if |buf| > room then room else |buf|)
              && blocks == old(blocks)[last := old(blocks)[last] + buf[..lenWritten]]
              && isFull == (|blocks[last]| == blockSize)
    {
      var last := listSize - 1;
      var lbuff := listBuffer[last];
      lenWritten := lbuff.Appand(buf);
      blocks := blocks[last := blocks[last] + buf[..lenWritten]];
      isFull := lbuff.ptr.Length <= lbuff.idx;
    }

    method Len() returns (len: nat)
      requires Valid()
      ensures len == |Contents()|
    {
      LengthOfCanonical(blocks, blockSize);
      len := (listSize - 1) * blockSize + listBuffer[listSize - 1].idx;
    }

    /** Streams are equal when their contents are, however each was cut into writes. */
    method Equals(right: MemStream) returns (res: bool)
      requires Valid() && right.Valid() && blockSize == right.blockSize
      ensures res <==> Contents() == right.Contents()
    {
      hide Valid, Flatten, Canonical;
      res := false;
      Layout();
      right.Layout();
      var len := Len();
      var rightLen := right.Len();
      if len == rightLen {
        SameLengthSameCount(blocks, right.blocks, blockSize);
        res := true;
        var cnt := if listSize > right.listSize then listSize else right.listSize;
        var idx := 0;
        while idx < cnt && res
          invariant idx <= cnt
          invariant res == (blocks[..idx] == right.blocks[..idx])
        {
          res := SameBuffer(right, idx);
          SamePrefix(blocks, right.blocks, idx);
          idx := idx + 1;
        }
        if res {
          assert blocks == blocks[..cnt] && right.blocks == right.blocks[..cnt];
        } else if Contents() == right.Contents() {
          CanonicalIsUnique(blocks, right.blocks, blockSize);
        }
      }
    }

    method SameBuffer(right: MemStream, idx: nat) returns (res: bool)
      requires Valid() && right.Valid() && idx < |blocks| && idx < |right.blocks|
      ensures res <==> blocks[idx] == right.blocks[idx]
    {
      hide Canonical;
      res := listBuffer[idx].Same(right.listBuffer[idx]);
    }

    /** Room reserved so far; it always exceeds the length. */
    method Size() returns (size: nat)
      requires Valid()
      ensures |Contents()| < size <= |Contents()| + blockSize
    {
      LengthOfCanonical(blocks, blockSize);
      size := listSize * blockSize;
      assert listSize * blockSize == (listSize - 1) * blockSize + blockSize;
    }

    /** Copies the stretch [offset, offset + length), cut off at the end, to the front of `buf`. */
    method Read(buf: array<byte>, length: nat, offset: nat) returns (readed: nat)
      requires Valid() && buf !in Repr
      requires length <= buf.Length
      modifies buf
      ensures readed == |Cut(Contents(), offset, length)|
      ensures buf[..] == Overwrite(old(buf[..]), 0, Cut(Contents(), offset, length))
      ensures buf[..readed] == Cut(Contents(), offset, length)
    {
      hide Valid, Flatten, Canonical, ReadUpTo, BlockOf, PositionIn, Cut, Part, Overwrite, Filled;
      Layout();
      ghost var was := buf[..];
      ReadStarts(blocks, blockSize, offset, length, was);
      readed := 0;
      var idx: nat, pos: nat := BlockOf(offset, blockSize), PositionIn(offset, blockSize);
      var left: nat := length;
      while left > 0 && idx < listSize
        invariant readed + left == length
        invariant ReadUpTo(blocks, blockSize, offset, idx, pos, readed, left)
        invariant buf[..] == Filled(was, Flatten(blocks), offset, readed)
      {
        var len := ReadRound(buf, readed, idx, pos, left, offset, was);
        pos := 0;
        readed := readed + len;
        left := left - len;
        idx := idx + 1;
      }
      FilledEnds(blocks, blockSize, offset, idx, pos, readed, left, was);
      ArraySlice(buf, 0, readed);
    }

    /** One round of the read loop takes the destination to the next block. */
    method ReadRound(buf: array<byte>, readed: nat, idx: nat, pos: nat, left: nat, ghost offset: nat, ghost was: seq<byte>)
      returns (len: nat)
      requires Valid() && buf !in Repr
      requires idx < listSize && 0 < left && readed + left <= buf.Length == |was|
      requires ReadUpTo(blocks, blockSize, offset, idx, pos, readed, left)
      requires buf[..] == Filled(was, Flatten(blocks), offset, readed)
      modifies buf
      ensures len <= left && ReadUpTo(blocks, blockSize, offset, idx + 1, 0, readed + len, left - len)
      ensures buf[..] == Filled(was, Flatten(blocks), offset, readed + len)
    {
      hide Valid, Flatten, Canonical, ReadUpTo, Cut, Filled;
      Layout();
      FillsFurther(blocks, blockSize, idx, pos, offset, readed, left, was);
      len := ReadBuffer(buf, readed, idx, pos, left);
    }

    /** Copies what buffer `idx` has from `pos` on, at most `left` bytes. */
    method ReadBuffer(buf: array<byte>, at: nat, idx: nat, pos: nat, left: nat) returns (len: nat)
      requires Valid() && buf !in Repr
      requires idx < listSize && at + left <= buf.Length
      modifies buf
      ensures len == |Part(blocks[idx], pos, left)|
      ensures buf[..] == Overwrite(old(buf[..]), at, Part(blocks[idx], pos, left))
    {
      hide Cut, Canonical;
      var item := listBuffer[idx];
      var sze := item.idx;
      len := if pos + left > sze then (if pos > sze then 0 else sze - pos) else left;
      PartOfBlock(blocks[idx], pos, left);
      if len > 0 {
        SliceOfSlice(item.ptr[..], 0, sze, pos, pos + len);
        assert item.ptr[..][0..sze] == blocks[idx];
        Copy(buf, at, item.ptr, pos, len);
      } else {
        OverwriteNothing(buf[..], at);
      }
    }
  }
}
