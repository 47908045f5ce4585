/** SnappyScatteredWriter: decompression into blocks of 64 KiB that are handed to a sink at the end. */
module ScatteredWriters {
  import opened Arithmetic
  import opened Bytes
  import opened Stream
  import opened Copying
  import opened Format
  import opened ArrayWriters
  import opened SourceSink

  /** Room left in the current block after n of at most limit bytes; the first block is allocated on demand. */
  function BlockRoom(n: nat, limit: nat): (r: nat)
    requires n <= limit
    ensures n + r <= limit
  {
    if n == 0 then 0 else Min(limit, BLOCK_SIZE * ((n - 1) / BLOCK_SIZE) + BLOCK_SIZE) - n
  }

  /** Bytes in the last block when n > 0 bytes are stored. */
  function LastBlock(n: nat): nat
    requires n > 0
  {
    n - BLOCK_SIZE * ((n - 1) / BLOCK_SIZE)
  }

  class ScatteredWriter {
    var blocks: seq<array<byte>>
    var expected: nat
    var fullSize: nat  // total size of the blocks before the current one
    var opPtr: nat     // bytes written in the current block
    var opLimit: nat   // size of the current block
    ghost var contents: seq<byte>

    /** Shape of the block list: all blocks but the last have 65536 bytes, the last what is left up to that. */
    ghost predicate Shape()
      reads this
    {
      && opPtr <= opLimit && fullSize + opLimit <= expected < 0x1_0000_0000
      && (forall i, j :: 0 <= i < j < |blocks| ==> blocks[i] != blocks[j])
      && (forall i :: 0 <= i < |blocks| - 1 ==> blocks[i].Length == BLOCK_SIZE)
      && (blocks == [] ==> fullSize == 0 && opLimit == 0)
      && (blocks != [] ==>
            && fullSize == BLOCK_SIZE * (|blocks| - 1)
            && blocks[|blocks| - 1].Length == opLimit == Min(BLOCK_SIZE, expected - fullSize)
            && opLimit >= 1)
    }

    /** The blocks in order, the last up to opPtr, are the contents. */
    ghost predicate Valid()
      reads this, blocks
      ensures Valid() ==> opPtr <= opLimit && opLimit - opPtr <= expected - |contents|
    {
      && Shape()
      && |contents| == fullSize + opPtr
      && (forall i :: 0 <= i < |blocks| - 1 ==> blocks[i][..] == contents[BLOCK_SIZE * i..BLOCK_SIZE * i + BLOCK_SIZE])
      && (blocks != [] ==> blocks[|blocks| - 1][..opPtr] == contents[fullSize..])
    }

    /** Between operations a block that was started holds something. */
    ghost predicate Rested()
      reads this
    {
      blocks != [] ==> opPtr >= 1
    }

    lemma RoomInBlock()
      requires Valid() && Rested()
      ensures opLimit - opPtr == BlockRoom(|contents|, expected)
    {
      if blocks != [] {
        DivWord(|contents| - 1, BLOCK_SIZE, opPtr - 1, |blocks| - 1);
      }
    }

    constructor ()
      ensures Valid() && contents == [] && expected == 0 && blocks == []
    {
      blocks, contents := [], [];
      expected, fullSize, opPtr, opLimit := 0, 0, 0, 0;
    }

    method SetExpectedLength(len: uint32)
      requires Valid() && blocks == []
      modifies this`expected
      ensures Valid() && expected == len
    {
      expected := len;
    }

    /** Bytes decompressed so far. */
    function Size(): nat
      reads this
    {
      fullSize + opPtr
    }

    method CheckLength() returns (ok: bool)
      requires Valid()
      ensures ok <==> |contents| == expected
    {
      ok := Size() == expected;
    }

    /** Bytes were added to the current block and nothing before them was touched. */
    twostate lemma Grown(add: seq<byte>)
      requires old(Valid()) && unchanged(`blocks, `expected, `fullSize, `opLimit)
      requires opPtr == old(opPtr) + |add| <= opLimit && contents == old(contents) + add
      requires blocks != [] ==> blocks[|blocks| - 1][..opPtr] == old(blocks[|blocks| - 1][..opPtr]) + add
      requires forall i :: 0 <= i < |blocks| - 1 ==> blocks[i][..] == old(blocks[i][..])
      ensures Valid()
    {
      assert contents[fullSize..] == old(contents[fullSize..]) + add;
      forall i | 0 <= i < |blocks| - 1
        ensures blocks[i][..] == contents[BLOCK_SIZE * i..BLOCK_SIZE * i + BLOCK_SIZE]
      {
        assert contents[BLOCK_SIZE * i..BLOCK_SIZE * i + BLOCK_SIZE]
            == old(contents[BLOCK_SIZE * i..BLOCK_SIZE * i + BLOCK_SIZE]);
      }
    }

    /** memcpy into the room left in the current block; with no block yet there is no room. */
    method WriteInBlock(src: seq<byte>)
      requires Valid() && |src| <= opLimit - opPtr
      modifies this`opPtr, this`contents, blocks
      ensures Valid() && opPtr == old(opPtr) + |src| && contents == old(contents) + src
    {
      if blocks != [] {
        var last := blocks[|blocks| - 1];
        Memcpy(last, opPtr, src);
        assert last[..opPtr + |src|] == last[..opPtr] + src;
        assert last[..opPtr] == old(last[..opPtr]);
      }
      opPtr := opPtr + |src|;
      contents := contents + src;
      Grown(src);
    }

    method TryFastAppend(src: seq<byte>, len: nat) returns (ok: bool)
      requires Valid()
      modifies this`opPtr, this`contents, blocks
      ensures Valid()
      ensures ok ==> len <= 16 && len + MAXIMUM_TAG_LENGTH <= |src| && |old(contents)| + len <= expected
      ensures contents == if ok then old(contents) + src[..len] else old(contents)
      ensures old(Rested()) ==> Rested()
    {
      var spaceLeft := opLimit - opPtr;
      if len <= 16 && |src| >= 16 + MAXIMUM_TAG_LENGTH && spaceLeft >= 16 {
        var last := blocks[|blocks| - 1];
        CopySixteen(last, opPtr, src, len);
        assert last[..opPtr + len] == last[..opPtr] + last[opPtr..opPtr + len];
        assert last[..opPtr] == old(last[..opPtr]);
        opPtr := opPtr + len;
        contents := contents + src[..len];
        Grown(src[..len]);
        return true;
      }
      return false;
    }

    /** Blocks are only ever added at the end. */
    ghost predicate BlocksAdded(before: seq<array<byte>>)
      reads this
    {
      before <= blocks
    }

    /** Starts the next block once all blocks so far are full. */
    method NewBlock()
      requires Filled() && fullSize < expected
      modifies this`blocks, this`opPtr, this`opLimit
      ensures Valid() && contents == old(contents) && opPtr == 0 && opLimit >= 1
      ensures BlocksAdded(old(blocks)) && forall i :: |old(blocks)| <= i < |blocks| ==> fresh(blocks[i])
    {
      var bsize := Min(BLOCK_SIZE, expected - fullSize);
      var block := new byte[bsize];
      blocks := blocks + [block];
      opPtr := 0;
      opLimit := bsize;
    }

    /** All blocks are full and counted in fullSize, and the contents are exactly their bytes. */
    ghost predicate Filled()
      reads this, blocks
    {
      && |contents| == fullSize == BLOCK_SIZE * |blocks| <= expected < 0x1_0000_0000
      && (forall i, j :: 0 <= i < j < |blocks| ==> blocks[i] != blocks[j])
      && (forall i :: 0 <= i < |blocks| ==> blocks[i].Length == BLOCK_SIZE)
      && (forall i :: 0 <= i < |blocks| ==> blocks[i][..] == contents[BLOCK_SIZE * i..BLOCK_SIZE * i + BLOCK_SIZE])
    }

    /** Counting the full current block into fullSize leaves every block filled. */
    twostate lemma BlockCounted()
      requires old(Valid()) && unchanged(this`blocks, this`expected, this`opPtr, this`opLimit, this`contents)
      requires unchanged(blocks) && opPtr == opLimit && fullSize == old(fullSize) + opPtr < expected
      ensures Filled()
    {
      if blocks != [] {
        var n := |blocks| - 1;
        assert blocks[n][..] == blocks[n][..opPtr] == contents[BLOCK_SIZE * n..];
        assert contents[BLOCK_SIZE * n..] == contents[BLOCK_SIZE * n..BLOCK_SIZE * n + BLOCK_SIZE];
      }
    }

    /** The state a rejected append leaves behind: the current block is filled and counted twice. */
    ghost predicate Overfull()
      reads this, blocks
    {
      && opPtr == opLimit && |contents| == fullSize <= expected
      && (forall i :: 0 <= i < |blocks| - 1 ==>
            blocks[i].Length == BLOCK_SIZE && BLOCK_SIZE * i + BLOCK_SIZE <= |contents|
            && blocks[i][..] == contents[BLOCK_SIZE * i..BLOCK_SIZE * i + BLOCK_SIZE])
      && (blocks == [] ==> fullSize == 0 && opLimit == 0)
      && (blocks != [] ==>
            && fullSize == BLOCK_SIZE * (|blocks| - 1) + opPtr && 1 <= opPtr <= BLOCK_SIZE
            && blocks[|blocks| - 1].Length == opPtr
            && blocks[|blocks| - 1][..] == contents[fullSize - opPtr..])
    }

    /** One turn of SlowAppend: fill the current block, check the bound, start another block. */
    method FillBlock(src: seq<byte>) returns (ok: bool)
      requires Valid() && |src| > opLimit - opPtr
      modifies this, blocks
      ensures expected == old(expected) && BlocksAdded(old(blocks))
      ensures forall i :: |old(blocks)| <= i < |blocks| ==> fresh(blocks[i])
      ensures ok <==> |old(contents)| + |src| <= expected
      ensures contents == old(contents) + src[..old(opLimit - opPtr)]
      ensures ok ==> Valid() && opPtr == 0 < opLimit
      ensures !ok ==> blocks == old(blocks) && Overfull()
      ensures !ok ==> Size() == |contents| + opPtr && (Size() == |contents| <==> blocks == [])
    {
      var avail := opLimit - opPtr;
      WriteInBlock(src[..avail]);
      label filled:
      fullSize := fullSize + opPtr;
      if fullSize + (|src| - avail) > expected {
        return false;
      }
      BlockCounted@filled();
      NewBlock();
      return true;
    }

    /**
     Appends across blocks. A rejected append still fills the current block; then Size counts that block
     twice, so it is the number of bytes produced only if there was no block at all.
     */
    method SlowAppend(src: seq<byte>) returns (ok: bool)
      requires Valid() && |src| > opLimit - opPtr
      modifies this, blocks
      ensures expected == old(expected) && BlocksAdded(old(blocks))
      ensures forall i :: |old(blocks)| <= i < |blocks| ==> fresh(blocks[i])
      ensures ok <==> |old(contents)| + |src| <= expected
      ensures ok ==> Valid() && contents == old(contents) + src && (old(Rested()) ==> Rested())
      ensures !ok ==> Overfull() && contents == old(contents) + src[..old(opLimit - opPtr)]
      ensures !ok ==> Size() == |contents| + opPtr && (Size() == |contents| <==> blocks == [])
    {
      hide Overfull, Valid, Shape;
      var rest := src;
      ghost var passed := false;  // the bounds check has succeeded once, so it will again
      while |rest| > opLimit - opPtr
        invariant Valid() && expected == old(expected)
        invariant contents + rest == old(contents) + src
        invariant !passed ==> contents == old(contents) && rest == src && opLimit - opPtr == old(opLimit - opPtr)
        invariant passed ==> |contents| + |rest| <= expected && opPtr == 0 < opLimit && |rest| > 0
        invariant BlocksAdded(old(blocks)) && forall i :: |old(blocks)| <= i < |blocks| ==> fresh(blocks[i])
        decreases |rest|, !passed
      {
        var avail := opLimit - opPtr;
        ok := FillBlock(rest);
        if !ok {
          return;
        }
        rest := rest[avail..];
        passed := true;
      }
      WriteInBlock(rest);
      return true;
    }

    method Append(src: seq<byte>) returns (ok: bool)
      requires Valid()
      modifies this, blocks
      ensures expected == old(expected) && BlocksAdded(old(blocks))
      ensures forall i :: |old(blocks)| <= i < |blocks| ==> fresh(blocks[i])
      ensures ok <==> |old(contents)| + |src| <= expected
      ensures ok ==> Valid() && contents == old(contents) + src && (old(Rested()) ==> Rested())
      ensures !ok ==> Overfull() && contents == old(contents) + src[..old(opLimit - opPtr)]
      ensures !ok ==> old(contents) <= contents <= old(contents) + src
      ensures !ok ==> Size() == |contents| + opPtr && (Size() == |contents| <==> blocks == [])
    {
      hide Valid, Shape, Overfull;
      var avail := opLimit - opPtr;
      if |src| <= avail {
        WriteInBlock(src);
        ok := true;
      } else {
        ok := SlowAppend(src);
      }
    }

    /** Byte i of the stream is found by its block number and its offset in the block. */
    lemma ByteAt(i: nat)
      requires Valid() && i < |contents|
      ensures i / BLOCK_SIZE < |blocks| && i % BLOCK_SIZE < blocks[i / BLOCK_SIZE].Length
      ensures blocks[i / BLOCK_SIZE][i % BLOCK_SIZE] == contents[i]
    {
    }

    method ReadByte(i: nat) returns (c: byte)
      requires Valid() && i < |contents|
      ensures c == contents[i]
    {
      ByteAt(i);
      c := blocks[i / BLOCK_SIZE][i % BLOCK_SIZE];
    }

    lemma SizeIsLength()
      requires Valid()
      ensures Size() == |contents| <= expected < 0x1_0000_0000
    {
    }

    /** Byte by byte through the block list, for copies that leave the current block. */
    method SlowAppendFromSelf(offset: uint64, len: nat) returns (ok: bool)
      requires Valid()
      modifies this, blocks
      ensures Valid() && expected == old(expected) && BlocksAdded(old(blocks))
      ensures forall i :: |old(blocks)| <= i < |blocks| ==> fresh(blocks[i])
      ensures ok <==> CopyFits(old(contents), expected, offset, len)
      ensures contents == if ok then CopyFromSelf(old(contents), offset, len) else old(contents)
      ensures old(Rested()) ==> Rested()
    {
      hide CopyFromSelf, Shape, Valid, Overfull;
      SizeIsLength();
      var cur := Size();
      if cur <= WrapDecrement(offset) {
        return false;
      }
      if expected - cur < len {
        return false;
      }
      var src, n: nat := cur - offset, len;
      CopyNothing(contents, offset);
      while n > 0
        invariant Valid() && expected == old(expected) && n <= len && src == |contents| - offset
        invariant contents == CopyFromSelf(old(contents), offset, len - n) && (old(Rested()) ==> Rested())
        invariant BlocksAdded(old(blocks)) && forall i :: |old(blocks)| <= i < |blocks| ==> fresh(blocks[i])
      {
        var c := ReadByte(src);
        CopyOneMore(old(contents), offset, len - n);
        var fits := Append([c]);
        src, n := src + 1, n - 1;
      }
      return true;
    }

    method AppendFromSelf(offset: uint64, len: nat) returns (ok: bool)
      requires Valid() && len >= 1
      modifies this, blocks
      ensures Valid() && expected == old(expected) && BlocksAdded(old(blocks))
      ensures forall i :: |old(blocks)| <= i < |blocks| ==> fresh(blocks[i])
      ensures ok <==> CopyFits(old(contents), expected, offset, len)
      ensures contents == if ok then CopyFromSelf(old(contents), offset, len) else old(contents)
      ensures old(Rested()) ==> Rested()
    {
      if WrapDecrement(offset) < opPtr && opLimit - opPtr >= len + MAX_INCREMENT_COPY_OVERFLOW {
        CopyInBlock(offset, len);
        return true;
      }
      ok := SlowAppendFromSelf(offset, len);
    }

    /** Source and destination both lie in the current block. */
    method CopyInBlock(offset: nat, len: nat)
      requires Valid() && 1 <= len && 1 <= offset <= opPtr
      requires opLimit - opPtr >= len + MAX_INCREMENT_COPY_OVERFLOW
      modifies this`opPtr, this`contents, blocks
      ensures Valid() && contents == CopyFromSelf(old(contents), offset, len)
    {
      hide CopyFromSelf;
      var last := blocks[|blocks| - 1];
      ghost var pre, tail := contents[..fullSize], last[..opPtr];
      assert contents == pre + tail;
      IncrementalCopyFastPath(last, opPtr - offset, opPtr, len);
      ghost var copied := last[..opPtr + len];
      CopyOntoTail(pre, tail, copied, offset, len);
      ghost var add := copied[opPtr..];
      opPtr := opPtr + len;
      contents := contents + add;
      Grown(add);
    }

    /** The blocks hold the contents, and limiting each block to what Size still covers yields exactly them. */
    ghost predicate Stored()
      reads this, blocks
    {
      && (blocks == [] ==> contents == [])
      && (blocks != [] ==>
            var full := BLOCK_SIZE * (|blocks| - 1);
            && full <= |contents| && |contents| - full == Min(blocks[|blocks| - 1].Length, Size() - full)
            && blocks[|blocks| - 1][..|contents| - full] == contents[full..])
      && (forall i :: 0 <= i < |blocks| - 1 ==> blocks[i].Length == BLOCK_SIZE)
      && (forall i :: 0 <= i < |blocks| - 1 ==> blocks[i][..] == contents[BLOCK_SIZE * i..BLOCK_SIZE * i + BLOCK_SIZE])
      && |contents| <= Size()
    }

    lemma StatesAreStored()
      ensures Valid() ==> Stored()
      ensures Overfull() ==> Stored()
    {
    }

    /** After a rejected append Size exceeds what is stored by the last block, if there is one. */
    lemma SizeWhenOverfull()
      requires Overfull()
      ensures Size() == |contents| + if contents == [] then 0 else LastBlock(|contents|)
    {
      if blocks != [] {
        DivWord(|contents| - 1, BLOCK_SIZE, opPtr - 1, |blocks| - 1);
      }
    }

    /** Hands the blocks to the sink, the last one cut to its used part; after a rejection the same bytes go out. */
    method Flush(sink: ArraySink)
      requires (Valid() || Overfull()) && sink.Valid() && sink.pos + |contents| <= sink.dest.Length
      requires sink.dest !in blocks
      modifies sink`pos, sink.dest
      ensures sink.Valid() && old(sink.pos) <= sink.pos && sink.dest[old(sink.pos)..sink.pos] == contents
      ensures OnlyChanged(sink.dest, old(sink.pos), sink.pos)
    {
      StatesAreStored();
      hide Valid, Overfull, Shape;
      ghost var start := sink.pos;
      var sizeWritten, i := 0, 0;
      while i < |blocks|
        invariant 0 <= i <= |blocks| && sizeWritten == (if i < |blocks| then BLOCK_SIZE * i else |contents|)
        invariant sink.Valid() && sink.pos == start + sizeWritten && sizeWritten <= |contents|
        invariant Stored() && sink.dest[start..sink.pos] == contents[..sizeWritten]
        invariant OnlyChanged(sink.dest, start, sink.pos)
      {
        var blockSize := Min(blocks[i].Length, Size() - sizeWritten);
        FlushBlock(sink, i, blockSize, start, sizeWritten);
        sizeWritten := sizeWritten + blockSize;
        i := i + 1;
      }
    }

    method FlushBlock(sink: ArraySink, i: nat, blockSize: nat, ghost start: nat, ghost written: nat)
      requires Stored() && i < |blocks| && sink.Valid() && sink.dest !in blocks
      requires written == BLOCK_SIZE * i <= |contents| && blockSize == Min(blocks[i].Length, Size() - written)
      requires sink.pos == start + written && start + |contents| <= sink.dest.Length
      requires sink.dest[start..sink.pos] == contents[..written]
      modifies sink`pos, sink.dest
      ensures Stored() && sink.Valid() && sink.pos == old(sink.pos) + blockSize
      ensures written + blockSize == if i == |blocks| - 1 then |contents| else BLOCK_SIZE * (i + 1)
      ensures written + blockSize <= |contents|
      ensures sink.dest[start..sink.pos] == contents[..written + blockSize]
      ensures OnlyChanged(sink.dest, old(sink.pos), sink.pos)
    {
      ghost var block := blocks[i][..];
      assert block[..blockSize] == blocks[i][0..blockSize];
      if i == |blocks| - 1 {
        assert contents[written..written + blockSize] == contents[written..] == block[..blockSize];
      } else {
        assert blockSize == BLOCK_SIZE && block[..blockSize] == block;
      }
      assert contents[written..written + blockSize] == block[..blockSize];
      assert contents[..written + blockSize] == contents[..written] + contents[written..written + blockSize];
      sink.Append(blocks[i], 0, blockSize);
      assert sink.dest[start..sink.pos] == sink.dest[start..old(sink.pos)] + sink.dest[old(sink.pos)..sink.pos];
      assert sink.dest[start..old(sink.pos)] == old(sink.dest[start..sink.pos]);
    }
  }
}
