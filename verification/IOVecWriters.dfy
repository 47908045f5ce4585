/** SnappyIOVecWriter: decompression into a list of separate buffers. */
module IOVecWriters {
  import opened Bytes
  import opened Stream
  import opened Copying
  import opened ArrayWriters

  /** Number of bytes in the first i buffers. */
  function BufferStart(iov: seq<array<byte>>, i: nat): nat
    requires i <= |iov|
  {
    if i == 0 then 0 else BufferStart(iov, i - 1) + iov[i - 1].Length
  }

  /** The first n buffers, one after the other. */
  ghost function Gathered(iov: seq<array<byte>>, n: nat): (all: seq<byte>)
    requires n <= |iov|
    reads iov
    ensures |all| == BufferStart(iov, n)
  {
    if n == 0 then [] else Gathered(iov, n - 1) + iov[n - 1][..]
  }

  lemma {:induction false} GatheredAt(iov: seq<array<byte>>, n: nat, i: nat, k: nat)
    requires i < n <= |iov| && k < iov[i].Length
    ensures BufferStart(iov, i) + k < BufferStart(iov, n)
    ensures Gathered(iov, n)[BufferStart(iov, i) + k] == iov[i][k]
  {
    if i < n - 1 {
      GatheredAt(iov, n - 1, i, k);
    }
  }

  /** Position j of the gathered bytes is byte j - BufferStart(iov, i) of the buffer i returned. */
  lemma {:induction false} Position(iov: seq<array<byte>>, n: nat, j: nat) returns (i: nat)
    requires n <= |iov| && j < BufferStart(iov, n)
    ensures i < n && BufferStart(iov, i) <= j < BufferStart(iov, i) + iov[i].Length
  {
    if j < BufferStart(iov, n - 1) {
      i := Position(iov, n - 1, j);
    } else {
      i := n - 1;
    }
  }

  class IOVecWriter {
    const iov: seq<array<byte>>
    var currIndex: nat     // buffer being written
    var currWritten: nat   // bytes written to it
    var totalWritten: nat
    var outputLimit: nat
    ghost var contents: seq<byte>

    /** Stream position of the first byte of buffer i, and the total capacity for i == |iov|. */
    ghost function Start(i: nat): nat
      requires i <= |iov|
    {
      BufferStart(iov, i)
    }

    lemma {:induction false} StartMonotone(i: nat, j: nat)
      requires i <= j <= |iov|
      ensures Start(i) <= Start(j)
      ensures i < j ==> Start(i) + iov[i].Length <= Start(j)
      decreases j
    {
      if i < j {
        StartMonotone(i, j - 1);
      }
    }

    ghost predicate Shape()
      reads this
    {
      && (forall i, j :: 0 <= i < j < |iov| ==> iov[i] != iov[j])
      && currIndex < |iov| && currWritten <= iov[currIndex].Length
      && totalWritten == |contents| == Start(currIndex) + currWritten
      && |contents| <= outputLimit <= Start(|iov|)
    }

    /** Buffer i, before the current one, is full and holds its stretch of the contents. */
    ghost predicate Holds(i: nat)
      requires i < |iov|
      reads this, iov[i]
    {
      Start(i) + iov[i].Length <= |contents| && iov[i][..] == contents[Start(i)..Start(i) + iov[i].Length]
    }

    ghost predicate Valid()
      reads this, iov
      ensures Valid() ==> currIndex < |iov| && currWritten <= iov[currIndex].Length
      ensures Valid() ==> totalWritten == |contents| <= outputLimit
    {
      && Shape()
      && (forall i :: 0 <= i < currIndex ==> Holds(i))
      && iov[currIndex][..currWritten] == contents[Start(currIndex)..]
    }

    /** What the buffers hold past the expected length. */
    ghost function Beyond(): seq<byte>
      requires Valid()
      reads this, iov
    {
      Gathered(iov, |iov|)[outputLimit..]
    }

    constructor (iov: seq<array<byte>>)
      requires iov != [] && forall i, j :: 0 <= i < j < |iov| ==> iov[i] != iov[j]
      ensures this.iov == iov && currIndex == 0 && currWritten == 0 && totalWritten == 0 && contents == []
    {
      this.iov := iov;
      currIndex, currWritten, totalWritten := 0, 0, 0;
      outputLimit := 0xffff_ffff_ffff_ffff;
      contents := [];
    }

    /** The buffers together must hold at least the expected length. */
    method SetExpectedLength(len: uint32)
      requires iov != [] && forall i, j :: 0 <= i < j < |iov| ==> iov[i] != iov[j]
      requires currIndex == 0 && currWritten == 0 && totalWritten == 0 && contents == []
      requires len <= Start(|iov|)
      modifies this`outputLimit
      ensures Valid() && outputLimit == len && Beyond() == old(Gathered(iov, |iov|))[len..]
    {
      outputLimit := len;
    }

    method CheckLength() returns (ok: bool)
      requires Valid()
      ensures ok <==> |contents| == outputLimit
    {
      ok := totalWritten == outputLimit;
    }

    /** The current buffer received more bytes after the ones it had; no other buffer was touched. */
    twostate lemma Grown(add: seq<byte>)
      requires old(Valid()) && unchanged(`currIndex, `outputLimit)
      requires currWritten == old(currWritten) + |add| <= iov[currIndex].Length
      requires totalWritten == old(totalWritten) + |add| <= outputLimit && contents == old(contents) + add
      requires iov[currIndex][..currWritten] == old(iov[currIndex][..currWritten]) + add
      requires forall i :: 0 <= i < currIndex ==> iov[i][..] == old(iov[i][..])
      ensures Valid()
    {
      var s := Start(currIndex);
      assert contents[s..] == old(contents[s..]) + add;
      forall i | 0 <= i < currIndex
        ensures Holds(i)
      {
        assert old(Holds(i));
        assert contents[Start(i)..Start(i) + iov[i].Length] == old(contents[Start(i)..Start(i) + iov[i].Length]);
      }
    }

    /** Writing to the current buffer below the expected length leaves alone what lies past it. */
    twostate lemma TailKept(hi: nat)
      requires old(Valid()) && Valid() && currIndex == old(currIndex) && outputLimit == old(outputLimit)
      requires Start(currIndex) + hi <= outputLimit
      requires forall k :: hi <= k < iov[currIndex].Length ==> iov[currIndex][k] == old(iov[currIndex][k])
      requires forall i :: 0 <= i < |iov| && i != currIndex ==> iov[i][..] == old(iov[i][..])
      ensures Beyond() == old(Beyond())
    {
      var n := 0;
      while n < |iov|
        invariant n <= |iov| && |old(Gathered(iov, n))| == BufferStart(iov, n)
        invariant forall j :: outputLimit <= j < BufferStart(iov, n) ==> Gathered(iov, n)[j] == old(Gathered(iov, n))[j]
      {
        var s, a, b := BufferStart(iov, n), Gathered(iov, n + 1), old(Gathered(iov, n + 1));
        forall j | outputLimit <= j < |a|
          ensures a[j] == b[j]
        {
          if j >= s {
            assert iov[n][j - s] == old(iov[n][j - s]) by {
              if n != currIndex {
                assert iov[n][..][j - s] == old(iov[n][..])[j - s];
              }
            }
          }
        }
        n := n + 1;
      }
      assert Beyond() == old(Beyond());
    }

    /** memcpy into the current buffer. */
    method WriteHere(src: seq<byte>)
      requires Valid() && |src| <= iov[currIndex].Length - currWritten && |contents| + |src| <= outputLimit
      modifies this`currWritten, this`totalWritten, this`contents, iov[currIndex]
      ensures Valid() && contents == old(contents) + src && currWritten == old(currWritten) + |src|
      ensures Beyond() == old(Beyond())
    {
      var buf := iov[currIndex];
      Memcpy(buf, currWritten, src);
      assert buf[..currWritten + |src|] == buf[..currWritten] + src;
      assert buf[..currWritten] == old(buf[..currWritten]);
      currWritten := currWritten + |src|;
      totalWritten := totalWritten + |src|;
      contents := contents + src;
      Grown(src);
      TailKept(currWritten);
    }

    /** The current buffer is full and more is expected, so there is another buffer. */
    lemma MoreRoom()
      requires Valid() && currWritten == iov[currIndex].Length && |contents| < outputLimit
      ensures currIndex + 1 < |iov|
    {
    }

    method NextBuffer()
      requires Valid() && currWritten == iov[currIndex].Length && currIndex + 1 < |iov|
      modifies this`currIndex, this`currWritten
      ensures Valid() && currIndex == old(currIndex) + 1 && currWritten == 0 && outputLimit == old(outputLimit)
      ensures Beyond() == old(Beyond())
    {
      assert Holds(currIndex) by {
        assert iov[currIndex][..] == iov[currIndex][..currWritten];
        assert contents[Start(currIndex)..] == contents[Start(currIndex)..Start(currIndex) + currWritten];
      }
      label before:
      currWritten := 0;
      currIndex := currIndex + 1;
      forall i | 0 <= i < currIndex
        ensures Holds(i)
      {
        assert old@before(Holds(i));
      }
    }

    method Append(src: seq<byte>) returns (ok: bool)
      requires Valid()
      modifies this, iov[currIndex..]
      ensures Valid() && outputLimit == old(outputLimit) && old(currIndex) <= currIndex
      ensures ok <==> |old(contents)| + |src| <= outputLimit
      ensures contents == if ok then old(contents) + src else old(contents)
      ensures Beyond() == old(Beyond())
    {
      hide Shape, Holds, Valid, Beyond;
      if totalWritten + |src| > outputLimit {
        return false;
      }
      var rest := src;
      while |rest| > 0
        invariant Valid() && outputLimit == old(outputLimit) && old(currIndex) <= currIndex
        invariant contents + rest == old(contents) + src && |old(contents)| + |src| <= outputLimit
        invariant Beyond() == old(Beyond())
        decreases |rest|, |iov| - currIndex
      {
        if currWritten >= iov[currIndex].Length {
          MoreRoom();
          if currIndex + 1 >= |iov| {
            return false;
          }
          NextBuffer();
        }
        var toWrite := Min(|rest|, iov[currIndex].Length - currWritten);
        WriteHere(rest[..toWrite]);
        rest := rest[toWrite..];
      }
      return true;
    }

    method TryFastAppend(src: seq<byte>, len: nat) returns (ok: bool)
      requires Valid()
      modifies this, iov[currIndex]
      ensures Valid() && outputLimit == old(outputLimit) && currIndex == old(currIndex)
      ensures ok ==> len <= 16 && len + MAXIMUM_TAG_LENGTH <= |src| && |old(contents)| + len <= outputLimit
      ensures contents == if ok then old(contents) + src[..len] else old(contents)
      ensures Beyond() == old(Beyond())
    {
      var spaceLeft := outputLimit - totalWritten;
      if len <= 16 && |src| >= 16 + MAXIMUM_TAG_LENGTH && spaceLeft >= 16
         && iov[currIndex].Length - currWritten >= 16 {
        var buf, w := iov[currIndex], currWritten;
        CopySixteen(buf, w, src, len);
        assert buf[..w + len] == buf[..w] + buf[w..w + len];
        assert buf[..w] == old(buf[..w]);
        currWritten := currWritten + len;
        totalWritten := totalWritten + len;
        contents := contents + src[..len];
        Grown(src[..len]);
        TailKept(w + 16);
        return true;
      }
      return false;
    }

    /** Stream position pos lies at offset in buffer index; offset may be one past its end. */
    ghost predicate Locates(index: nat, offset: nat, pos: nat)
      reads this
    {
      index <= currIndex < |iov| && offset <= iov[index].Length && Start(index) + offset == pos
    }

    /** Walks back from the write position, buffer by buffer, to the byte offset0 positions before it. */
    method Locate(offset0: nat) returns (fromIndex: nat, fromOffset: nat)
      requires Valid() && 1 <= offset0 <= |contents|
      ensures Locates(fromIndex, fromOffset, |contents| - offset0)
      ensures fromOffset < (if fromIndex == currIndex then currWritten else iov[fromIndex].Length)
    {
      fromIndex, fromOffset := currIndex, currWritten;
      var offset := offset0;
      while offset > 0
        invariant fromIndex <= currIndex && offset > 0
        invariant fromOffset <= (if fromIndex == currIndex then currWritten else iov[fromIndex].Length)
        invariant Start(fromIndex) + fromOffset - offset == |contents| - offset0
        decreases fromIndex
      {
        if fromOffset >= offset {
          fromOffset := fromOffset - offset;
          break;
        }
        offset := offset - fromOffset;
        fromIndex := fromIndex - 1;
        fromOffset := iov[fromIndex].Length;
      }
    }

    method AppendFromSelf(offset: uint64, len0: nat) returns (ok: bool)
      requires Valid()
      modifies this, iov[currIndex..]
      ensures Valid() && outputLimit == old(outputLimit)
      ensures ok <==> CopyFits(old(contents), outputLimit, offset, len0)
      ensures contents == if ok then CopyFromSelf(old(contents), offset, len0) else old(contents)
      ensures Beyond() == old(Beyond())
    {
      hide CopyFromSelf, Shape, Holds, Valid, Beyond;
      if offset > totalWritten || offset == 0 {
        return false;
      }
      var spaceLeft := outputLimit - totalWritten;
      if len0 > spaceLeft {
        return false;
      }
      var len: nat, fromIndex: nat, fromOffset: nat := len0, 0, 0;
      fromIndex, fromOffset := Locate(offset);
      CopyNothing(contents, offset);
      while len > 0
        invariant Valid() && outputLimit == old(outputLimit) && len <= len0 && old(currIndex) <= currIndex
        invariant contents == CopyFromSelf(old(contents), offset, len0 - len)
        invariant Beyond() == old(Beyond())
        invariant len > 0 ==> Locates(fromIndex, fromOffset, |contents| - offset)
        decreases len, 2 * |iov| - currIndex - fromIndex
      {
        var copied;
        copied, fromIndex, fromOffset := CopyPiece(offset, fromIndex, fromOffset, len);
        CopySplit(old(contents), offset, len0 - len, copied);
        len := len - copied;
      }
      return true;
    }

    /** One turn of the copy loop: a stretch from an earlier buffer, a step to the next buffer, or a copy in place. */
    method CopyPiece(ghost offset: nat, index: nat, at: nat, len: nat)
      returns (copied: nat, fromIndex: nat, fromOffset: nat)
      requires Valid() && len > 0 && |contents| + len <= outputLimit
      requires 1 <= offset <= |contents| && Locates(index, at, |contents| - offset)
      modifies this, iov[currIndex..]
      ensures Valid() && outputLimit == old(outputLimit) && old(currIndex) <= currIndex
      ensures copied <= len && contents == CopyFromSelf(old(contents), offset, copied)
      ensures copied < len ==> Locates(fromIndex, fromOffset, |contents| - offset)
      ensures copied == 0 ==> currIndex + fromIndex > old(currIndex) + index
      ensures Beyond() == old(Beyond())
    {
      hide CopyFromSelf, Beyond;
      fromIndex, fromOffset := index, at;
      if fromIndex != currIndex {
        copied := Min(iov[fromIndex].Length - fromOffset, len);
        CopyEarlier(fromIndex, fromOffset, copied, offset);
        if copied < len {
          fromIndex := fromIndex + 1;
          fromOffset := 0;
        }
      } else {
        copied := Min(iov[currIndex].Length - currWritten, len);
        if copied == 0 {
          CopyNothing(contents, offset);
          MoreRoom();
          NextBuffer();
          return;
        }
        CopyHere(fromOffset, copied, offset);
        fromOffset := fromOffset + copied;
      }
    }

    /** Copies from a buffer before the current one, which never overlaps what is being written. */
    method CopyEarlier(index: nat, at: nat, n: nat, ghost offset: nat)
      requires Valid() && index < currIndex && at + n <= iov[index].Length && |contents| + n <= outputLimit
      requires 1 <= offset <= |contents| && Locates(index, at, |contents| - offset)
      modifies this, iov[currIndex..]
      ensures Valid() && outputLimit == old(outputLimit) && old(currIndex) <= currIndex
      ensures contents == CopyFromSelf(old(contents), offset, n)
      ensures Beyond() == old(Beyond())
    {
      hide Beyond;
      ghost var pos := |contents| - offset;
      StartMonotone(index, currIndex);
      var src := iov[index][at..at + n];
      assert src == contents[pos..pos + n] by {
        assert Holds(index);
        assert iov[index][..][at..at + n] == src;
        SliceOfSlice(contents, Start(index), Start(index) + iov[index].Length, at, at + n);
      }
      CopyDisjoint(contents, offset, n);
      var ok := Append(src);
    }

    /** Copies within the current buffer, possibly onto the bytes being produced. */
    method CopyHere(at: nat, n: nat, ghost offset: nat)
      requires Valid() && 1 <= n <= iov[currIndex].Length - currWritten && |contents| + n <= outputLimit
      requires 1 <= offset <= |contents| && Locates(currIndex, at, |contents| - offset)
      modifies this`currWritten, this`totalWritten, this`contents, iov[currIndex]
      ensures Valid() && contents == CopyFromSelf(old(contents), offset, n)
      ensures currWritten == old(currWritten) + n
      ensures Beyond() == old(Beyond())
    {
      hide CopyFromSelf, Gathered, Beyond;
      var buf, w := iov[currIndex], currWritten;
      ghost var pre, tail := contents[..Start(currIndex)], buf[..w];
      assert contents == pre + tail;
      IncrementalCopy(buf, at, w, n);
      ghost var add := buf[..w + n][w..];
      CopyOntoTail(pre, tail, buf[..w + n], offset, n);
      currWritten := currWritten + n;
      totalWritten := totalWritten + n;
      contents := contents + add;
      Grown(add);
      TailKept(currWritten);
    }

    lemma BuffersHold()
      requires Valid()
      ensures contents <= Gathered(iov, |iov|)
    {
      StartMonotone(currIndex, |iov|);
      forall j | 0 <= j < |contents|
        ensures Gathered(iov, |iov|)[j] == contents[j]
      {
        var i := Position(iov, |iov|, j);
        var k := j - Start(i);
        GatheredAt(iov, |iov|, i, k);
        if i < currIndex {
          assert Holds(i);
          assert iov[i][..][k] == contents[Start(i)..Start(i) + iov[i].Length][k];
        } else {
          StartMonotone(currIndex, i);
          assert iov[i][..currWritten][k] == contents[Start(i)..][k];
        }
      }
    }
  }
}
