/** SnappyArrayWriter: decompression into one flat buffer. */
module ArrayWriters {
  import opened Bytes
  import opened Stream
  import opened Copying

  const MAXIMUM_TAG_LENGTH := 5

  /** x - 1u in 64-bit arithmetic: zero wraps to a number larger than any output position. */
  function WrapDecrement(x: uint64): uint64 {
    if x == 0 then 0xffff_ffff_ffff_ffff else x - 1
  }

  /** The space and offset test every writer must make before it copies from its own output. */
  predicate CopyFits(out: seq<byte>, limit: nat, offset: nat, len: nat) {
    1 <= offset <= |out| && |out| + len <= limit
  }

  class ArrayWriter {
    const base: array<byte>
    var op: nat
    var opLimit: nat

    ghost predicate Valid()
      reads this
    {
      op <= opLimit <= base.Length && opLimit < 0x1_0000_0000
    }

    ghost function Contents(): seq<byte>
      requires Valid()
      reads this, base
    {
      base[..op]
    }

    constructor (dst: array<byte>)
      ensures Valid() && base == dst && Contents() == [] && opLimit == 0
    {
      base := dst;
      op := 0;
      opLimit := 0;
    }

    method SetExpectedLength(len: uint32)
      requires Valid() && op + len <= base.Length && op + len < 0x1_0000_0000
      modifies this`opLimit
      ensures Valid() && opLimit == op + len
    {
      opLimit := op + len;
    }

    method CheckLength() returns (ok: bool)
      requires Valid()
      ensures ok <==> |Contents()| == opLimit
    {
      ok := op == opLimit;
    }

    method Append(src: seq<byte>) returns (ok: bool)
      requires Valid()
      modifies this`op, base
      ensures Valid() && (ok <==> |old(Contents())| + |src| <= opLimit)
      ensures Contents() == if ok then old(Contents()) + src else old(Contents())
      ensures OnlyChanged(base, old(op), opLimit)
    {
      var spaceLeft := opLimit - op;
      if spaceLeft < |src| {
        return false;
      }
      Memcpy(base, op, src);
      op := op + |src|;
      assert base[..op] == base[..old(op)] + base[old(op)..op];
      return true;
    }

    /** src holds all the bytes available; sixteen are moved whatever len is. */
    method TryFastAppend(src: seq<byte>, len: nat) returns (ok: bool)
      requires Valid()
      modifies this`op, base
      ensures Valid()
      ensures ok ==> len <= 16 && len + MAXIMUM_TAG_LENGTH <= |src| && |old(Contents())| + len <= opLimit
      ensures Contents() == if ok then old(Contents()) + src[..len] else old(Contents())
      ensures OnlyChanged(base, old(op), opLimit)
    {
      var spaceLeft := opLimit - op;
      if len <= 16 && |src| >= 16 + MAXIMUM_TAG_LENGTH && spaceLeft >= 16 {
        CopySixteen(base, op, src, len);
        op := op + len;
        assert base[..op] == base[..old(op)] + base[old(op)..op];
        return true;
      }
      return false;
    }

    method AppendFromSelf(offset: uint64, len: nat) returns (ok: bool)
      requires Valid() && len >= 1
      modifies this`op, base
      ensures Valid() && (ok <==> CopyFits(old(Contents()), opLimit, offset, len))
      ensures Contents() == if ok then CopyFromSelf(old(Contents()), offset, len) else old(Contents())
      ensures OnlyChanged(base, old(op), opLimit)
    {
      hide CopyFromSelf;
      var spaceLeft := opLimit - op;
      if op <= WrapDecrement(offset) {
        return false;
      }
      if len <= 16 && offset >= 8 && spaceLeft >= 16 {
        CopySixteenBack(base, op - offset, op, len);
      } else if spaceLeft >= len + MAX_INCREMENT_COPY_OVERFLOW {
        IncrementalCopyFastPath(base, op - offset, op, len);
      } else {
        if spaceLeft < len {
          return false;
        }
        IncrementalCopy(base, op - offset, op, len);
      }
      op := op + len;
      return true;
    }
  }
}
