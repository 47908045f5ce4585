/** The validating writer, and the writer parameter of the decoder: any of the four writers. */
module Writers {
  import opened Bytes
  import opened Stream
  import opened ArrayWriters
  import opened ScatteredWriters
  import opened IOVecWriters
  import opened Runs

  /** SnappyDecompressionValidator: counts what a real writer would have stored. */
  class ValidatingWriter {
    var expected: nat
    var produced: nat
    ghost var contents: seq<byte>  // the bytes accepted

    ghost predicate Valid()
      reads this
    {
      produced == |contents| <= expected < 0x1_0000_0000
    }

    constructor ()
      ensures Valid() && contents == [] && expected == 0
    {
      expected, produced := 0, 0;
      contents := [];
    }

    method SetExpectedLength(len: uint32)
      requires Valid() && contents == []
      modifies this`expected
      ensures Valid() && expected == len
    {
      expected := len;
    }

    method CheckLength() returns (ok: bool)
      requires Valid()
      ensures ok <==> |contents| == expected
    {
      ok := expected == produced;
    }

    method Append(src: seq<byte>) returns (ok: bool)
      requires Valid()
      modifies this
      ensures expected == old(expected) && (ok <==> |old(contents)| + |src| <= expected)
      ensures ok ==> Valid() && contents == old(contents) + src
      ensures !ok ==> contents == old(contents)
    {
      produced := produced + |src|;
      ok := produced <= expected;
      contents := if ok then contents + src else contents;
    }

    method TryFastAppend(src: seq<byte>, len: nat) returns (ok: bool)
      ensures !ok
    {
      ok := false;
    }

    method AppendFromSelf(offset: uint64, len: nat) returns (ok: bool)
      requires Valid() && len >= 1
      modifies this
      ensures expected == old(expected) && (ok <==> CopyFits(old(contents), expected, offset, len))
      ensures ok ==> Valid() && contents == CopyFromSelf(old(contents), offset, len)
      ensures !ok ==> contents == old(contents)
      ensures !(1 <= offset <= |old(contents)|) ==> Valid()
    {
      if produced <= WrapDecrement(offset) {
        return false;
      }
      produced := produced + len;
      ok := produced <= expected;
      contents := if ok then CopyFromSelf(contents, offset, len) else contents;
    }
  }

  /** The decoder is written once for all writers; each alternative stands for one instantiation. */
  datatype Writer =
    | Flat(flat: ArrayWriter)
    | IOVec(iovec: IOVecWriter)
    | Scattered(scattered: ScatteredWriter)
    | Validating(validating: ValidatingWriter)
  {
    ghost function Repr(): (repr: set<object>)
      reads if Scattered? then {scattered} else {}
      ensures Scattered? ==> scattered in repr
    {
      match this
      case Flat(w) => {w, w.base}
      case IOVec(w) => {w} + (set i | 0 <= i < |w.iov| :: w.iov[i] as object)
      case Scattered(w) => {w} + (set i | 0 <= i < |w.blocks| :: w.blocks[i] as object)
      case Validating(w) => {w}
    }

    ghost predicate Valid()
      reads Repr()
      ensures Valid() ==> Settled()
    {
      match this
      case Flat(w) => w.Valid()
      case IOVec(w) => w.Valid()
      case Scattered(w) => w.Valid() && w.Rested()
      case Validating(w) => w.Valid()
    }

    /** What still holds after a rejected operation ended the decoding. */
    ghost predicate Settled()
      reads Repr()
    {
      match this
      case Flat(w) => w.Valid()
      case IOVec(w) => w.Valid()
      case Scattered(w) => w.Valid() || w.Overfull()
      case Validating(w) => |w.contents| <= w.expected
    }

    /** The last operation, if it was rejected, left the scattered writer as it was. */
    ghost predicate Intact()
      reads Repr()
    {
      Scattered? ==> scattered.Valid()
    }

    lemma ValidIsIntact()
      ensures Valid() ==> Intact()
    {
    }

    /** The last operation was a rejected append: the scattered writer has filled its block and counted it twice. */
    ghost predicate Spilled()
      reads Repr()
    {
      Scattered? ==> scattered.Overfull()
    }

    /** The bytes produced so far. */
    ghost function Out(): (out: seq<byte>)
      requires Settled()
      reads Repr()
      ensures |out| <= Limit()
    {
      match this
      case Flat(w) => w.Contents()
      case IOVec(w) => w.contents
      case Scattered(w) => w.contents
      case Validating(w) => w.contents
    }

    ghost function Limit(): nat
      reads Repr()
    {
      match this
      case Flat(w) => w.opLimit
      case IOVec(w) => w.outputLimit
      case Scattered(w) => w.expected
      case Validating(w) => w.expected
    }

    /** What the caller's buffers hold past the expected length. */
    ghost function Beyond(): seq<byte>
      requires Settled()
      reads Repr()
    {
      match this
      case Flat(w) => w.base[w.opLimit..]
      case IOVec(w) => w.Beyond()
      case _ => []
    }

    /** All that the caller's buffers hold. */
    ghost function Buffers(): (all: seq<byte>)
      reads Repr()
    {
      match this
      case Flat(w) => w.base[..]
      case IOVec(w) => Gathered(w.iov, |w.iov|)
      case _ => []
    }

    lemma BeyondLimit()
      requires Settled() && (Flat? || IOVec?)
      ensures Limit() <= |Buffers()| && Beyond() == Buffers()[Limit()..]
    {
    }

    lemma CapacityOfBuffers()
      ensures Flat? || IOVec? ==> Capacity() == |Buffers()|
    {
    }

    /** A writer just constructed. */
    ghost predicate Unused()
      reads Repr()
    {
      match this
      case Flat(w) => w.Valid() && w.op == 0
      case IOVec(w) =>
        && w.iov != [] && (forall i, j :: 0 <= i < j < |w.iov| ==> w.iov[i] != w.iov[j])
        && w.currIndex == 0 && w.currWritten == 0 && w.totalWritten == 0 && w.contents == []
      case Scattered(w) => w.Valid() && w.blocks == [] && w.contents == []
      case Validating(w) => w.Valid() && w.contents == []
    }

    /** The room the caller provided; the other two writers need none. */
    ghost function Capacity(): nat {
      match this
      case Flat(w) => w.base.Length
      case IOVec(w) => w.Start(|w.iov|)
      case _ => 0x1_0000_0000
    }

    method SetExpectedLength(len: uint32)
      requires Unused() && len <= Capacity()
      modifies Repr()
      ensures Valid() && Out() == [] && Limit() == len && Repr() == old(Repr())
      ensures Flat? || IOVec? ==> len <= |old(Buffers())| && Beyond() == old(Buffers())[len..]
    {
      match this
      case Flat(w) => w.SetExpectedLength(len);
      case IOVec(w) => w.SetExpectedLength(len);
      case Scattered(w) => w.SetExpectedLength(len);
      case Validating(w) => w.SetExpectedLength(len);
    }

    method Append(src: seq<byte>) returns (ok: bool)
      requires Valid()
      modifies Repr()
      ensures Settled() && Limit() == old(Limit()) && Beyond() == old(Beyond()) && fresh(Repr() - old(Repr()))
      ensures ok <==> |old(Out())| + |src| <= Limit()
      ensures ok ==> Valid() && Out() == old(Out()) + src
      ensures !ok ==> Spilled()
      ensures !ok ==> var n := Spill(Scattered?, |old(Out())|, Limit()); Out() == old(Out()) + src[..n]
    {
      if Scattered? {
        scattered.RoomInBlock();
      }
      hide ScatteredWriter.Valid, ScatteredWriter.Overfull, IOVecWriter.Valid, IOVecWriter.Beyond, BlockRoom;
      match this
      case Flat(w) => ok := w.Append(src);
      case IOVec(w) => ok := w.Append(src);
      case Scattered(w) => ok := w.Append(src);
      case Validating(w) => ok := w.Append(src);
    }

    method TryFastAppend(src: seq<byte>, len: nat) returns (ok: bool)
      requires Valid()
      modifies Repr()
      ensures Valid() && Limit() == old(Limit()) && Beyond() == old(Beyond()) && fresh(Repr() - old(Repr()))
      ensures ok ==> len <= 16 && len + MAXIMUM_TAG_LENGTH <= |src| && |old(Out())| + len <= Limit()
      ensures Out() == if ok then old(Out()) + src[..len] else old(Out())
    {
      hide ScatteredWriter.Valid, ScatteredWriter.Overfull, IOVecWriter.Valid, IOVecWriter.Beyond;
      match this
      case Flat(w) => ok := w.TryFastAppend(src, len);
      case IOVec(w) => ok := w.TryFastAppend(src, len);
      case Scattered(w) => ok := w.TryFastAppend(src, len);
      case Validating(w) => ok := w.TryFastAppend(src, len);
    }

    method AppendFromSelf(offset: uint64, len: nat) returns (ok: bool)
      requires Valid() && len >= 1
      modifies Repr()
      ensures Settled() && Limit() == old(Limit()) && Beyond() == old(Beyond()) && fresh(Repr() - old(Repr()))
      ensures ok <==> CopyFits(old(Out()), Limit(), offset, len)
      ensures ok ==> Valid() && Out() == CopyFromSelf(old(Out()), offset, len)
      ensures !ok ==> Out() == old(Out()) && Intact()
    {
      hide ScatteredWriter.Valid, ScatteredWriter.Overfull, IOVecWriter.Valid, IOVecWriter.Beyond;
      match this
      case Flat(w) => ok := w.AppendFromSelf(offset, len);
      case IOVec(w) => ok := w.AppendFromSelf(offset, len);
      case Scattered(w) => ok := w.AppendFromSelf(offset, len);
      case Validating(w) => ok := w.AppendFromSelf(offset, len);
    }

    method CheckLength() returns (ok: bool)
      requires Valid()
      ensures ok <==> |Out()| == Limit()
    {
      match this
      case Flat(w) => ok := w.CheckLength();
      case IOVec(w) => ok := w.CheckLength();
      case Scattered(w) => ok := w.CheckLength();
      case Validating(w) => ok := w.CheckLength();
    }
  }
}
