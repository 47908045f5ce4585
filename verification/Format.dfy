/**
 The compressed format and its reference decoder, independent of buffers, hash tables and
 fragmentation: a tag byte, up to four little-endian bytes, and for a literal its data.
 */
module Format {
  import opened Bytes
  import opened Stream
  import Varint

  const BLOCK_SIZE := 0x1_0000  // unit of compression and of block-by-block decompression

  /** One tag, without the data of a literal; size is the number of header bytes. */
  datatype Tag =
    | LiteralTag(size: nat, len: nat)
    | CopyTag(size: nat, offset: nat, len: nat)

  /** Header bytes after the tag byte c. */
  function ExtraBytes(c: byte): (n: nat)
    ensures n <= 4
  {
    if c % 4 == 0 then if c / 4 < 60 then 0 else c / 4 - 59
    else if c % 4 == 1 then 1
    else if c % 4 == 2 then 2
    else 4
  }

  /** The k bytes after the tag byte as a little-endian number. */
  function Trailer(s: seq<byte>, k: nat): (t: nat)
    requires k <= 4 && k < |s|
    ensures t < 0x1_0000_0000
  {
    if k == 0 then 0
    else if k == 1 then Word(s[1], 0, 0, 0)
    else if k == 2 then Word(s[1], s[2], 0, 0)
    else if k == 3 then Word(s[1], s[2], s[3], 0)
    else Word(s[1], s[2], s[3], s[4])
  }

  /** A tag's header is complete. */
  predicate HasTag(s: seq<byte>) {
    |s| > 0 && |s| > ExtraBytes(s[0])
  }

  /** x + 1 in 32-bit arithmetic. */
  function Increment32(x: nat): (r: nat)
    requires x < 0x1_0000_0000
    ensures r == (x + 1) % 0x1_0000_0000
  {
    if x == 0xffff_ffff then 0 else x + 1
  }

  /** The length of a long literal is computed in 32 bits, so 0xffffffff + 1 wraps to 0. */
  function ReadTag(s: seq<byte>): (t: Tag)
    requires HasTag(s)
    ensures t.size == 1 + ExtraBytes(s[0]) && t.size <= |s|
    ensures t.CopyTag? ==> 1 <= t.len <= 64
  {
    var c, k := s[0], ExtraBytes(s[0]);
    if c % 4 != 0 then CopyTag(1 + k, OffsetHigh(c) + Trailer(s, k), CopyLength(c))
    else if k == 0 then LiteralTag(1, ShortLength(c))
    else LiteralTag(1 + k, Increment32(Trailer(s, k)))
  }

  function ShortLength(c: byte): (n: nat)
    ensures 1 <= n <= 64
  {
    c / 4 + 1
  }

  function CopyLength(c: byte): (n: nat)
    ensures 1 <= n <= 64
  {
    if c % 4 == 1 then 4 + c / 4 % 8 else c / 4 + 1
  }

  /** Bits 8..10 of the offset of a copy with a one-byte offset. */
  function OffsetHigh(c: byte): nat {
    if c % 4 == 1 then c / 32 * 0x100 else 0
  }

  /** Decodes s onto out; None when a tag or literal is cut short or a copy reaches before the start. */
  function Expand(s: seq<byte>, out: seq<byte>): (r: Option<seq<byte>>)
    decreases |s|
  {
    if s == [] then Some(out)
    else if !HasTag(s) then None
    else
      match ReadTag(s)
      case LiteralTag(size, len) =>
        if |s| < size + len then None else Expand(s[size + len..], out + s[size..size + len])
      case CopyTag(size, offset, len) =>
        if !(1 <= offset <= |out|) then None else Expand(s[size..], CopyFromSelf(out, offset, len))
  }

  /** The bytes a decoder can deliver before it must stop, also when s is cut short or corrupt. */
  function Deliver(s: seq<byte>, out: seq<byte>): (r: seq<byte>)
    decreases |s|
  {
    if s == [] || !HasTag(s) then out
    else
      match ReadTag(s)
      case LiteralTag(size, len) =>
        if |s| < size + len then out + s[size..] else Deliver(s[size + len..], out + s[size..size + len])
      case CopyTag(size, offset, len) =>
        if !(1 <= offset <= |out|) then out else Deliver(s[size..], CopyFromSelf(out, offset, len))
  }

  /** A whole compressed buffer: the length header, then tags that produce exactly that many bytes. */
  function Uncompress(s: seq<byte>): Option<seq<byte>> {
    var h := Varint.Parse(s);
    if h.None? then None
    else
      var r := Expand(s[h.value.size..], []);
      if r.Some? && |r.value| == h.value.value then r else None
  }

  /** Reading a tag only looks at its header. */
  lemma ReadTagPrefix(a: seq<byte>, s: seq<byte>)
    requires HasTag(a) && a <= s
    ensures HasTag(s) && ReadTag(s) == ReadTag(a)
  {
  }

  lemma NoTag(s: seq<byte>, out: seq<byte>)
    requires !HasTag(s)
    ensures Expand(s, out) == (if s == [] then Some(out) else None) && Deliver(s, out) == out
  {
  }

  lemma LiteralStep(s: seq<byte>, out: seq<byte>, size: nat, len: nat)
    requires HasTag(s) && ReadTag(s) == LiteralTag(size, len)
    ensures |s| < size + len ==> Expand(s, out) == None && Deliver(s, out) == out + s[size..]
    ensures |s| >= size + len ==>
              && Expand(s, out) == Expand(s[size + len..], out + s[size..size + len])
              && Deliver(s, out) == Deliver(s[size + len..], out + s[size..size + len])
  {
  }

  lemma CopyStep(s: seq<byte>, out: seq<byte>, size: nat, offset: nat, len: nat)
    requires HasTag(s) && ReadTag(s) == CopyTag(size, offset, len)
    ensures !(1 <= offset <= |out|) ==> Expand(s, out) == None && Deliver(s, out) == out
    ensures 1 <= offset <= |out| ==>
              && Expand(s, out) == Expand(s[size..], CopyFromSelf(out, offset, len))
              && Deliver(s, out) == Deliver(s[size..], CopyFromSelf(out, offset, len))
  {
  }

  /** A stream that decodes delivers what it decodes to. */
  lemma {:induction false} ExpandIsDelivered(s: seq<byte>, out: seq<byte>)
    ensures Expand(s, out).Some? ==> Expand(s, out).value == Deliver(s, out)
    decreases |s|
  {
    hide Expand, Deliver, ReadTag, HasTag, CopyFromSelf;
    if !HasTag(s) {
      NoTag(s, out);
    } else {
      match ReadTag(s)
      case LiteralTag(size, len) =>
        LiteralStep(s, out, size, len);
        if |s| >= size + len {
          ExpandIsDelivered(s[size + len..], out + s[size..size + len]);
        }
      case CopyTag(size, offset, len) =>
        CopyStep(s, out, size, offset, len);
        if 1 <= offset <= |out| {
          ExpandIsDelivered(s[size..], CopyFromSelf(out, offset, len));
        }
    }
  }

  /** Delivery only ever appends. */
  lemma {:induction false} DeliverGrows(s: seq<byte>, out: seq<byte>)
    ensures out <= Deliver(s, out)
    decreases |s|
  {
    hide Expand, Deliver, ReadTag, HasTag, CopyFromSelf;
    if !HasTag(s) {
      NoTag(s, out);
    } else {
      match ReadTag(s)
      case LiteralTag(size, len) =>
        LiteralStep(s, out, size, len);
        if |s| >= size + len {
          DeliverGrows(s[size + len..], out + s[size..size + len]);
        }
      case CopyTag(size, offset, len) =>
        CopyStep(s, out, size, offset, len);
        if 1 <= offset <= |out| {
          CopyKeeps(out, offset, len);
          DeliverGrows(s[size..], CopyFromSelf(out, offset, len));
        }
    }
  }

  /** Where decoding stops: the input not consumed by whole operations, and their output. */
  datatype Stop = Stop(rest: seq<byte>, out: seq<byte>)

  /** The operation at the front of s is there in full, is possible after out, and stays within limit bytes. */
  predicate Fits(s: seq<byte>, out: seq<byte>, limit: nat) {
    && HasTag(s)
    && match ReadTag(s)
       case LiteralTag(size, len) => size + len <= |s| && |out| + len <= limit
       case CopyTag(_, offset, len) => 1 <= offset <= |out| && |out| + len <= limit
  }

  /** One operation taken off the front of s and applied to out. */
  function After(s: seq<byte>, out: seq<byte>, limit: nat): (next: Stop)
    requires Fits(s, out, limit)
    ensures |next.rest| < |s| && |next.out| <= limit
  {
    match ReadTag(s)
    case LiteralTag(size, len) => Stop(s[size + len..], out + s[size..size + len])
    case CopyTag(size, offset, len) => Stop(s[size..], CopyFromSelf(out, offset, len))
  }

  /** The longest run of whole operations whose output stays within limit bytes, and the tag it stops at. */
  function StopWithin(s: seq<byte>, out: seq<byte>, limit: nat): (stop: Stop)
    decreases |s|
  {
    if Fits(s, out, limit) then
      var next := After(s, out, limit);
      StopWithin(next.rest, next.out, limit)
    else Stop(s, out)
  }

  /** The run stops at a literal that takes the output past the limit, cut short or not. */
  predicate Overruns(stop: Stop, limit: nat) {
    && HasTag(stop.rest)
    && match ReadTag(stop.rest)
       case LiteralTag(size, len) => |stop.out| + Min(len, |stop.rest| - size) > limit
       case CopyTag(_, _, _) => false
  }

  lemma AfterStep(s: seq<byte>, out: seq<byte>, limit: nat)
    requires Fits(s, out, limit)
    ensures var next := After(s, out, limit);
            && Expand(s, out) == Expand(next.rest, next.out) && Deliver(s, out) == Deliver(next.rest, next.out)
            && out <= next.out && StopWithin(s, out, limit) == StopWithin(next.rest, next.out, limit)
            && next.rest == s[|s| - |next.rest|..]
  {
    hide Expand, Deliver, ReadTag, HasTag, CopyFromSelf;
    match ReadTag(s)
    case LiteralTag(size, len) => LiteralStep(s, out, size, len);
    case CopyTag(size, offset, len) =>
      CopyStep(s, out, size, offset, len);
      CopyKeeps(out, offset, len);
  }

  /** The run keeps the meaning of the stream: what is left of it after the run's output decodes to the same. */
  lemma {:induction false} StopMeaning(s: seq<byte>, out: seq<byte>, limit: nat)
    requires |out| <= limit
    ensures var stop := StopWithin(s, out, limit);
            && Expand(s, out) == Expand(stop.rest, stop.out) && Deliver(s, out) == Deliver(stop.rest, stop.out)
            && out <= stop.out <= Deliver(s, out) && |stop.out| <= limit
            && !Fits(stop.rest, stop.out, limit) && |stop.rest| <= |s| && stop.rest == s[|s| - |stop.rest|..]
    decreases |s|
  {
    hide Expand, Deliver, HasTag, CopyFromSelf, Fits;
    if Fits(s, out, limit) {
      AfterStep(s, out, limit);
      var next := After(s, out, limit);
      StopMeaning(next.rest, next.out, limit);
      var rest := StopWithin(s, out, limit).rest;
      SliceOfSlice(s, |s| - |next.rest|, |s|, |next.rest| - |rest|, |next.rest|);
    } else {
      DeliverGrows(s, out);
    }
  }

  /** The run takes all of the input exactly when that decodes within the limit, and its output is the result. */
  lemma StopVerdict(s: seq<byte>, out: seq<byte>, limit: nat)
    requires |out| <= limit
    ensures var stop := StopWithin(s, out, limit);
            && (stop.rest == [] <==> Expand(s, out).Some? && |Expand(s, out).value| <= limit)
            && (stop.rest == [] ==> Expand(s, out) == Some(stop.out) && Deliver(s, out) == stop.out)
  {
    hide Expand, Deliver, ReadTag, HasTag, CopyFromSelf, StopWithin;
    StopMeaning(s, out, limit);
    var stop := StopWithin(s, out, limit);
    ExpandIsDelivered(s, out);
    if !HasTag(stop.rest) {
      NoTag(stop.rest, stop.out);
    } else {
      match ReadTag(stop.rest)
      case LiteralTag(size, len) =>
        LiteralStep(stop.rest, stop.out, size, len);
        if |stop.rest| >= size + len {
          DeliverGrows(stop.rest[size + len..], stop.out + stop.rest[size..size + len]);
        }
      case CopyTag(size, offset, len) =>
        CopyStep(stop.rest, stop.out, size, offset, len);
        if 1 <= offset <= |stop.out| {
          DeliverGrows(stop.rest[size..], CopyFromSelf(stop.out, offset, len));
        }
    }
  }

  /** All of what the stream delivers fits exactly when the run stops at no operation that is only too long. */
  lemma DeliversWithin(s: seq<byte>, out: seq<byte>, limit: nat)
    requires |out| <= limit
    ensures var stop := StopWithin(s, out, limit);
            |Deliver(s, out)| > limit <==>
              || Overruns(stop, limit)
              || (HasTag(stop.rest) && ReadTag(stop.rest).CopyTag? && 1 <= ReadTag(stop.rest).offset <= |stop.out|)
  {
    hide Expand, Deliver, ReadTag, HasTag, CopyFromSelf, StopWithin;
    StopMeaning(s, out, limit);
    var stop := StopWithin(s, out, limit);
    if !HasTag(stop.rest) {
      NoTag(stop.rest, stop.out);
    } else {
      match ReadTag(stop.rest)
      case LiteralTag(size, len) =>
        LiteralStep(stop.rest, stop.out, size, len);
        if |stop.rest| >= size + len {
          DeliverGrows(stop.rest[size + len..], stop.out + stop.rest[size..size + len]);
        }
      case CopyTag(size, offset, len) =>
        CopyStep(stop.rest, stop.out, size, offset, len);
        if 1 <= offset <= |stop.out| {
          DeliverGrows(stop.rest[size..], CopyFromSelf(stop.out, offset, len));
        }
    }
  }

  /** Streams can be decoded piecewise. */
  lemma {:induction false} ExpandAppend(a: seq<byte>, b: seq<byte>, out: seq<byte>)
    requires Expand(a, out).Some?
    ensures Expand(a + b, out) == Expand(b, Expand(a, out).value)
    decreases |a|
  {
    hide Expand, Deliver, ReadTag, HasTag, CopyFromSelf;
    if !HasTag(a) {
      NoTag(a, out);
      assert a + b == b;
    } else {
      ReadTagPrefix(a, a + b);
      match ReadTag(a)
      case LiteralTag(size, len) =>
        LiteralStep(a, out, size, len);
        LiteralStepAppend(a, b, out, size, len);
        ExpandAppend(a[size + len..], b, out + a[size..size + len]);
      case CopyTag(size, offset, len) =>
        CopyStep(a, out, size, offset, len);
        CopyStep(a + b, out, size, offset, len);
        assert (a + b)[size..] == a[size..] + b;
        ExpandAppend(a[size..], b, CopyFromSelf(out, offset, len));
    }
  }

  lemma LiteralStepAppend(a: seq<byte>, b: seq<byte>, out: seq<byte>, size: nat, len: nat)
    requires HasTag(a + b) && ReadTag(a + b) == LiteralTag(size, len) && size + len <= |a|
    ensures Expand(a + b, out) == Expand(a[size + len..] + b, out + a[size..size + len])
  {
    LiteralStep(a + b, out, size, len);
    assert (a + b)[size + len..] == a[size + len..] + b;
    assert (a + b)[size..size + len] == a[size..size + len];
  }

  /** A stream that decodes on its own decodes to the same bytes after earlier output. */
  lemma {:induction false} ExpandAfter(s: seq<byte>, pre: seq<byte>, out: seq<byte>)
    requires Expand(s, out).Some?
    ensures Expand(s, pre + out) == Some(pre + Expand(s, out).value)
    decreases |s|
  {
    hide Expand, Deliver, ReadTag, HasTag, CopyFromSelf;
    if !HasTag(s) {
      NoTag(s, out);
      NoTag(s, pre + out);
    } else {
      match ReadTag(s)
      case LiteralTag(size, len) =>
        LiteralStep(s, out, size, len);
        LiteralStep(s, pre + out, size, len);
        assert pre + out + s[size..size + len] == pre + (out + s[size..size + len]);
        ExpandAfter(s[size + len..], pre, out + s[size..size + len]);
      case CopyTag(size, offset, len) =>
        CopyStep(s, out, size, offset, len);
        CopyStep(s, pre + out, size, offset, len);
        CopyPrefix(pre, out, offset, len);
        ExpandAfter(s[size..], pre, CopyFromSelf(out, offset, len));
    }
  }
}
