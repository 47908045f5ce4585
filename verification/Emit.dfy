/** The tag emitters of the compressor (EmitLiteral, EmitCopy) and the bytes they stand for. */
module Emit {
  import opened Arithmetic
  import opened Bytes
  import opened Stream
  import opened Format
  import opened Copying

  /** Bytes of the stream that a tag covers, literal data included. */
  function Span(t: Tag): nat {
    match t
    case LiteralTag(size, len) => size + len
    case CopyTag(size, _, _) => size
  }

  /** What the compressor may produce for one block of at most 65536 bytes. */
  predicate TagWithinBounds(t: Tag) {
    match t
    case LiteralTag(_, len) => 1 <= len <= 0x1_0000
    case CopyTag(_, offset, len) => 1 <= offset < 0x1_0000 && 4 <= len <= 64
  }

  /** Every tag of s is complete and within bounds. */
  ghost predicate WithinBounds(s: seq<byte>)
    decreases |s|
  {
    s == [] || (
      && HasTag(s)
      && TagWithinBounds(ReadTag(s))
      && Span(ReadTag(s)) <= |s|
      && WithinBounds(s[Span(ReadTag(s))..]))
  }

  /** enc takes the stream from out to next, with tags a block compressor may emit. */
  ghost predicate Encodes(enc: seq<byte>, out: seq<byte>, next: seq<byte>) {
    Expand(enc, out) == Some(next) && WithinBounds(enc)
  }

  lemma {:induction false} WithinBoundsAppend(a: seq<byte>, b: seq<byte>)
    requires WithinBounds(a) && WithinBounds(b)
    ensures WithinBounds(a + b)
    decreases |a|
  {
    if a == [] {
      assert a + b == b;
    } else {
      var t := ReadTag(a);
      WithinBoundsStep(a, t);
      WithinBoundsAppend(a[Span(t)..], b);
      WithinBoundsPrepend(a, b, t);
    }
  }

  lemma WithinBoundsPrepend(a: seq<byte>, b: seq<byte>, t: Tag)
    requires HasTag(a) && t == ReadTag(a) && TagWithinBounds(t)
    requires Span(t) <= |a| && WithinBounds(a[Span(t)..] + b)
    ensures WithinBounds(a + b)
  {
    ReadTagPrefix(a, a + b);
    assert (a + b)[Span(t)..] == a[Span(t)..] + b;
    WithinBoundsStep(a + b, t);
  }

  lemma WithinBoundsStep(s: seq<byte>, t: Tag)
    requires HasTag(s) && t == ReadTag(s)
    ensures WithinBounds(s) <==> TagWithinBounds(t) && Span(t) <= |s| && WithinBounds(s[Span(t)..])
  {
  }

  lemma EncodesAppend(a: seq<byte>, b: seq<byte>, o0: seq<byte>, o1: seq<byte>, o2: seq<byte>)
    requires Encodes(a, o0, o1) && Encodes(b, o1, o2)
    ensures Encodes(a + b, o0, o2)
  {
    ExpandAppend(a, b, o0);
    WithinBoundsAppend(a, b);
  }

  /** The minimal little-endian bytes of n. */
  function LengthBytes(n: nat): (r: seq<byte>) {
    if n == 0 then [] else [n % 0x100] + LengthBytes(n / 0x100)
  }

  function LiteralHeader(len: nat): (r: seq<byte>)
    requires 1 <= len <= 0x1_0000
    ensures |r| == LiteralOverhead(len)
  {
    if len <= 60 then [4 * (len - 1)]
    else
      LengthBytesSize(len - 1);
      [4 * (59 + |LengthBytes(len - 1)|)] + LengthBytes(len - 1)
  }

  /** Header bytes of a literal inside one block. */
  function LiteralOverhead(len: nat): nat {
    if len <= 60 then 1 else if len <= 0x100 then 2 else 3
  }

  lemma LengthBytesSize(n: nat)
    requires 0 < n < 0x1_0000
    ensures n < 0x100 ==> LengthBytes(n) == [n]
    ensures n >= 0x100 ==> LengthBytes(n) == [n % 0x100, n / 0x100]
  {
  }

  lemma LengthBytesStep(n: nat)
    ensures n > 0 ==> LengthBytes(n) == [n % 0x100] + LengthBytes(n / 0x100)
  {
  }

  lemma LiteralTagRead(len: nat, data: seq<byte>)
    requires 1 <= len <= 0x1_0000
    ensures HasTag(LiteralHeader(len) + data)
    ensures ReadTag(LiteralHeader(len) + data) == LiteralTag(LiteralOverhead(len), len)
  {
    var n := len - 1;
    if len <= 60 {
      var s: seq<byte> := [4 * n] + data;
      assert s == LiteralHeader(len) + data && ReadTag(s) == LiteralTag(1, len);
    } else {
      LengthBytesSize(n);
      hide LengthBytes;
      if len <= 0x100 {
        var s: seq<byte> := [240, n] + data;
        assert s == LiteralHeader(len) + data && ReadTag(s) == LiteralTag(2, len);
      } else {
        var s: seq<byte> := [244, n % 0x100, n / 0x100] + data;
        assert s == LiteralHeader(len) + data && ReadTag(s) == LiteralTag(3, len);
      }
    }
  }

  lemma LiteralEncodes(data: seq<byte>, out: seq<byte>)
    requires 1 <= |data| <= 0x1_0000
    ensures Encodes(LiteralHeader(|data|) + data, out, out + data)
  {
    var s := LiteralHeader(|data|) + data;
    var size := LiteralOverhead(|data|);
    LiteralTagRead(|data|, data);
    LiteralStep(s, out, size, |data|);
    WithinBoundsStep(s, LiteralTag(size, |data|));
    assert s[size..size + |data|] == data;
    assert s[size + |data|..] == [];
  }

  function CopyEncoding(offset: nat, len: nat): (r: seq<byte>)
    requires 1 <= offset < 0x1_0000 && 4 <= len <= 64
    ensures 2 <= |r| <= 3
  {
    if len < 12 && offset < 2048 then [1 + 4 * (len - 4) + 32 * (offset / 0x100), offset % 0x100]
    else [2 + 4 * (len - 1), offset % 0x100, offset / 0x100]
  }

  lemma CopyTagRead(offset: nat, len: nat)
    requires 1 <= offset < 0x1_0000 && 4 <= len <= 64
    ensures HasTag(CopyEncoding(offset, len))
    ensures ReadTag(CopyEncoding(offset, len)) == CopyTag(|CopyEncoding(offset, len)|, offset, len)
  {
    var c: int := CopyEncoding(offset, len)[0];
    if len < 12 && offset < 2048 {
      DivWord(c, 4, 1, len - 4 + 8 * (offset / 0x100));
      DivWord(c / 4, 8, len - 4, offset / 0x100);
      DivWord(c, 32, 1 + 4 * (len - 4), offset / 0x100);
    } else {
      assert c % 4 == 2 && c / 4 == len - 1;
    }
  }

  lemma CopyEncodes(offset: nat, len: nat, out: seq<byte>)
    requires 1 <= offset < 0x1_0000 && 4 <= len <= 64 && offset <= |out|
    ensures Encodes(CopyEncoding(offset, len), out, CopyFromSelf(out, offset, len))
  {
    var s := CopyEncoding(offset, len);
    CopyTagRead(offset, len);
    CopyStep(s, out, |s|, offset, len);
    WithinBoundsStep(s, CopyTag(|s|, offset, len));
    assert s[|s|..] == [];
  }

  /**
   Writes a literal holding input[at..at + len]. On the fast path sixteen bytes are moved whatever the
   length, so up to fifteen bytes past the literal are read from the input and written to dst.
   */
  method EmitLiteral(dst: array<byte>, op: nat, input: seq<byte>, at: nat, len: nat, allowFastPath: bool)
    returns (end: nat)
    requires 1 <= len <= 0x1_0000 && at + len <= |input|
    requires op + LiteralOverhead(len) + len <= dst.Length
    requires allowFastPath ==> at + 16 <= |input| && op + 17 <= dst.Length
    modifies dst
    ensures end == op + LiteralOverhead(len) + len
    ensures dst[op..end] == LiteralHeader(len) + input[at..at + len]
    ensures OnlyChanged(dst, op, if allowFastPath then Max(end, op + 17) else end)
  {
    hide LiteralHeader, LengthBytes;
    var p: nat;
    if len <= 60 {
      ShortHeader(len);
      dst[op] := 4 * (len - 1);
      p := op + 1;
      if allowFastPath && len <= 16 {
        CopySixteen(dst, p, input[at..at + 16], len);
        SliceOfSlice(input, at, at + 16, 0, len);
        FastLiteral(dst, op, input, at, len);
        return p + len;
      }
    } else {
      p := EmitLongHeader(dst, op, len);
    }
    assert dst[op..p] == LiteralHeader(len);
    end := AppendData(dst, op, p, input[at..at + len]);
  }

  /** memcpy behind what was written since op. */
  method AppendData(dst: array<byte>, op: nat, p: nat, data: seq<byte>) returns (end: nat)
    requires op <= p && p + |data| <= dst.Length
    modifies dst
    ensures end == p + |data| && dst[op..end] == old(dst[op..p]) + data && OnlyChanged(dst, p, end)
  {
    Memcpy(dst, p, data);
    end := p + |data|;
    assert dst[op..p] == old(dst[op..p]);
    assert dst[op..end] == dst[op..p] + dst[p..end];
  }

  lemma ShortHeader(len: nat)
    requires 1 <= len <= 60
    ensures LiteralHeader(len) == [4 * (len - 1)]
  {
  }

  /** A tag byte that announces the number of length bytes, then those bytes. */
  method EmitLongHeader(dst: array<byte>, op: nat, len: nat) returns (p: nat)
    requires 60 < len <= 0x1_0000 && op + LiteralOverhead(len) <= dst.Length
    modifies dst
    ensures p == op + LiteralOverhead(len)
    ensures dst[op..p] == LiteralHeader(len)
    ensures OnlyChanged(dst, op, p)
  {
    LengthBytesSize(len - 1);
    assert |LiteralHeader(len)| == LiteralOverhead(len);
    p := EmitLength(dst, op + 1, len - 1);
    dst[op] := 4 * (59 + (p - op - 1));
    assert dst[op + 1..p] == LengthBytes(len - 1);
    assert dst[op..p] == [dst[op]] + dst[op + 1..p];
  }

  lemma FastLiteral(dst: array<byte>, op: nat, input: seq<byte>, at: nat, len: nat)
    requires 1 <= len <= 16 && at + 16 <= |input| && op + 17 <= dst.Length
    requires dst[op] == 4 * (len - 1)
    requires dst[op + 1..op + 1 + len] == input[at..at + len]
    ensures dst[op..op + 1 + len] == LiteralHeader(len) + input[at..at + len]
  {
  }

  /** The bytes of n, least significant first, until nothing is left. */
  method EmitLength(dst: array<byte>, op: nat, value: nat) returns (p: nat)
    requires 0 < value < 0x1_0000 && op + |LengthBytes(value)| <= dst.Length
    modifies dst
    ensures p == op + |LengthBytes(value)|
    ensures dst[op..p] == LengthBytes(value)
    ensures OnlyChanged(dst, op, p)
  {
    var n := value;
    p := op;
    while n > 0
      invariant op <= p && p + |LengthBytes(n)| == op + |LengthBytes(value)|
      invariant dst[op..p] + LengthBytes(n) == LengthBytes(value)
      invariant OnlyChanged(dst, op, p)
    {
      LengthBytesStep(n);
      ghost var done := dst[op..p];
      dst[p] := n % 0x100;
      n := n / 0x100;
      p := p + 1;
      assert dst[op..p] == done + [dst[p - 1]];
    }
  }

  method EmitCopyLessThan64(dst: array<byte>, op: nat, offset: nat, len: nat) returns (end: nat)
    requires 1 <= offset < 0x1_0000 && 4 <= len <= 64
    requires op + |CopyEncoding(offset, len)| <= dst.Length
    modifies dst
    ensures end == op + |CopyEncoding(offset, len)|
    ensures dst[op..end] == CopyEncoding(offset, len)
    ensures OnlyChanged(dst, op, end)
  {
    if len < 12 && offset < 2048 {
      dst[op], dst[op + 1] := 1 + 4 * (len - 4) + 32 * (offset / 0x100), offset % 0x100;
      end := op + 2;
    } else {
      dst[op], dst[op + 1], dst[op + 2] := 2 + 4 * (len - 1), offset % 0x100, offset / 0x100;
      end := op + 3;
    }
  }

  /** The copies one match of length len is cut into, so that each has length 4 to 64. */
  function CopyRun(offset: nat, len: nat): (r: seq<byte>)
    requires 1 <= offset < 0x1_0000 && 4 <= len
    ensures |r| < len
    decreases len
  {
    if len >= 68 then CopyEncoding(offset, 64) + CopyRun(offset, len - 64)
    else if len > 64 then CopyEncoding(offset, 60) + CopyEncoding(offset, len - 60)
    else CopyEncoding(offset, len)
  }

  /** Cutting a match into pieces does not change what it copies. */
  lemma {:induction false} CopyRunEncodes(offset: nat, len: nat, out: seq<byte>)
    requires 1 <= offset < 0x1_0000 && 4 <= len && offset <= |out|
    ensures Encodes(CopyRun(offset, len), out, CopyFromSelf(out, offset, len))
    decreases len
  {
    if len >= 68 {
      CopyRunEncodes(offset, len - 64, CopyFromSelf(out, offset, 64));
      CopyThen(offset, 64, len - 64, out, CopyRun(offset, len - 64));
    } else if len > 64 {
      CopyEncodes(offset, len - 60, CopyFromSelf(out, offset, 60));
      CopyThen(offset, 60, len - 60, out, CopyEncoding(offset, len - 60));
    } else {
      CopyEncodes(offset, len, out);
    }
  }

  /** A copy of a bytes followed by an encoding of b more with the same offset. */
  lemma CopyThen(offset: nat, a: nat, b: nat, out: seq<byte>, rest: seq<byte>)
    requires 1 <= offset < 0x1_0000 && 4 <= a <= 64 && offset <= |out|
    requires Encodes(rest, CopyFromSelf(out, offset, a), CopyFromSelf(CopyFromSelf(out, offset, a), offset, b))
    ensures Encodes(CopyEncoding(offset, a) + rest, out, CopyFromSelf(out, offset, a + b))
  {
    CopyEncodes(offset, a, out);
    CopySplit(out, offset, a, b);
    EncodesAppend(CopyEncoding(offset, a), rest, out, CopyFromSelf(out, offset, a), CopyFromSelf(out, offset, a + b));
  }

  method EmitCopy(dst: array<byte>, op: nat, offset: nat, matched: nat) returns (end: nat)
    requires 1 <= offset < 0x1_0000 && 4 <= matched
    requires op + |CopyRun(offset, matched)| <= dst.Length
    modifies dst
    ensures end == op + |CopyRun(offset, matched)|
    ensures dst[op..end] == CopyRun(offset, matched)
    ensures OnlyChanged(dst, op, end)
  {
    var len := matched;
    end := op;
    while len >= 68
      invariant len >= 4 && EmittedSoFar(dst[..], op, end, offset, len, CopyRun(offset, matched))
      invariant OnlyChanged(dst, op, end)
    {
      CopyRunCut(dst[op..end], offset, len);
      end := EmitPiece(dst, op, end, offset, 64);
      len := len - 64;
    }
    CopyRunCut(dst[op..end], offset, len);
    if len > 64 {
      end := EmitPiece(dst, op, end, offset, 60);
      len := len - 60;
    }
    end := EmitPiece(dst, op, end, offset, len);
  }

  /** dst[op..end] followed by the copies still to be written is the whole run. */
  ghost predicate EmittedSoFar(dst: seq<byte>, op: nat, end: nat, offset: nat, len: nat, run: seq<byte>)
    requires 1 <= offset < 0x1_0000 && 4 <= len
  {
    op <= end <= |dst| && dst[op..end] + CopyRun(offset, len) == run
  }

  lemma CopyRunCut(done: seq<byte>, offset: nat, len: nat)
    requires 1 <= offset < 0x1_0000 && 4 <= len
    ensures len >= 68 ==>
              done + CopyEncoding(offset, 64) + CopyRun(offset, len - 64) == done + CopyRun(offset, len)
    ensures 64 < len < 68 ==>
              done + CopyEncoding(offset, 60) + CopyEncoding(offset, len - 60) == done + CopyRun(offset, len)
    ensures len <= 64 ==> CopyRun(offset, len) == CopyEncoding(offset, len)
  {
  }

  /** EmitCopyLessThan64 seen as growing the output written since start. */
  method EmitPiece(dst: array<byte>, start: nat, op: nat, offset: nat, len: nat) returns (end: nat)
    requires 1 <= offset < 0x1_0000 && 4 <= len <= 64
    requires start <= op && op + |CopyEncoding(offset, len)| <= dst.Length
    modifies dst
    ensures end == op + |CopyEncoding(offset, len)|
    ensures dst[start..end] == old(dst[start..op]) + CopyEncoding(offset, len)
    ensures OnlyChanged(dst, op, end)
  {
    end := EmitCopyLessThan64(dst, op, offset, len);
    assert dst[start..op] == old(dst[start..op]);
    assert dst[start..end] == dst[start..op] + dst[op..end];
  }
}
