/** The byte-moving primitives shared by the writers: exact, eight bytes at a time, and pattern-expanding. */
module Copying {
  import opened Bytes
  import opened Stream

  const MAX_INCREMENT_COPY_OVERFLOW := 10  // bytes IncrementalCopyFastPath may write past its target

  /** Two eight-byte moves from the input, the fast path for literals of len <= 16 bytes. */
  method CopySixteen(dst: array<byte>, op: nat, src: seq<byte>, ghost len: nat)
    requires op + 16 <= dst.Length && 16 <= |src| && len <= 16
    modifies dst
    ensures dst[op..op + len] == src[..len]
    ensures OnlyChanged(dst, op, op + 16)
  {
    forall k | 0 <= k < 8 {
      dst[op + k] := src[k];
    }
    forall k | 8 <= k < 16 {
      dst[op + k] := src[k];
    }
  }

  /** All eight bytes are loaded before any is stored, so the regions may overlap. */
  method UnalignedCopy64(buf: array<byte>, src: nat, op: nat)
    requires src + 8 <= buf.Length && op + 8 <= buf.Length
    modifies buf
    ensures forall i :: op <= i < op + 8 ==> buf[i] == old(buf[i - op + src])
    ensures OnlyChanged(buf, op, op + 8)
  {
    var word := buf[src..src + 8];
    forall k | 0 <= k < 8 {
      buf[op + k] := word[k];
    }
  }

  /** One byte at a time, so a copy that overlaps its own output repeats it. */
  method IncrementalCopy(buf: array<byte>, src: nat, op: nat, len: nat)
    requires src < op && 1 <= len && op + len <= buf.Length
    modifies buf
    ensures buf[..op + len] == CopyFromSelf(old(buf[..op]), op - src, len)
    ensures OnlyChanged(buf, op, op + len)
  {
    var s, o, n := src, op, len;
    while n > 0
      invariant n >= 0 && o + n == op + len && o - s == op - src && s >= src
      invariant OnlyChanged(buf, op, o)
      invariant forall i :: op <= i < o ==> buf[i] == buf[i - (op - src)]
    {
      buf[o] := buf[s];
      s, o, n := s + 1, o + 1, n - 1;
    }
    assert buf[..op + len][..op] == old(buf[..op]);
    CopyUnique(old(buf[..op]), op - src, len, buf[..op + len]);
  }

  /** The repetition of p looks the same g positions later. */
  ghost predicate Shifts(p: seq<byte>, g: nat)
    requires |p| > 0
  {
    forall k: nat :: Pattern(p, k + g) == Pattern(p, k)
  }

  lemma ShiftsOnce(p: seq<byte>)
    requires |p| > 0
    ensures Shifts(p, |p|)
  {
  }

  lemma ShiftsDouble(p: seq<byte>, g: nat)
    requires |p| > 0 && Shifts(p, g)
    ensures Shifts(p, 2 * g)
  {
    forall k: nat
      ensures Pattern(p, k + 2 * g) == Pattern(p, k)
    {
      assert Pattern(p, (k + g) + g) == Pattern(p, k + g) == Pattern(p, k);
    }
  }

  /** buf[src..op] is the pattern p repeated. */
  ghost predicate Repeats(buf: array<byte>, p: seq<byte>, src: nat, op: nat)
    requires |p| > 0 && src <= op <= buf.Length
    reads buf
  {
    forall i :: src <= i < op ==> buf[i] == Pattern(p, i - src)
  }

  lemma RepeatsOnce(buf: array<byte>, src: nat, op: nat)
    requires src < op <= buf.Length
    ensures Repeats(buf, buf[src..op], src, op)
  {
  }

  /** A prefix followed by the repeated pattern is what the byte-wise copy produces. */
  lemma RepeatsIsCopy(out: seq<byte>, p: seq<byte>, len: nat, r: seq<byte>)
    requires 1 <= |p| <= |out| && p == out[|out| - |p|..]
    requires |r| == |out| + len && r[..|out|] == out
    requires forall i :: |out| <= i < |r| ==> r[i] == Pattern(p, i - (|out| - |p|))
    ensures r == CopyFromSelf(out, |p|, len)
  {
    var c := CopyFromSelf(out, |p|, len);
    CopyIsPattern(out, |p|, len);
    forall i | 0 <= i < |r|
      ensures r[i] == c[i]
    {
      if i < |out| {
        assert r[i] == r[..|out|][i] == c[..|out|][i];
      } else {
        ShiftsOnce(p);
        assert Pattern(p, i - |out| + |p|) == Pattern(p, i - |out|);
      }
    }
  }

  /** One eight-byte move from a whole number of periods back extends the repetition by the gap or by eight. */
  method ExtendPattern(buf: array<byte>, ghost p: seq<byte>, ghost start: nat, src: nat, op: nat)
    requires |p| > 0 && start <= src < op && op + 8 <= buf.Length && Shifts(p, op - src)
    requires Repeats(buf, p, start, op)
    modifies buf
    ensures Repeats(buf, p, start, op + Min(8, op - src))
    ensures OnlyChanged(buf, op, op + 8)
  {
    UnalignedCopy64(buf, src, op);
    forall i | op <= i < op + Min(8, op - src)
      ensures buf[i] == Pattern(p, i - start)
    {
      assert Pattern(p, (i - op + src - start) + (op - src)) == Pattern(p, i - op + src - start);
    }
  }

  /**
   Same result as IncrementalCopy on the target, moving eight bytes at a time: a short gap is first
   doubled until it is at least eight. Bytes up to ten past the target may be overwritten.
   */
  method IncrementalCopyFastPath(buf: array<byte>, src: nat, op: nat, len: nat)
    requires src < op && 1 <= len && op + len + 10 <= buf.Length
    modifies buf
    ensures buf[..op + len] == CopyFromSelf(old(buf[..op]), op - src, len)
    ensures OnlyChanged(buf, op, op + len + 10)
  {
    hide Shifts, Pattern, CopyFromSelf;
    ghost var out, p, d := buf[..op], buf[src..op], op - src;
    var s, o, n: int := src, op, len;
    ShiftsOnce(p);
    RepeatsOnce(buf, src, op);
    while o - s < 8
      invariant s == src && op <= o <= buf.Length && o + n == op + len && Shifts(p, o - s)
      invariant o - s == d || o - s == 2 * d || o - s == 4 * d || o - s >= 8
      invariant Repeats(buf, p, src, o)
      invariant OnlyChanged(buf, op, op + len + 10)
      decreases 8 - (o - s)
    {
      assert o <= op + 3;
      ExtendPattern(buf, p, src, s, o);
      ShiftsDouble(p, o - s);
      n := n - (o - s);
      o := o + (o - s);
    }
    while n > 0
      invariant src <= s && op <= o <= buf.Length && o + n == op + len && o - s >= 8 && Shifts(p, o - s)
      invariant Repeats(buf, p, src, o)
      invariant OnlyChanged(buf, op, op + len + 10)
      decreases n
    {
      ExtendPattern(buf, p, src, s, o);
      s, o, n := s + 8, o + 8, n - 8;
    }
    FinishPattern(buf, out, p, src, len);
  }

  lemma FinishPattern(buf: array<byte>, out: seq<byte>, p: seq<byte>, src: nat, len: nat)
    requires src < |out| && |out| + len <= buf.Length && p == out[src..]
    requires buf[..|out|] == out && Repeats(buf, p, src, |out| + len)
    ensures buf[..|out| + len] == CopyFromSelf(out, |out| - src, len)
  {
    assert buf[..|out| + len][..|out|] == out;
    RepeatsIsCopy(out, p, len, buf[..|out| + len]);
  }

  /** Two eight-byte moves, for copies of at most sixteen bytes from at least eight bytes back. */
  method CopySixteenBack(buf: array<byte>, src: nat, op: nat, len: nat)
    requires src + 8 <= op && 1 <= len <= 16 && op + 16 <= buf.Length
    modifies buf
    ensures buf[..op + len] == CopyFromSelf(old(buf[..op]), op - src, len)
    ensures OnlyChanged(buf, op, op + 16)
  {
    ghost var out, p := buf[..op], buf[src..op];
    ShiftsOnce(p);
    ExtendPattern(buf, p, src, src, op);
    ExtendPattern(buf, p, src, src + 8, op + 8);
    FinishPattern(buf, out, p, src, len);
  }
}
