/**
 The meaning of a decompressed stream: a byte string grown by appending literals and by
 copying from its own tail, one byte at a time, where the copied region may overlap the
 bytes being produced.
 */
module Stream {
  import opened Bytes

  /** Appends len bytes, each read offset positions before the place it is written to. */
  function CopyFromSelf(out: seq<byte>, offset: nat, len: nat): (r: seq<byte>)
    requires 1 <= offset <= |out|
    ensures |r| == |out| + len
    decreases len
  {
    if len == 0 then out else CopyFromSelf(out + [out[|out| - offset]], offset, len - 1)
  }

  /** Byte k of the infinite repetition of p. */
  function Pattern(p: seq<byte>, k: nat): byte
    requires |p| > 0
    decreases k
  {
    if k < |p| then p[k] else Pattern(p, k - |p|)
  }

  /** A self-overlapping copy appends the repetition of the last offset bytes. */
  lemma {:induction false} CopyIsPattern(out: seq<byte>, offset: nat, len: nat)
    requires 1 <= offset <= |out|
    ensures CopyFromSelf(out, offset, len)[..|out|] == out
    ensures forall i :: |out| <= i < |out| + len ==>
              CopyFromSelf(out, offset, len)[i] == Pattern(out[|out| - offset..], i - |out|)
    decreases len
  {
    if len > 0 {
      var p := out[|out| - offset..];
      var next := out + [p[0]];
      var q := next[|next| - offset..];
      var r := CopyFromSelf(next, offset, len - 1);
      CopyIsPattern(next, offset, len - 1);
      assert r == CopyFromSelf(out, offset, len);
      assert r[..|out|] == next[..|out|] == out by { assert next == r[..|next|]; }
      forall i | |out| <= i < |r|
        ensures r[i] == Pattern(p, i - |out|)
      {
        if i == |out| {
          assert r[i] == r[..|next|][i] == next[i];
        } else {
          PatternRotate(p, q, i - |out|);
        }
      }
    }
  }

  /** Repeating p from its second byte on is repeating q, the rotation of p by one. */
  lemma {:induction false} PatternRotate(p: seq<byte>, q: seq<byte>, k: nat)
    requires |p| > 0 && k > 0 && q == p[1..] + [p[0]]
    ensures Pattern(p, k) == Pattern(q, k - 1)
    decreases k
  {
    if k > |p| {
      PatternRotate(p, q, k - |p|);
    }
  }

  /** The copied bytes are the only ones that satisfy the overlap equation. */
  lemma CopyUnique(out: seq<byte>, offset: nat, len: nat, r: seq<byte>)
    requires 1 <= offset <= |out| && |r| == |out| + len
    requires r[..|out|] == out
    requires forall i :: |out| <= i < |r| ==> r[i] == r[i - offset]
    ensures r == CopyFromSelf(out, offset, len)
    decreases len
  {
    if len == 0 {
      assert r == r[..|out|];
    } else {
      var next := out + [out[|out| - offset]];
      assert r[|out|] == r[|out| - offset] == r[..|out|][|out| - offset];
      assert r[..|next|] == next;
      CopyUnique(next, offset, len - 1, r);
    }
  }

  /** One copy of a + b bytes is a copy of a bytes followed by a copy of b bytes with the same offset. */
  lemma {:induction false} CopySplit(out: seq<byte>, offset: nat, a: nat, b: nat)
    requires 1 <= offset <= |out|
    ensures CopyFromSelf(CopyFromSelf(out, offset, a), offset, b) == CopyFromSelf(out, offset, a + b)
    decreases a
  {
    if a > 0 {
      CopySplit(out + [out[|out| - offset]], offset, a - 1, b);
    }
  }

  /** A copy reproduces the input exactly when the input repeats itself over the matched range. */
  lemma MatchIsCopy(input: seq<byte>, candidate: nat, at: nat, len: nat)
    requires candidate < at && at + len <= |input|
    requires input[candidate..candidate + len] == input[at..at + len]
    ensures CopyFromSelf(input[..at], at - candidate, len) == input[..at + len]
  {
    var r := input[..at + len];
    forall i | at <= i < |r|
      ensures r[i] == r[i - (at - candidate)]
    {
      assert input[candidate..candidate + len][i - at] == input[at..at + len][i - at];
    }
    assert r[..at] == input[..at];
    CopyUnique(input[..at], at - candidate, len, r);
  }

  /** Copying is insensitive to what precedes the copied tail. */
  lemma {:induction false} CopyPrefix(pre: seq<byte>, out: seq<byte>, offset: nat, len: nat)
    requires 1 <= offset <= |out|
    ensures CopyFromSelf(pre + out, offset, len) == pre + CopyFromSelf(out, offset, len)
    decreases len
  {
    if len > 0 {
      var b := out[|out| - offset];
      assert (pre + out)[|pre + out| - offset] == b;
      assert pre + out + [b] == pre + (out + [b]);
      CopyPrefix(pre, out + [b], offset, len - 1);
    }
  }

  lemma CopyNothing(out: seq<byte>, offset: nat)
    requires 1 <= offset <= |out|
    ensures CopyFromSelf(out, offset, 0) == out
  {
  }

  lemma CopyOneMore(out: seq<byte>, offset: nat, k: nat)
    requires 1 <= offset <= |out|
    ensures var r := CopyFromSelf(out, offset, k);
            CopyFromSelf(out, offset, k + 1) == r + [r[|r| - offset]]
  {
    CopySplit(out, offset, k, 1);
  }

  lemma CopyKeeps(out: seq<byte>, offset: nat, len: nat)
    requires 1 <= offset <= |out|
    ensures CopyFromSelf(out, offset, len)[..|out|] == out
  {
    CopyIsPattern(out, offset, len);
  }

  /** A copy made on the last bytes alone is the copy made on all of them. */
  lemma CopyOntoTail(pre: seq<byte>, tail: seq<byte>, copied: seq<byte>, offset: nat, n: nat)
    requires 1 <= offset <= |tail| && copied == CopyFromSelf(tail, offset, n)
    ensures copied == tail + copied[|tail|..]
    ensures pre + tail + copied[|tail|..] == CopyFromSelf(pre + tail, offset, n)
  {
    hide CopyFromSelf;
    CopyPrefix(pre, tail, offset, n);
    CopyKeeps(tail, offset, n);
    assert copied == copied[..|tail|] + copied[|tail|..];
    assert pre + tail + copied[|tail|..] == pre + (tail + copied[|tail|..]);
  }

  /** A copy no longer than its distance just repeats a stretch of the existing output. */
  lemma CopyDisjoint(out: seq<byte>, offset: nat, n: nat)
    requires 1 <= offset <= |out| && n <= offset
    ensures CopyFromSelf(out, offset, n) == out + out[|out| - offset..|out| - offset + n]
  {
    CopyUnique(out, offset, n, out + out[|out| - offset..|out| - offset + n]);
  }
}
