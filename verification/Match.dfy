/** FindMatchLength: how far two positions of the input agree, eight bytes at a time. */
module Match {
  import opened Bytes
  import opened Bits

  /** The n bytes at p and q are the same. */
  predicate Agree(s: seq<byte>, p: nat, q: nat, n: nat)
    requires p <= q && q + n <= |s|
  {
    s[p..p + n] == s[q..q + n]
  }

  /** n is the largest count of agreeing bytes at s1 and s2 that does not run past limit. */
  predicate IsMatchLength(s: seq<byte>, s1: nat, s2: nat, limit: nat, n: nat)
    requires s1 <= s2 <= limit <= |s|
  {
    n <= limit - s2 && Agree(s, s1, s2, n) && (n < limit - s2 ==> s[s1 + n] != s[s2 + n])
  }

  lemma AgreeExtend(s: seq<byte>, p: nat, q: nat, m: nat, n: nat)
    requires p <= q && q + m + n <= |s|
    requires Agree(s, p, q, m) && Agree(s, p + m, q + m, n)
    ensures Agree(s, p, q, m + n)
  {
    assert s[p..p + (m + n)] == s[p..p + m] + s[p + m..p + m + n];
    assert s[q..q + (m + n)] == s[q..q + m] + s[q + m..q + m + n];
  }

  method FindMatchLength(s: seq<byte>, s1: nat, start: nat, limit: nat) returns (matched: nat)
    requires s1 <= start <= limit <= |s|
    ensures IsMatchLength(s, s1, start, limit, matched)
  {
    var s2 := start;
    matched := 0;
    while s2 + 8 <= limit
      invariant s2 == start + matched && s2 <= limit && Agree(s, s1, start, matched)
    {
      var k := CompareWords(s, s1 + matched, s2);
      AgreeExtend(s, s1, start, matched, k);
      matched := matched + k;
      if k < 8 {
        return;
      }
      s2 := s2 + 8;
    }
    matched := MatchTail(s, s1, start, limit, matched);
  }

  /** Compares two eight-byte words; on a difference, the lowest differing bit gives the number of equal bytes. */
  method CompareWords(s: seq<byte>, p: nat, q: nat) returns (k: nat)
    requires p <= q && q + 8 <= |s|
    ensures k <= 8 && Agree(s, p, q, k)
    ensures k < 8 ==> s[p + k] != s[q + k]
  {
    var a, b := s[p..p + 8], s[q..q + 8];
    var x, y := WordOf(b), WordOf(a);
    WordsDiffer(b, a);
    if x == y {
      k := 8;
    } else {
      DifferNonZero(x, y);
      var matchingBits := FindLSBSetNonZero64(Xor(x, y));
      LowestDifferenceIsFirstByte(b, a, matchingBits);
      k := matchingBits / 8;
      assert s[p..p + k] == a[..k] && s[q..q + k] == b[..k];
    }
  }

  lemma DifferNonZero(x: seq<bool>, y: seq<bool>)
    requires |x| == |y|
    ensures x != y <==> NonZero(Xor(x, y))
  {
  }

  /** The last few bytes, one at a time. */
  method MatchTail(s: seq<byte>, s1: nat, start: nat, limit: nat, sofar: nat) returns (matched: nat)
    requires s1 <= start && start + sofar <= limit <= |s| && Agree(s, s1, start, sofar)
    ensures IsMatchLength(s, s1, start, limit, matched)
  {
    matched := sofar;
    while start + matched < limit
      invariant start + matched <= limit && Agree(s, s1, start, matched)
    {
      if s[s1 + matched] != s[start + matched] {
        return;
      }
      AgreeExtend(s, s1, start, matched, 1);
      matched := matched + 1;
    }
  }
}
