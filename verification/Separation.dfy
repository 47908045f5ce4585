/** Some block function tells any two messages apart, so that what is true of absorbed bytes is true of digests. */
module Separation {
  import opened Arithmetic
  import opened Bytes
  import opened HashWords
  import opened Blake256

  function ByteWord(c: byte): Chain32 {
    [c, 0, 0, 0, 0, 0, 0, 0]
  }

  /** Keeps byte at of the block with this counter and passes on what it was given for all others. */
  function Watch(counter: nat, at: nat): Compress {
    (h: Chain32, block: seq<byte>, count: nat) =>
      if count == counter && at < |block| then ByteWord(block[at]) else h
  }

  /** Keeps byte at of every block, and so of the last. */
  function WatchLast(at: nat): Compress {
    (h: Chain32, block: seq<byte>, count: nat) => if at < |block| then ByteWord(block[at]) else h
  }

  /** The end of the block of byte j. */
  function BlockEnd(j: nat): nat {
    j - j % BLOCK + BLOCK
  }

  function CounterAt(j: nat, n: nat): nat {
    Bits64(Min(BlockEnd(j), n))
  }

  /** Only the block of byte j has its counter. */
  lemma OwnCounter(j: nat, e: nat, n: nat)
    requires j < n && 8 * n < TWO_64 && e % BLOCK == 0 && BlockEnd(j) <= e
    ensures BlockCounter(e, n) == CounterAt(j, n) <==> e == BlockEnd(j)
  {
    BitsFit(n);
    BitsFit(Min(e, n));
    BitsFit(Min(BlockEnd(j), n));
    var k := BlockEnd(j);
    assert k % BLOCK == 0;
    assert e > k ==> e >= k + BLOCK;
  }

  lemma LastBlock(p: seq<byte>, e: nat)
    requires BLOCK <= e <= |p|
    ensures p[..e] == p[..e - BLOCK] + p[e - BLOCK..e]
  {
  }

  lemma {:induction false} WatchKeeps(h0: Chain32, p: seq<byte>, n: nat, j: nat, e: nat)
    requires j < n <= |p| && 8 * n < TWO_64 && e % BLOCK == 0 && BlockEnd(j) <= e <= |p|
    ensures Counted(Watch(CounterAt(j, n), j % BLOCK), h0, p[..e], n) == ByteWord(p[j])
    decreases e
  {
    hide Counted, BlockCounter, CounterAt;
    var f, pre, block := Watch(CounterAt(j, n), j % BLOCK), p[..e - BLOCK], p[e - BLOCK..e];
    LastBlock(p, e);
    CountedNext(f, h0, pre, block, n);
    OwnCounter(j, e, n);
    if e == BlockEnd(j) {
      assert block[j % BLOCK] == p[j];
    } else {
      WatchKeeps(h0, p, n, j, e - BLOCK);
    }
  }

  lemma WatchSees(h0: Chain32, m: seq<byte>, tail: byte, j: nat)
    requires j < |m| && 8 * |m| < TWO_64 && tail <= 1
    ensures Hash(Watch(CounterAt(j, |m|), j % BLOCK), h0, m, tail) == ByteWord(m[j])
  {
    hide Counted, CounterAt;
    var p := Padded(m, tail);
    assert m <= p;
    WatchKeeps(h0, p, |m|, j, |p|);
    assert p[..|p|] == p;
  }

  lemma EndsInLength(m: seq<byte>, tail: byte, i: nat)
    requires i < 8 && tail <= 1
    ensures var p := Padded(m, tail);
            |p| >= BLOCK && p[|p| - BLOCK + (56 + i)] == BigEndian(8 * |m|, 8)[i]
  {
    hide BigEndian, Marks;
  }

  lemma WatchSeesLastBlock(h0: Chain32, p: seq<byte>, n: nat, at: nat)
    requires |p| >= BLOCK && |p| % BLOCK == 0 && at < BLOCK
    ensures Counted(WatchLast(at), h0, p, n) == ByteWord(p[|p| - BLOCK + at])
  {
    hide Counted, BlockCounter;
    var pre, block := p[..|p| - BLOCK], p[|p| - BLOCK..];
    assert p == pre + block && block[at] == p[|p| - BLOCK + at];
    DivWord(|pre|, BLOCK, 0, |p| / BLOCK - 1);
    CountedNext(WatchLast(at), h0, pre, block, n);
  }

  lemma HashCounts(f: Compress, h0: Chain32, m: seq<byte>, tail: byte)
    requires tail <= 1
    ensures Hash(f, h0, m, tail) == Counted(f, h0, Padded(m, tail), |m|)
  {
  }

  /** The last eight bytes hashed are the length. */
  lemma WatchSeesLength(h0: Chain32, m: seq<byte>, tail: byte, i: nat)
    requires i < 8 && tail <= 1
    ensures Hash(WatchLast(56 + i), h0, m, tail) == ByteWord(BigEndian(8 * |m|, 8)[i])
  {
    hide Hash, Counted, Padded, BigEndian, WatchLast, ByteWord;
    HashCounts(WatchLast(56 + i), h0, m, tail);
    EndsInLength(m, tail, i);
    WatchSeesLastBlock(h0, Padded(m, tail), |m|, 56 + i);
  }

  lemma {:induction false} BigEndianInjective(x: nat, y: nat, n: nat)
    requires x < Power256(n) && y < Power256(n) && BigEndian(x, n) == BigEndian(y, n)
    ensures x == y
    decreases n
  {
    if n > 0 {
      var a, b := BigEndian(x, n), BigEndian(y, n);
      assert a[..n - 1] == BigEndian(x / 0x100, n - 1) && b[..n - 1] == BigEndian(y / 0x100, n - 1);
      assert a[n - 1] == x % 0x100 && b[n - 1] == y % 0x100;
      BigEndianInjective(x / 0x100, y / 0x100, n - 1);
    }
  }

  /** A digest's fourth byte is the low byte of the first word. */
  lemma {:induction false} FourthByte(h: Chain32, n: nat)
    requires 1 <= n <= 8
    ensures BigWords32(h, n)[3] == h[0] % 0x100
    decreases n
  {
    if n > 1 {
      FourthByte(h, n - 1);
    }
  }

  lemma FirstDifference(a: seq<byte>, b: seq<byte>) returns (j: nat)
    requires |a| == |b| && a != b
    ensures j < |a| && a[j] != b[j]
  {
    j :| j < |a| && a[j] != b[j];
  }

  /** For any two messages there is a block function under which their digests differ. */
  lemma DigestsDiffer(a: seq<byte>, b: seq<byte>) returns (f: Compress)
    requires a != b && |a| < TWO_64 / 8 && |b| < TWO_64 / 8
    ensures Digest(f, a) != Digest(f, b)
  {
    hide Hash, BigWords32, BigEndian, CounterAt;
    if |a| == |b| {
      var j := FirstDifference(a, b);
      f := Watch(CounterAt(j, |a|), j % BLOCK);
      WatchSees(IV_256, a, 1, j);
      WatchSees(IV_256, b, 1, j);
    } else {
      Bytes8();
      if BigEndian(8 * |a|, 8) == BigEndian(8 * |b|, 8) {
        BigEndianInjective(8 * |a|, 8 * |b|, 8);
        assert false;
      }
      var i := FirstDifference(BigEndian(8 * |a|, 8), BigEndian(8 * |b|, 8));
      f := WatchLast(56 + i);
      WatchSeesLength(IV_256, a, 1, i);
      WatchSeesLength(IV_256, b, 1, i);
    }
    FourthByte(Hash(f, IV_256, a, 1), 8);
    FourthByte(Hash(f, IV_256, b, 1), 8);
  }

  /**
   Updates of given lengths give the digest of the concatenation, for every block function and whatever the
   bytes, exactly when they are orderly.
   */
  lemma OrderlyDigestsAreExact(lens: seq<nat>)
    requires Total(lens) < TWO_64 / 8
    ensures Orderly(0, lens) <==>
            forall f: Compress, pieces: seq<seq<byte>> :: Lengths(pieces) == lens ==>
              Digest(f, AbsorbAll([], pieces)) == Digest(f, Concat(pieces))
  {
    hide Orderly, AbsorbAll, Concat, Digest, Lengths, Total, Marked;
    if Orderly(0, lens) {
      forall f: Compress, pieces: seq<seq<byte>> | Lengths(pieces) == lens
        ensures Digest(f, AbsorbAll([], pieces)) == Digest(f, Concat(pieces))
      {
        OrderlyAbsorbs([], pieces);
        assert [] + Concat(pieces) == Concat(pieces);
      }
    } else {
      var i := FirstDisorder(0, lens);
      DisorderShows(0, lens, i);
      var pieces := Marked(lens, i);
      assert Zeros(0) == [] && [] + Concat(pieces) == Concat(pieces);
      TotalIsLength(pieces);
      AbsorbsNoMore([], pieces);
      var f := DigestsDiffer(AbsorbAll([], pieces), Concat(pieces));
    }
  }
}
