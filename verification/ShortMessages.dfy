/** The hashes of short messages in numbers: which blocks are compressed, with which padding and counters. */
module ShortMessages {
  import opened Arithmetic
  import opened Bytes
  import opened HashWords
  import B = Blake256
  import K = Blake2b
  import S = Sha512

  const TWO_64 := 0x1_0000_0000_0000_0000

  lemma OneChained(f: K.Compress, h0: Chain64, block: seq<byte>)
    requires |block| == 128
    ensures K.Chained(f, h0, block) == f(h0, block, 128, false) && K.Chained(f, h0, []) == h0
  {
    assert block[..|block| - 128] == [] && block[|block| - 128..] == block;
    K.NoWrap128(128);
  }

  /** BLAKE2b of up to 128 bytes: one block. */
  lemma Blake2bOneBlock(f: K.Compress, h0: Chain64, m: seq<byte>)
    requires |m| <= 128
    ensures K.Rfc7693(f, h0, [], m) == K.Hash(f, h0, m) == f(h0, m + Zeros(128 - |m|), |m|, true)
  {
    hide K.Chained, K.Rfc7693, K.Wrap128;
    K.HashIsRfc7693(f, h0, [], m);
    assert K.Stream([], m) == m;
    OneChained(f, h0, Zeros(128));
    K.NoWrap128(|m|);
    assert m[0..] == m && m[..0] == [];
  }

  /** BLAKE2b of 129 to 256 bytes: two blocks. */
  lemma Blake2bTwoBlocks(f: K.Compress, h0: Chain64, m: seq<byte>)
    requires 129 <= |m| <= 256
    ensures K.Rfc7693(f, h0, [], m) == K.Hash(f, h0, m)
         == f(f(h0, m[..128], 128, false), m[128..] + Zeros(256 - |m|), |m|, true)
  {
    hide K.Chained, K.Rfc7693, K.Wrap128;
    K.HashIsRfc7693(f, h0, [], m);
    assert K.Stream([], m) == m;
    K.SettledAt(128, |m| - 128);
    OneChained(f, h0, m[..128]);
    K.NoWrap128(|m|);
  }

  /** Keyed BLAKE2b of up to 128 bytes: the zero-padded key is a block of its own, the last one if it is alone. */
  lemma Blake2bKeyed(f: K.Compress, h0: Chain64, key: seq<byte>, m: seq<byte>)
    requires 1 <= |key| <= 64 && |m| <= 128
    ensures var first := key + Zeros(128 - |key|);
            K.Rfc7693(f, h0, key, m) == K.Hash(f, h0, first + m)
            == if m == [] then f(h0, first, 128, true)
               else f(f(h0, first, 128, false), m + Zeros(128 - |m|), 128 + |m|, true)
  {
    hide K.Rfc7693, K.Hash, Zeros;
    K.HashIsRfc7693(f, h0, key, m);
    var s := key + Zeros(128 - |key|) + m;
    if m == [] {
      Blake2bOneBlock(f, h0, s);
      assert |Zeros(0)| == 0 && s + Zeros(0) == s == key + Zeros(128 - |key|);
    } else {
      Blake2bTwoBlocks(f, h0, s);
      assert s[..128] == key + Zeros(128 - |key|) && s[128..] == m;
    }
  }

  lemma TwoOf64(f: B.Compress, h0: Chain32, a: seq<byte>, b: seq<byte>, n: nat)
    requires |a| == 64
    ensures B.Counted(f, h0, [], n) == h0
    ensures B.Counted(f, h0, a, n) == f(h0, a, B.BlockCounter(64, n))
    ensures |b| == 64 ==>
              B.Counted(f, h0, a + b, n) == f(f(h0, a, B.BlockCounter(64, n)), b, B.BlockCounter(128, n))
  {
    hide B.BlockCounter;
    B.CountedNext(f, h0, [], a, n);
    assert [] + a == a;
    if |b| == 64 {
      B.CountedNext(f, h0, a, b, n);
    }
  }

  lemma SmallCounter(e: nat, n: nat)
    requires e <= 128 && n <= 128
    ensures B.BlockCounter(e, n) == if e >= n + 64 then 0 else if e <= n then 8 * e else 8 * n
  {
    DivWord(8 * Min(e, n), TWO_64, 8 * Min(e, n), 0);
  }

  lemma Regroup(a: seq<byte>, b: seq<byte>, c: seq<byte>, d: seq<byte>, e: seq<byte>)
    ensures a + (b + c + d) + e == a + b + c + d + e
    ensures a + (b + c) + d == a + b + c + d == a + (b + c + d)
  {
    assert a + (b + c + d) == a + b + c + d && a + (b + c) == a + b + c;
  }

  lemma MarksAre(r: nat)
    requires r < 64
    ensures B.Marks(r, 1) == if r == 55 then [0x81]
                             else if r < 55 then [0x80] + Zeros(54 - r) + [1]
                             else [0x80] + Zeros(118 - r) + [1]
  {
    hide Zeros;
  }

  lemma PaddedShort(m: seq<byte>)
    requires |m| <= 63
    ensures B.Padded(m, 1) == m + B.Marks(|m|, 1) + BigEndian(8 * |m|, 8)
  {
    hide B.Marks, BigEndian;
    DivWord(|m|, 64, |m|, 0);
  }

  lemma PaddedLonger(m: seq<byte>)
    requires 64 <= |m| <= 118
    ensures B.Padded(m, 1) == m + B.Marks(|m| - 64, 1) + BigEndian(8 * |m|, 8)
  {
    hide B.Marks, BigEndian;
    DivWord(|m|, 64, |m| - 64, 1);
  }

  /** BLAKE-256 of up to 55 bytes: one block, closed by the bit 1 and the length. */
  lemma Blake256OneBlock(f: B.Compress, h0: Chain32, m: seq<byte>)
    requires |m| <= 55
    ensures var length := BigEndian(8 * |m|, 8);
            B.Hash(f, h0, m, 1) ==
            if |m| == 55 then f(h0, m + [0x81] + length, 440)
            else f(h0, m + ([0x80] + Zeros(54 - |m|) + [1]) + length, if m == [] then 0 else 8 * |m|)
  {
    hide B.Counted, B.BlockCounter, B.Padded, B.Marks, BigEndian, Zeros;
    var n, length := |m|, BigEndian(8 * |m|, 8);
    SmallCounter(64, n);
    PaddedShort(m);
    MarksAre(n);
    TwoOf64(f, h0, m + B.Marks(n, 1) + length, [], n);
  }

  /** BLAKE-256 of 56 to 63 bytes: the length no longer fits, and the block with no message bit counts none. */
  lemma Blake256FullBlock(f: B.Compress, h0: Chain32, m: seq<byte>)
    requires 56 <= |m| <= 63
    ensures B.Hash(f, h0, m, 1) ==
            f(f(h0, m + [0x80] + Zeros(63 - |m|), 8 * |m|), Zeros(55) + [1] + BigEndian(8 * |m|, 8), 0)
  {
    hide B.Counted, B.BlockCounter, B.Padded, B.Marks, BigEndian, Zeros;
    var n, length := |m|, BigEndian(8 * |m|, 8);
    SmallCounter(64, n);
    SmallCounter(128, n);
    PaddedShort(m);
    MarksAre(n);
    LongMarks(m, length);
    TwoOf64(f, h0, m + [0x80] + Zeros(63 - n), Zeros(55) + [1] + length, n);
  }

  lemma LongMarks(m: seq<byte>, length: seq<byte>)
    requires 56 <= |m| <= 63
    ensures m + ([0x80] + Zeros(118 - |m|) + [1]) + length
         == (m + [0x80] + Zeros(63 - |m|)) + (Zeros(55) + [1] + length)
  {
    B.ZerosSplit(63 - |m|, 55);
    hide Zeros;
    var x, y: seq<byte> := Zeros(63 - |m|), Zeros(55);
    Regroup(m, [0x80], x + y, [1], length);
    Regroup(m + [0x80], x, y, [1], length);
    Regroup(m + [0x80] + x, y, [1], length, []);
  }

  lemma SplitBlock(m: seq<byte>, k: nat, marks: seq<byte>, length: seq<byte>)
    requires k <= |m|
    ensures m + marks + length == m[..k] + (m[k..] + marks + length)
  {
    var a, b := m[..k], m[k..];
    assert m == a + b;
    assert a + (b + marks + length) == a + b + marks + length;
  }

  /** BLAKE-256 of 64 to 118 bytes: a whole block with counter 512, then the rest. */
  lemma Blake256TwoBlocks(f: B.Compress, h0: Chain32, m: seq<byte>)
    requires 64 <= |m| <= 118
    ensures var length := BigEndian(8 * |m|, 8);
            B.Hash(f, h0, m, 1) ==
            f(f(h0, m[..64], 512), m[64..] + ([0x80] + Zeros(118 - |m|) + [1]) + length,
              if |m| == 64 then 0 else 8 * |m|)
  {
    hide B.Counted, B.BlockCounter, B.Padded, B.Marks, BigEndian, Zeros;
    var n, length := |m|, BigEndian(8 * |m|, 8);
    SmallCounter(64, n);
    SmallCounter(128, n);
    PaddedLonger(m);
    MarksAre(n - 64);
    var marks := [0x80] + Zeros(118 - n) + [1];
    assert B.Marks(n - 64, 1) == marks;
    SplitBlock(m, 64, marks, length);
    TwoOf64(f, h0, m[..64], m[64..] + marks + length, n);
  }

  lemma TwoOf128(f: S.Transform, h0: Chain64, a: seq<byte>, b: seq<byte>)
    requires |a| == 128
    ensures S.Chained(f, h0, a) == f(h0, a)
    ensures |b| == 128 ==> S.Chained(f, h0, a + b) == f(f(h0, a), b)
  {
    S.ChainedNext(f, h0, [], a);
    assert [] + a == a && S.Chained(f, h0, []) == h0;
    if |b| == 128 {
      S.ChainedNext(f, h0, a, b);
    }
  }

  lemma Join(a: seq<byte>, b: seq<byte>, c: seq<byte>)
    ensures a + b + c == a + (b + c)
  {
  }

  lemma ZerosNeeded(n: nat)
    requires n <= 239
    ensures S.PadZeros(n) == if n <= 111 then 111 - n else 239 - n
  {
    S.ShortPad(n);
    DivWord(n, 128, if n <= 127 then n else n - 128, if n <= 127 then 0 else 1);
  }

  lemma PaddedWith(m: seq<byte>)
    requires |m| <= 239
    ensures var zeros := if |m| <= 111 then 111 - |m| else 239 - |m|;
            S.Padded(m) == m + ([0x80] + Zeros(zeros)) + BigEndian(8 * |m|, 16)
  {
    hide Zeros, BigEndian, S.PadZeros;
    ZerosNeeded(|m|);
    Join(m, [0x80], Zeros(S.PadZeros(|m|)));
  }

  lemma ZerosAcross(m: seq<byte>, length: seq<byte>)
    requires 112 <= |m| <= 127
    ensures m + ([0x80] + Zeros(239 - |m|)) + length
         == (m + ([0x80] + Zeros(127 - |m|))) + (Zeros(112) + length)
  {
    S.ZerosJoin(127 - |m|, 112);
    hide Zeros;
    var x, y: seq<byte> := Zeros(127 - |m|), Zeros(112);
    Regroup(m, [0x80], x + y, length, []);
    Regroup(m, [0x80], x, y, length);
    Regroup(m + [0x80] + x, y, length, [], []);
  }

  /** SHA-512 of up to 111 bytes: one block, closed by the length in sixteen bytes. */
  lemma Sha512OneBlock(f: S.Transform, h0: Chain64, m: seq<byte>)
    requires |m| <= 111
    ensures S.Hash(f, h0, m) == f(h0, m + ([0x80] + Zeros(111 - |m|)) + BigEndian(8 * |m|, 16))
  {
    hide S.Chained, S.Padded, BigEndian, Zeros;
    PaddedWith(m);
    TwoOf128(f, h0, m + ([0x80] + Zeros(111 - |m|)) + BigEndian(8 * |m|, 16), []);
  }

  /** SHA-512 of 112 to 127 bytes: the length no longer fits behind the message. */
  lemma Sha512FullBlock(f: S.Transform, h0: Chain64, m: seq<byte>)
    requires 112 <= |m| <= 127
    ensures S.Hash(f, h0, m)
         == f(f(h0, m + ([0x80] + Zeros(127 - |m|))), Zeros(112) + BigEndian(8 * |m|, 16))
  {
    hide S.Chained, S.Padded, BigEndian, Zeros;
    PaddedWith(m);
    ZerosAcross(m, BigEndian(8 * |m|, 16));
    TwoOf128(f, h0, m + ([0x80] + Zeros(127 - |m|)), Zeros(112) + BigEndian(8 * |m|, 16));
  }

  /** SHA-512 of 128 to 239 bytes: a block of the message, then the rest. */
  lemma Sha512TwoBlocks(f: S.Transform, h0: Chain64, m: seq<byte>)
    requires 128 <= |m| <= 239
    ensures S.Hash(f, h0, m)
         == f(f(h0, m[..128]), m[128..] + ([0x80] + Zeros(239 - |m|)) + BigEndian(8 * |m|, 16))
  {
    hide S.Chained, S.Padded, BigEndian, Zeros;
    var marks, length := [0x80] + Zeros(239 - |m|), BigEndian(8 * |m|, 16);
    PaddedWith(m);
    SplitBlock(m, 128, marks, length);
    TwoOf128(f, h0, m[..128], m[128..] + marks + length);
  }

  /** The digest of BLAKE-256 starts from its own initial value and closes with the bit 1. */
  lemma DigestCloses(f: B.Compress, m: seq<byte>, k: nat)
    requires k < 32
    ensures B.Digest(f, m)[k] == B.Hash(f, B.IV_256, m, 1)[k / 4] / Power256(3 - k % 4) % 0x100
  {
    BigBytes32(B.Hash(f, B.IV_256, m, 1));
  }
}
