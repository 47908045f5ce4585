/** SHA-512 streaming (sha512_256.cpp) with the block transformation left open. */
module Sha512 {
  import opened Arithmetic
  import opened Bits
  import opened Bytes
  import opened HashWords

  const BLOCK := 128
  const TWO_64 := 0x1_0000_0000_0000_0000

  /** Chaining value and block. */
  type Transform = (Chain64, seq<byte>) -> Chain64

  /** The chaining value after whole blocks. */
  function Chained(f: Transform, h0: Chain64, data: seq<byte>): Chain64 {
    if |data| < BLOCK then h0 else f(Chained(f, h0, data[..|data| - BLOCK]), data[|data| - BLOCK..])
  }

  /** Zero bytes between the one bit and the 16-byte length of an n-byte message. */
  function PadZeros(n: nat): (k: nat)
    ensures (n + 1 + k + 16) % BLOCK == 0 && k < BLOCK
  {
    (2 * BLOCK - 17 - n % BLOCK) % BLOCK
  }

  /** Section 5.1.2 of FIPS 180-4: a one bit, zeros, and the bit length in 128 bits. */
  function Padded(message: seq<byte>): (p: seq<byte>)
    ensures |p| % BLOCK == 0
  {
    message + [0x80] + Zeros(PadZeros(|message|)) + BigEndian(8 * |message|, 16)
  }

  /** Section 6.4 of FIPS 180-4 for an initial hash value. */
  function Hash(f: Transform, h0: Chain64, message: seq<byte>): Chain64 {
    Chained(f, h0, Padded(message))
  }

  lemma ChainedNext(f: Transform, h0: Chain64, pre: seq<byte>, block: seq<byte>)
    requires |pre| % BLOCK == 0 && |block| == BLOCK
    ensures Chained(f, h0, pre + block) == f(Chained(f, h0, pre), block) && |pre + block| % BLOCK == 0
  {
    var next := pre + block;
    assert next[..|next| - BLOCK] == pre && next[|next| - BLOCK..] == block;
  }

  /** A byte count times eight, as a 64-bit bit count holds it. */
  function Bits64(n: nat): uint64 {
    8 * n % TWO_64
  }

  lemma AddBits(n: nat, m: nat)
    ensures (Bits64(n) + 8 * m) % TWO_64 == Bits64(n + m)
  {
    AddMod(8 * n, 8 * m, TWO_64);
  }

  /** All whole blocks of stream are in the chaining value, and the rest is held back. */
  ghost predicate Streaming(f: Transform, h0: Chain64, stream: seq<byte>, held: seq<byte>, h: Chain64)
    ensures Streaming(f, h0, stream, held, h) ==> |held| == |stream| % BLOCK
  {
    var k := |stream| - |stream| % BLOCK;
    held == stream[k..] && h == Chained(f, h0, stream[..k])
  }

  lemma HoldMore(f: Transform, h0: Chain64, stream: seq<byte>, held: seq<byte>, h: Chain64, data: seq<byte>)
    requires Streaming(f, h0, stream, held, h) && |held| + |data| < BLOCK
    ensures Streaming(f, h0, stream + data, held + data, h)
  {
    hide Chained;
    var k := |stream| - |stream| % BLOCK;
    DivWord(|stream + data|, BLOCK, |held| + |data|, |stream| / BLOCK);
    assert (stream + data)[..k] == stream[..k];
    assert (stream + data)[k..] == stream[k..] + data;
  }

  lemma HoldRest(f: Transform, h0: Chain64, pre: seq<byte>, h: Chain64, rest: seq<byte>)
    requires |pre| % BLOCK == 0 && |rest| < BLOCK && h == Chained(f, h0, pre)
    ensures Streaming(f, h0, pre + rest, rest, h)
  {
    hide Chained;
    DivWord(|pre + rest|, BLOCK, |rest|, |pre| / BLOCK);
    assert (pre + rest)[..|pre|] == pre;
    assert (pre + rest)[|pre|..] == rest;
  }

  /** The last one or two blocks hold the held-back bytes and the padding. */
  lemma PaddedBlocks(f: Transform, h0: Chain64, stream: seq<byte>, held: seq<byte>, h: Chain64)
    requires Streaming(f, h0, stream, held, h) && 8 * |stream| < TWO_64
    ensures var r, length := |held|, BigEndian(Bits64(|stream|), 8);
            Hash(f, h0, stream) ==
            if r + 1 <= 112 then f(h, held + [0x80] + Zeros(119 - r) + length)
            else f(f(h, held + [0x80] + Zeros(127 - r)), Zeros(120) + length)
  {
    hide Chained, Bits64, Zeros, BigEndian;
    var k, r := |stream| - |stream| % BLOCK, |held|;
    var pre, length := stream[..k], BigEndian(Bits64(|stream|), 8);
    assert stream == pre + held;
    BitsFit(|stream|);
    LengthField(|stream|);
    ZerosJoin(PadZeros(|stream|), 8);
    if r + 1 <= 112 {
      var block := held + [0x80] + Zeros(119 - r) + length;
      ShortPad(|stream|);
      assert Padded(stream) == pre + block;
      ChainedNext(f, h0, pre, block);
    } else {
      var block1, block2 := held + [0x80] + Zeros(127 - r), Zeros(120) + length;
      ShortPad(|stream|);
      ZerosJoin(127 - r, 120);
      assert Padded(stream) == pre + block1 + block2;
      ChainedNext(f, h0, pre, block1);
      ChainedNext(f, h0, pre + block1, block2);
    }
  }

  lemma ShortPad(n: nat)
    ensures PadZeros(n) == if n % BLOCK + 1 <= 112 then 111 - n % BLOCK else 239 - n % BLOCK
  {
  }

  lemma BitsFit(n: nat)
    requires 8 * n < TWO_64
    ensures Bits64(n) == 8 * n
  {
  }

  lemma ZerosJoin(n: nat, m: nat)
    ensures Zeros(n) + Zeros(m) == Zeros(n + m)
  {
  }

  /** The upper half of the 128-bit length is zero for messages of fewer than 2^61 bytes. */
  lemma LengthField(n: nat)
    requires 8 * n < TWO_64
    ensures BigEndian(8 * n, 16) == Zeros(8) + BigEndian(8 * n, 8)
  {
    Bytes8();
    BigEndianWider(8 * n, 8, 8);
  }

  const IV_224: Chain64 := [
    0x8C3D37C819544DA2, 0x73E1996689DCD4D6, 0x1DFAB7AE32FF9C82, 0x679DD514582F9FCF,
    0x0F6D2B697BD44DA8, 0x77E36F7304C48942, 0x3F9D85A86A1D36C8, 0x1112E6AD91D692A1]

  const IV_256: Chain64 := [
    0x22312194FC2BF72C, 0x9F555FA3C84C64C2, 0x2393B86B6F53B151, 0x963877195940EABD,
    0x96283EE2A88EFFE3, 0xBE5E1E2553863992, 0x2B0199FC2C85B8AA, 0x0EB72DDC81C52CA2]

  const IV_384: Chain64 := [
    0xcbbb9d5dc1059ed8, 0x629a292a367cd507, 0x9159015a3070dd17, 0x152fecd8f70e5939,
    0x67332667ffc00b31, 0x8eb44a8768581511, 0xdb0c2e0d64f98fa7, 0x47b5481dbefa4fa4]

  const IV_512: Chain64 := [
    0x6a09e667f3bcc908, 0xbb67ae8584caa73b, 0x3c6ef372fe94f82b, 0xa54ff53a5f1d36f1,
    0x510e527fade682d1, 0x9b05688c2b3e6c1f, 0x1f83d9abfb41bd6b, 0x5be0cd19137e2179]

  /** x ^ 0xa5a5a5a5a5a5a5a5 */
  function Mask(x: uint64): uint64 {
    Pow2Of64();
    XorBits(x, 0xa5a5_a5a5_a5a5_a5a5, 64)
  }

  lemma Pow2Of64()
    ensures Pow2(64) == TWO_64
  {
    assert Pow2(8) == 0x100;
    assert Pow2(16) == 0x1_0000;
    assert Pow2(24) == 0x100_0000;
    assert Pow2(32) == 0x1_0000_0000;
    assert Pow2(40) == 0x100_0000_0000;
    assert Pow2(48) == 0x1_0000_0000_0000;
    assert Pow2(56) == 0x100_0000_0000_0000;
  }

  function Masked(h: Chain64): Chain64 {
    seq(8, i requires 0 <= i < 8 => Mask(h[i]))
  }

  /** Decimal digits as text. */
  function Decimal(n: nat): seq<byte> {
    if n < 10 then [0x30 + n] else Decimal(n / 10) + [0x30 + n % 10]
  }

  /** "SHA-512/t" */
  function Name(t: nat): seq<byte> {
    [0x53, 0x48, 0x41, 0x2d, 0x35, 0x31, 0x32, 0x2f] + Decimal(t)
  }

  /** Section 5.3 of FIPS 180-4; for a truncation without a table entry, the generation of section 5.3.6. */
  function InitialValue(f: Transform, t: nat): Chain64 {
    if t == 224 then IV_224
    else if t == 256 then IV_256
    else if t == 384 then IV_384
    else if t == 512 then IV_512
    else Hash(f, Masked(IV_512), Name(t))
  }

  lemma {:induction false} DecimalLength(n: nat)
    ensures |Decimal(n)| <= n + 1
  {
    if n >= 10 {
      DecimalLength(n / 10);
    }
  }

  /** The hash object. */
  class Sha512 {
    const transform: Transform
    const hashSize: nat        // output bits
    var h: Chain64
    const m: array<byte>
    var pos: nat
    var total: uint64          // bits absorbed
    ghost var h0: Chain64
    ghost var absorbed: seq<byte>

    ghost predicate Valid()
      reads this, m
    {
      && m.Length == BLOCK && pos < BLOCK && hashSize <= 512
      && pos == |absorbed| % BLOCK && total == Bits64(|absorbed|)
      && Streaming(transform, h0, absorbed, m[..pos], h)
    }

    constructor (transform: Transform, hashSize: nat)
      requires hashSize <= 512
      ensures this.transform == transform && this.hashSize == hashSize && m.Length == BLOCK && fresh(m)
    {
      this.transform, this.hashSize := transform, hashSize;
      m := new byte[BLOCK];
    }

    /** The blocks of pre have been transformed. */
    ghost predicate Chains(pre: seq<byte>)
      reads `h, `h0
    {
      |pre| % BLOCK == 0 && h == Chained(transform, h0, pre)
    }

    method TransformBlocks(mp: seq<byte>, blocks: nat, ghost pre: seq<byte>)
      requires BLOCK * blocks <= |mp|
      modifies this`h
      ensures blocks == 1 ==> h == transform(old(h), mp[..BLOCK])
      ensures old(Chains(pre)) ==> Chains(pre + mp[..BLOCK * blocks])
    {
      assert pre + mp[..0] == pre;
      var blk := 0;
      while blk < blocks
        invariant 0 <= blk <= blocks
        invariant blk == 0 ==> h == old(h)
        invariant blk == 1 ==> h == transform(old(h), mp[..BLOCK])
        invariant old(Chains(pre)) ==> Chains(pre + mp[..BLOCK * blk])
      {
        ghost var before, block := pre + mp[..BLOCK * blk], mp[BLOCK * blk..BLOCK * blk + BLOCK];
        if old(Chains(pre)) {
          ChainedNext(transform, h0, before, block);
        }
        assert before + block == pre + mp[..BLOCK * (blk + 1)];
        h := transform(h, mp[BLOCK * blk..BLOCK * blk + BLOCK]);
        blk := blk + 1;
      }
    }

    /** Completes a started block and transforms it. */
    method FlushBuffer(data: seq<byte>) returns (n: nat)
      requires Valid() && pos > 0 && pos + |data| >= BLOCK
      modifies this`h, this`pos, this`total, m
      ensures pos == 0 && n <= |data| && Chains(absorbed + data[..n]) && total == Bits64(|absorbed| + n)
    {
      hide Chained, Bits64;
      n := BLOCK - pos;
      ghost var k, held := |absorbed| - pos, m[..pos];
      Memcpy(m, pos, data[..n]);
      assert m[..BLOCK] == held + data[..n];
      assert absorbed[..k] + (held + data[..n]) == absorbed + data[..n];
      assert m[..][..BLOCK * 1] == m[..BLOCK];
      TransformBlocks(m[..], 1, absorbed[..k]);
      AddBits(|absorbed|, n);
      total := (total + n * 8) % TWO_64;
      pos := 0;
    }

    /** Transforms all whole blocks of the data. */
    method TransformMost(data: seq<byte>, at: nat) returns (end: nat)
      requires at <= |data| && Chains(absorbed + data[..at]) && total == Bits64(|absorbed| + at)
      modifies this`h, this`total
      ensures at <= end <= |data| && |data| - end < BLOCK
      ensures Chains(absorbed + data[..end]) && total == Bits64(|absorbed| + end)
    {
      hide Chains, Bits64;
      var blocks := (|data| - at) / BLOCK;
      var bytes := BLOCK * blocks;
      TransformBlocks(data[at..], blocks, absorbed + data[..at]);
      AddBits(|absorbed| + at, bytes);
      total := (total + bytes * 8) % TWO_64;
      end := at + bytes;
      assert absorbed + data[..at] + data[at..][..bytes] == absorbed + data[..end];
    }

    /** Buffers what is less than a block. */
    method Keep(data: seq<byte>, ghost before: nat)
      requires m.Length == BLOCK && pos + |data| < BLOCK && total == Bits64(before)
      modifies this`pos, this`total, m
      ensures pos == old(pos) + |data| && m[..pos] == old(m[..pos]) + data && total == Bits64(before + |data|)
    {
      hide Bits64;
      AddBits(before, |data|);
      Memcpy(m, pos, data);
      pos := pos + |data|;
      total := (total + |data| * 8) % TWO_64;
    }

    method Update(data: seq<byte>)
      requires Valid()
      modifies this`h, this`pos, this`total, this`absorbed, m
      ensures Valid() && absorbed == old(absorbed) + data
    {
      hide Chained, Bits64, Streaming, Chains;
      ghost var started := pos != 0 && pos + |data| < BLOCK;
      if started {
        HoldMore(transform, h0, absorbed, m[..pos], h, data);
      }
      var at := 0;
      if pos != 0 && pos + |data| >= BLOCK {
        at := FlushBuffer(data);
      } else if pos == 0 {
        AtBlockStart();
      }
      if |data| - at >= BLOCK {
        at := TransformMost(data, at);
      }
      if !started {
        RestIsHeld(data, at);
        assert m[..0] + data[at..] == data[at..];
      } else {
        assert data[at..] == data;
      }
      Keep(data[at..], |absorbed| + at);
      absorbed := absorbed + data;
    }

    lemma RestIsHeld(data: seq<byte>, at: nat)
      requires at <= |data| < at + BLOCK && Chains(absorbed + data[..at])
      ensures Streaming(transform, h0, absorbed + data, data[at..], h)
    {
      hide Chained, Streaming;
      HoldRest(transform, h0, absorbed + data[..at], h, data[at..]);
      assert absorbed + data[..at] + data[at..] == absorbed + data;
    }

    lemma AtBlockStart()
      requires Valid() && pos == 0
      ensures Chains(absorbed)
      ensures forall data: seq<byte> :: absorbed + data[..0] == absorbed
    {
      assert absorbed[..|absorbed|] == absorbed;
    }

    /** Writes a one bit, zeros and the length behind the held-back bytes; without room for all, in two blocks. */
    method Pad()
      requires m.Length == BLOCK && pos < BLOCK
      modifies this`h, this`pos, m
      ensures var r, held, length := old(pos), old(m[..pos]), BigEndian(total, 8);
              h == if r + 1 <= 112 then transform(old(h), held + [0x80] + Zeros(119 - r) + length)
              else transform(transform(old(h), held + [0x80] + Zeros(127 - r)), Zeros(120) + length)
    {
      hide Zeros, BigEndian, Swap64, Chained;
      m[pos] := 0x80;
      pos := pos + 1;
      ghost var held := m[..pos];
      assert held == old(m[..pos]) + [0x80];
      if pos > 112 {
        FillZeros();
        assert m[..][..BLOCK * 1] == m[..];
        TransformBlocks(m[..], 1, []);
        pos := 0;
        held := [];
      }
      assert m[..pos] == held;
      WriteLength();
      assert [] + Zeros(120) == Zeros(120);
    }

    method WriteLength()
      requires m.Length == BLOCK && pos <= 112
      modifies this`h, m
      ensures h == transform(old(h), old(m[..pos]) + Zeros(120 - pos) + BigEndian(total, 8))
    {
      hide Zeros, BigEndian, Swap64, Chained;
      ghost var held := m[..pos];
      FillZeros();
      var mlen := Swap64(total);
      SwapStores(total);
      Memcpy(m, BLOCK - 8, LittleEndian(mlen, 8));
      ZerosJoin(120 - pos, 8);
      assert m[..] == held + Zeros(120 - pos) + BigEndian(total, 8);
      assert m[..][..BLOCK * 1] == m[..];
      TransformBlocks(m[..], 1, []);
    }

    method FillZeros()
      requires m.Length == BLOCK && pos <= BLOCK
      modifies m
      ensures m[..] == old(m[..pos]) + Zeros(BLOCK - pos)
    {
      ghost var held := m[..pos];
      Memcpy(m, pos, Zeros(BLOCK - pos));
      assert m[..] == held + Zeros(BLOCK - pos);
    }

    method SwapWords()
      modifies this`h
      ensures h == Swapped(old(h))
    {
      hide Swap64;
      var i := 0;
      while i < 8
        invariant 0 <= i <= 8 && forall j :: 0 <= j < 8 ==> h[j] == if j < i then Swap64(old(h)[j]) else old(h)[j]
      {
        h := h[i := Swap64(h[i])];
        i := i + 1;
      }
    }

    /** Pads and transforms the last one or two blocks, and stores the digest; the words stay swapped. */
    method Final() returns (hash: seq<byte>)
      requires Valid() && |absorbed| < 0x2000_0000_0000_0000
      modifies this`h, this`pos, m
      ensures h == Swapped(Hash(transform, h0, absorbed))
      ensures hash == BigWords(Hash(transform, h0, absorbed), 8)[..hashSize / 8]
      ensures var words := Hash(transform, h0, absorbed);
              forall k :: 0 <= k < hashSize / 8 ==> hash[k] == words[k / 8] / Power256(7 - k % 8) % 0x100
    {
      hide Chained, Bits64, Streaming, Hash, Swapped, BigWords, StoredWords, Power256;
      BigBytes(Hash(transform, h0, absorbed));
      PaddedBlocks(transform, h0, absorbed, m[..pos], h);
      Pad();
      SwappedStores(h, 8);
      SwapWords();
      hash := StoredWords(h, 8)[..hashSize / 8];
    }

    /** Sets the initial hash value, generating it with this very object where there is no table entry. */
    method Init()
      requires m.Length == BLOCK && hashSize <= 512
      modifies this, m
      ensures Valid() && absorbed == [] && h0 == InitialValue(transform, hashSize)
    {
      hide Hash, Masked, Swapped;
      if hashSize == 224 {
        Restart(IV_224);
      } else if hashSize == 256 {
        Restart(IV_256);
      } else if hashSize == 384 {
        Restart(IV_384);
      } else if hashSize == 512 {
        Restart(IV_512);
      } else {
        Restart(Masked(IV_512));
        DecimalLength(hashSize);
        Update(Name(hashSize));
        assert absorbed == Name(hashSize);
        var digest := Final();
        SwappedTwice(Hash(transform, h0, absorbed));
        SwapWords();
        Restart(h);
      }
    }

    method Restart(iv: Chain64)
      requires m.Length == BLOCK && hashSize <= 512
      modifies this`h, this`h0, this`absorbed, this`pos, this`total
      ensures Valid() && absorbed == [] && h0 == iv
    {
      h, h0, absorbed := iv, iv, [];
      pos, total := 0, 0;
    }
  }

  /** Any number of updates absorb the concatenation of their data. */
  method AbsorbPieces(context: Sha512, pieces: seq<seq<byte>>)
    requires context.Valid()
    modifies context`h, context`pos, context`total, context`absorbed, context.m
    ensures context.Valid() && context.absorbed == old(context.absorbed) + Concat(pieces)
  {
    hide Sha512.Valid;
    var i := 0;
    assert context.absorbed + [] == context.absorbed;
    while i < |pieces|
      invariant 0 <= i <= |pieces| && context.Valid()
      invariant context.absorbed == old(context.absorbed) + Concat(pieces[..i])
    {
      context.Update(pieces[i]);
      assert pieces[..i + 1][..i] == pieces[..i];
      i := i + 1;
    }
    assert pieces[..i] == pieces;
  }

  /**
   init, any number of updates, final: however the message is cut into pieces, the digest is that of
   FIPS 180-4 from the initial value for the output size.
   */
  method HashPieces(f: Transform, t: nat, pieces: seq<seq<byte>>) returns (hash: seq<byte>)
    requires t <= 512 && |Concat(pieces)| < 0x2000_0000_0000_0000
    ensures hash == BigWords(Hash(f, InitialValue(f, t), Concat(pieces)), 8)[..t / 8]
  {
    hide Hash, InitialValue, Concat, Sha512.Valid;
    var context := new Sha512(f, t);
    context.Init();
    AbsorbPieces(context, pieces);
    assert context.absorbed == Concat(pieces);
    hash := context.Final();
  }
}
