/** The parameter block of BLAKE2b (blake2b.cpp) and the chaining value that it starts the hash with. */
module Blake2bParameters {
  import opened Arithmetic
  import opened Bits
  import opened Bytes
  import opened HashWords
  import opened HashConstants
  import K = Blake2b
  import S = Sha512

  const IV: Chain64 := [
    0x6a09e667f3bcc908, 0xbb67ae8584caa73b, 0x3c6ef372fe94f82b, 0xa54ff53a5f1d36f1,
    0x510e527fade682d1, 0x9b05688c2b3e6c1f, 0x1f83d9abfb41bd6b, 0x5be0cd19137e2179]

  /** Section 2.6 of RFC 7693: the square roots of the first eight primes. */
  lemma InitialValue()
    ensures var two64 := 0x1_0000_0000_0000_0000;
            && IsRootFraction(IV[0], 2, 1, two64) && IsRootFraction(IV[1], 3, 1, two64)
            && IsRootFraction(IV[2], 5, 2, two64) && IsRootFraction(IV[3], 7, 2, two64)
            && IsRootFraction(IV[4], 11, 3, two64) && IsRootFraction(IV[5], 13, 3, two64)
            && IsRootFraction(IV[6], 17, 4, two64) && IsRootFraction(IV[7], 19, 4, two64)
  {
  }

  /** The parameter block with its setters. */
  class Parameters {
    var digestLength: byte
    var keyLength: byte
    var fanout: byte
    var depth: byte
    var leafLength: seq<byte>
    var nodeOffset: seq<byte>
    var nodeDepth: byte
    var innerLength: byte
    var reserved: seq<byte>
    var salt: seq<byte>
    var personal: seq<byte>

    predicate Valid()
      reads this
    {
      |leafLength| == 4 && |nodeOffset| == 8 && |reserved| == 14 && |salt| == 16 && |personal| == 16
    }

    /** The 64 bytes of the packed structure. */
    function Packed(): (p: seq<byte>)
      requires Valid()
      reads this
      ensures |p| == 64 && p[0] == digestLength && p[1] == keyLength
    {
      [digestLength, keyLength, fanout, depth] + leafLength + nodeOffset + [nodeDepth, innerLength] + reserved
        + salt + personal
    }

    /** blake2b_param_init: a sequential hash of 64 bytes without a key. */
    constructor ()
      ensures Valid() && Packed() == [64, 0, 1, 1] + Zeros(60)
    {
      digestLength, keyLength, fanout, depth := 64, 0, 1, 1;
      leafLength, nodeOffset, nodeDepth, innerLength := Zeros(4), Zeros(8), 0, 0;
      reserved, salt, personal := Zeros(14), Zeros(16), Zeros(16);
    }

    method SetDigestLength(n: byte)
      requires Valid()
      modifies this
      ensures Valid() && Packed() == old(Packed())[0 := n]
    {
      digestLength := n;
    }

    method SetKeyLength(n: byte)
      requires Valid()
      modifies this
      ensures Valid() && Packed() == old(Packed())[1 := n]
    {
      keyLength := n;
    }

    method SetSalt(s: seq<byte>)
      requires Valid() && |s| <= 16
      modifies this
      ensures Valid() && Packed() == old(Packed()[..32]) + (s + Zeros(16 - |s|)) + old(Packed()[48..])
    {
      salt := s + Zeros(16 - |s|);
    }

    method SetPersonal(s: seq<byte>)
      requires Valid() && |s| <= 16
      modifies this
      ensures Valid() && Packed() == old(Packed()[..48]) + (s + Zeros(16 - |s|))
    {
      personal := s + Zeros(16 - |s|);
    }
  }

  function MixedWord(iv: uint64, p: seq<byte>): uint64
    requires |p| == 8
  {
    S.Pow2Of64();
    XorBits(iv, FromLittleEndian(p), 64)
  }

  /** The initial value combined with the parameter block. */
  function Mixed(p: seq<byte>): Chain64
    requires |p| == 64
  {
    seq(8, i requires 0 <= i < 8 => MixedWord(IV[i], p[8 * i..8 * i + 8]))
  }

  /** blake2b_init_param: the chaining value and the digest length. */
  method InitParam(params: Parameters) returns (h: Chain64, outLen: byte)
    requires params.Valid()
    ensures h == Mixed(params.Packed()) && outLen == params.digestLength
  {
    hide MixedWord;
    h, outLen := IV, params.digestLength;
    var p := params.Packed();
    var i := 0;
    while i < 8
      invariant 0 <= i <= 8
      invariant forall j :: 0 <= j < 8 ==> h[j] == if j < i then Mixed(p)[j] else IV[j]
    {
      h := h[i := MixedWord(h[i], p[8 * i..8 * i + 8])];
      i := i + 1;
    }
  }

  /** The bits of a number stored least significant byte first are the bits of its bytes in turn. */
  lemma {:induction false} BitsOfBytes(b: seq<byte>, j: nat, i: nat)
    requires j < |b| && i < 8
    ensures 8 * j + i < 8 * |b| && BitsOf(FromLittleEndian(b), 8 * |b|)[8 * j + i] == BitsOf(b[j], 8)[i]
    decreases j
  {
    hide BitsOf, Pow2;
    var x := FromLittleEndian(b);
    Pow2Of8();
    if j == 0 {
      LowBits(x, 8 * |b|, b[0], 8, FromLittleEndian(b[1..]), i);
    } else {
      HighBits(x, 8 * |b|, 8, 8 * j + i);
      DivWord(x, 0x100, b[0], FromLittleEndian(b[1..]));
      BitsOfBytes(b[1..], j - 1, i);
    }
  }

  /** Bit i of byte j of word w is that of the initial value, flipped if it is set in byte 8 * w + j of the block. */
  lemma MixedBits(p: seq<byte>, w: nat, j: nat, i: nat)
    requires |p| == 64 && w < 8 && j < 8 && i < 8
    ensures BitsOf(Mixed(p)[w], 64)[8 * j + i] == (BitsOf(IV[w], 64)[8 * j + i] != BitsOf(p[8 * w + j], 8)[i])
  {
    hide MixedWord, BitsOf;
    MixedWordBits(IV[w], p[8 * w..8 * w + 8], j, i);
  }

  lemma MixedWordBits(iv: uint64, b: seq<byte>, j: nat, i: nat)
    requires |b| == 8 && j < 8 && i < 8
    ensures BitsOf(MixedWord(iv, b), 64)[8 * j + i] == (BitsOf(iv, 64)[8 * j + i] != BitsOf(b[j], 8)[i])
  {
    hide BitsOf, XorBits, FromLittleEndian;
    BitsOfBytes(b, j, i);
    XorIsBitwise(iv, FromLittleEndian(b), 64);
  }

  /** So different parameter blocks start different hashes. */
  lemma ParametersTold(p: seq<byte>, q: seq<byte>)
    requires |p| == 64 && |q| == 64
    ensures Mixed(p) == Mixed(q) <==> p == q
  {
    hide Mixed;
    if Mixed(p) == Mixed(q) {
      forall k | 0 <= k < 64
        ensures p[k] == q[k]
      {
        SameByte(p, q, k / 8, k % 8);
      }
    }
  }

  lemma SameByte(p: seq<byte>, q: seq<byte>, w: nat, j: nat)
    requires |p| == 64 && |q| == 64 && Mixed(p) == Mixed(q) && w < 8 && j < 8
    ensures p[8 * w + j] == q[8 * w + j]
  {
    hide Mixed, BitsOf, Pow2;
    var a, b := p[8 * w + j], q[8 * w + j];
    forall i | 0 <= i < 8
      ensures BitsOf(a, 8)[i] == BitsOf(b, 8)[i]
    {
      MixedBits(p, w, j, i);
      MixedBits(q, w, j, i);
    }
    Pow2Of8();
    BitsInjective(a, b, 8);
  }

  /** Section 3.3 of RFC 7693: the first word is combined with 0x0101kknn, the others stay. */
  function RfcStart(kk: byte, nn: byte): Chain64 {
    S.Pow2Of64();
    IV[0 := XorBits(IV[0], 0x0101_0000 + 0x100 * kk + nn, 64)]
  }

  /** The block of a sequential hash without salt and personalisation gives the start of the standard. */
  lemma DefaultStart(kk: byte, nn: byte)
    ensures Mixed([nn, kk, 1, 1] + Zeros(60)) == RfcStart(kk, nn)
  {
    hide XorBits, FromLittleEndian;
    var p := [nn, kk, 1, 1] + Zeros(60);
    FirstWord(kk, nn);
    assert p[0..8] == [nn, kk, 1, 1, 0, 0, 0, 0];
    forall i | 1 <= i < 8
      ensures Mixed(p)[i] == IV[i]
    {
      assert p[8 * i..8 * i + 8] == Zeros(8);
      NumberOfZeros(8);
      S.Pow2Of64();
      XorZeroBits(IV[i], 64);
    }
  }

  lemma FirstWord(kk: byte, nn: byte)
    ensures FromLittleEndian([nn, kk, 1, 1, 0, 0, 0, 0]) == 0x0101_0000 + 0x100 * kk + nn
  {
    assert FromLittleEndian([0, 0, 0, 0]) == 0;
    assert FromLittleEndian([1, 1, 0, 0, 0, 0]) == 0x101;
  }

  lemma {:induction false} NumberOfZeros(n: nat)
    ensures FromLittleEndian(Zeros(n)) == 0
  {
    if n > 0 {
      assert Zeros(n)[1..] == Zeros(n - 1);
      NumberOfZeros(n - 1);
    }
  }

  /** A hash under any parameter block, with the key that the block announces. */
  method HashWith(f: K.Compress, params: Parameters, key: seq<byte>, pieces: seq<seq<byte>>)
    returns (md: seq<byte>)
    requires params.Valid() && params.digestLength <= 64 && params.keyLength == |key| <= 64
    requires |Concat(pieces)| + 256 <= 0x1_0000_0000_0000_0000_0000_0000_0000_0000
    ensures |md| == params.digestLength
    ensures md == StoredWords(K.Rfc7693(f, Mixed(params.Packed()), key, Concat(pieces)), 8)[..params.digestLength]
  {
    hide K.Rfc7693, Concat, Mixed;
    var h, outLen := InitParam(params);
    md := K.HashPieces(f, h, outLen, key, pieces);
  }

  /** The library's blake2b: a hash of outLength bytes without a key, of the data from offset on. */
  method HashFrom(f: K.Compress, data: seq<byte>, outLength: nat, offset: nat) returns (hash: seq<byte>)
    requires outLength <= 64 && offset <= |data|
    requires |data| + 256 <= 0x1_0000_0000_0000_0000_0000_0000_0000_0000
    ensures |hash| == outLength
    ensures hash == StoredWords(K.Rfc7693(f, RfcStart(0, outLength), [], data[offset..]), 8)[..outLength]
  {
    hide K.Rfc7693, Concat, Mixed, RfcStart;
    var params := new Parameters();
    params.SetDigestLength(outLength);
    DefaultStart(0, outLength);
    assert params.Packed() == [outLength as byte, 0, 1, 1] + Zeros(60);
    OnePiece(data[offset..]);
    hash := HashWith(f, params, [], [data[offset..]]);
  }

  lemma OnePiece(s: seq<byte>)
    ensures Concat([s]) == s
  {
    assert [s][..0] == [] && Concat([]) == [];
  }
}
