/** The constants of the hashes against their definitions. */
module HashConstants {
  import opened Arithmetic
  import opened Bits
  import opened Bytes
  import opened HashWords
  import B = Blake256
  import S = Sha512

  const TWO_32 := 0x1_0000_0000
  const TWO_64 := 0x1_0000_0000_0000_0000

  /** w is the fraction of the square root of p, whose integer part is k, cut to the bits below scale. */
  predicate IsRootFraction(w: nat, p: nat, k: nat, scale: nat) {
    && k * k <= p < (k + 1) * (k + 1)
    && (k * scale + w) * (k * scale + w) <= p * scale * scale < (k * scale + w + 1) * (k * scale + w + 1)
  }

  /** Section 5.3.5 of FIPS 180-4: the square roots of the first eight primes. */
  lemma InitialValue512(f: S.Transform)
    ensures var h := S.InitialValue(f, 512);
            && IsRootFraction(h[0], 2, 1, TWO_64)
            && IsRootFraction(h[1], 3, 1, TWO_64)
            && IsRootFraction(h[2], 5, 2, TWO_64)
            && IsRootFraction(h[3], 7, 2, TWO_64)
            && IsRootFraction(h[4], 11, 3, TWO_64)
            && IsRootFraction(h[5], 13, 3, TWO_64)
            && IsRootFraction(h[6], 17, 4, TWO_64)
            && IsRootFraction(h[7], 19, 4, TWO_64)
  {
  }

  /** Section 5.3.4 of FIPS 180-4: the square roots of the next eight primes. */
  lemma InitialValue384(f: S.Transform)
    ensures var h := S.InitialValue(f, 384);
            && IsRootFraction(h[0], 23, 4, TWO_64)
            && IsRootFraction(h[1], 29, 5, TWO_64)
            && IsRootFraction(h[2], 31, 5, TWO_64)
            && IsRootFraction(h[3], 37, 6, TWO_64)
            && IsRootFraction(h[4], 41, 6, TWO_64)
            && IsRootFraction(h[5], 43, 6, TWO_64)
            && IsRootFraction(h[6], 47, 6, TWO_64)
            && IsRootFraction(h[7], 53, 7, TWO_64)
  {
  }

  /** The initial value of BLAKE-256, that of SHA-256: the same roots in 32 bits. */
  lemma InitialValueBlake256()
    ensures var h := B.IV_256;
            && IsRootFraction(h[0], 2, 1, TWO_32)
            && IsRootFraction(h[1], 3, 1, TWO_32)
            && IsRootFraction(h[2], 5, 2, TWO_32)
            && IsRootFraction(h[3], 7, 2, TWO_32)
            && IsRootFraction(h[4], 11, 3, TWO_32)
            && IsRootFraction(h[5], 13, 3, TWO_32)
            && IsRootFraction(h[6], 17, 4, TWO_32)
            && IsRootFraction(h[7], 19, 4, TWO_32)
  {
  }

  /** A number spelled most significant byte first. */
  function Spell(b0: byte, b1: byte, b2: byte, b3: byte, b4: byte, b5: byte, b6: byte, b7: byte): nat {
    ((((((b0 * 0x100 + b1) * 0x100 + b2) * 0x100 + b3) * 0x100 + b4) * 0x100 + b5) * 0x100 + b6) * 0x100 + b7
  }

  lemma LastByte(x: nat, high: nat, b: byte, n: nat)
    requires n > 0 && x == high * 0x100 + b
    ensures BigEndian(x, n) == BigEndian(high, n - 1) + [b]
  {
    DivWord(x, 0x100, b, high);
  }

  lemma SpelledBytes(b0: byte, b1: byte, b2: byte, b3: byte, b4: byte, b5: byte, b6: byte, b7: byte)
    ensures BigEndian(Spell(b0, b1, b2, b3, b4, b5, b6, b7), 8) == [b0, b1, b2, b3, b4, b5, b6, b7]
  {
    hide BigEndian;
    var x1 := b0 * 0x100 + b1;
    var x2 := x1 * 0x100 + b2;
    var x3 := x2 * 0x100 + b3;
    var x4 := x3 * 0x100 + b4;
    var x5 := x4 * 0x100 + b5;
    var x6 := x5 * 0x100 + b6;
    LastByte(x6 * 0x100 + b7, x6, b7, 8);
    LastByte(x6, x5, b6, 7);
    LastByte(x5, x4, b5, 6);
    LastByte(x4, x3, b4, 5);
    LastByte(x3, x2, b3, 4);
    LastByte(x2, x1, b2, 3);
    LastByte(x1, b0, b1, 2);
    LastByte(b0, 0, b0, 1);
    assert |BigEndian(0, 0)| == 0;
  }

  /** Word i of a chaining value as it is stored. */
  lemma SpelledWord(h: Chain64, i: nat, b0: byte, b1: byte, b2: byte, b3: byte, b4: byte, b5: byte, b6: byte, b7: byte)
    requires i < 8 && h[i] == Spell(b0, b1, b2, b3, b4, b5, b6, b7)
    ensures BigWords(h, 8)[8 * i..8 * i + 8] == [b0, b1, b2, b3, b4, b5, b6, b7]
  {
    SpelledBytes(b0, b1, b2, b3, b4, b5, b6, b7);
    BigWordAt(h, 8, i);
  }

  lemma InitialValue256Front(f: S.Transform)
    ensures var d := BigWords(S.InitialValue(f, 256), 8);
            && d[0..8] == [0x22, 0x31, 0x21, 0x94, 0xfc, 0x2b, 0xf7, 0x2c]
            && d[8..16] == [0x9f, 0x55, 0x5f, 0xa3, 0xc8, 0x4c, 0x64, 0xc2]
            && d[16..24] == [0x23, 0x93, 0xb8, 0x6b, 0x6f, 0x53, 0xb1, 0x51]
            && d[24..32] == [0x96, 0x38, 0x77, 0x19, 0x59, 0x40, 0xea, 0xbd]
  {
    hide BigWords, BigEndian;
    var h := S.InitialValue(f, 256);
    SpelledWord(h, 0, 0x22, 0x31, 0x21, 0x94, 0xfc, 0x2b, 0xf7, 0x2c);
    SpelledWord(h, 1, 0x9f, 0x55, 0x5f, 0xa3, 0xc8, 0x4c, 0x64, 0xc2);
    SpelledWord(h, 2, 0x23, 0x93, 0xb8, 0x6b, 0x6f, 0x53, 0xb1, 0x51);
    SpelledWord(h, 3, 0x96, 0x38, 0x77, 0x19, 0x59, 0x40, 0xea, 0xbd);
  }

  lemma InitialValue256Back(f: S.Transform)
    ensures var d := BigWords(S.InitialValue(f, 256), 8);
            && d[32..40] == [0x96, 0x28, 0x3e, 0xe2, 0xa8, 0x8e, 0xff, 0xe3]
            && d[40..48] == [0xbe, 0x5e, 0x1e, 0x25, 0x53, 0x86, 0x39, 0x92]
            && d[48..56] == [0x2b, 0x01, 0x99, 0xfc, 0x2c, 0x85, 0xb8, 0xaa]
            && d[56..64] == [0x0e, 0xb7, 0x2d, 0xdc, 0x81, 0xc5, 0x2c, 0xa2]
  {
    hide BigWords, BigEndian;
    var h := S.InitialValue(f, 256);
    SpelledWord(h, 4, 0x96, 0x28, 0x3e, 0xe2, 0xa8, 0x8e, 0xff, 0xe3);
    SpelledWord(h, 5, 0xbe, 0x5e, 0x1e, 0x25, 0x53, 0x86, 0x39, 0x92);
    SpelledWord(h, 6, 0x2b, 0x01, 0x99, 0xfc, 0x2c, 0x85, 0xb8, 0xaa);
    SpelledWord(h, 7, 0x0e, 0xb7, 0x2d, 0xdc, 0x81, 0xc5, 0x2c, 0xa2);
  }

  /** Section 5.3.6.2 of FIPS 180-4, byte by byte. */
  lemma InitialValue256(f: S.Transform)
    ensures var d := BigWords(S.InitialValue(f, 256), 8);
            && d[0..8] == [0x22, 0x31, 0x21, 0x94, 0xfc, 0x2b, 0xf7, 0x2c]
            && d[8..16] == [0x9f, 0x55, 0x5f, 0xa3, 0xc8, 0x4c, 0x64, 0xc2]
            && d[16..24] == [0x23, 0x93, 0xb8, 0x6b, 0x6f, 0x53, 0xb1, 0x51]
            && d[24..32] == [0x96, 0x38, 0x77, 0x19, 0x59, 0x40, 0xea, 0xbd]
            && d[32..40] == [0x96, 0x28, 0x3e, 0xe2, 0xa8, 0x8e, 0xff, 0xe3]
            && d[40..48] == [0xbe, 0x5e, 0x1e, 0x25, 0x53, 0x86, 0x39, 0x92]
            && d[48..56] == [0x2b, 0x01, 0x99, 0xfc, 0x2c, 0x85, 0xb8, 0xaa]
            && d[56..64] == [0x0e, 0xb7, 0x2d, 0xdc, 0x81, 0xc5, 0x2c, 0xa2]
  {
    hide BigWords, S.InitialValue;
    InitialValue256Front(f);
    InitialValue256Back(f);
  }

  lemma InitialValue224Front(f: S.Transform)
    ensures var d := BigWords(S.InitialValue(f, 224), 8);
            && d[0..8] == [0x8c, 0x3d, 0x37, 0xc8, 0x19, 0x54, 0x4d, 0xa2]
            && d[8..16] == [0x73, 0xe1, 0x99, 0x66, 0x89, 0xdc, 0xd4, 0xd6]
            && d[16..24] == [0x1d, 0xfa, 0xb7, 0xae, 0x32, 0xff, 0x9c, 0x82]
            && d[24..32] == [0x67, 0x9d, 0xd5, 0x14, 0x58, 0x2f, 0x9f, 0xcf]
  {
    hide BigWords, BigEndian;
    var h := S.InitialValue(f, 224);
    SpelledWord(h, 0, 0x8c, 0x3d, 0x37, 0xc8, 0x19, 0x54, 0x4d, 0xa2);
    SpelledWord(h, 1, 0x73, 0xe1, 0x99, 0x66, 0x89, 0xdc, 0xd4, 0xd6);
    SpelledWord(h, 2, 0x1d, 0xfa, 0xb7, 0xae, 0x32, 0xff, 0x9c, 0x82);
    SpelledWord(h, 3, 0x67, 0x9d, 0xd5, 0x14, 0x58, 0x2f, 0x9f, 0xcf);
  }

  lemma InitialValue224Back(f: S.Transform)
    ensures var d := BigWords(S.InitialValue(f, 224), 8);
            && d[32..40] == [0x0f, 0x6d, 0x2b, 0x69, 0x7b, 0xd4, 0x4d, 0xa8]
            && d[40..48] == [0x77, 0xe3, 0x6f, 0x73, 0x04, 0xc4, 0x89, 0x42]
            && d[48..56] == [0x3f, 0x9d, 0x85, 0xa8, 0x6a, 0x1d, 0x36, 0xc8]
            && d[56..64] == [0x11, 0x12, 0xe6, 0xad, 0x91, 0xd6, 0x92, 0xa1]
  {
    hide BigWords, BigEndian;
    var h := S.InitialValue(f, 224);
    SpelledWord(h, 4, 0x0f, 0x6d, 0x2b, 0x69, 0x7b, 0xd4, 0x4d, 0xa8);
    SpelledWord(h, 5, 0x77, 0xe3, 0x6f, 0x73, 0x04, 0xc4, 0x89, 0x42);
    SpelledWord(h, 6, 0x3f, 0x9d, 0x85, 0xa8, 0x6a, 0x1d, 0x36, 0xc8);
    SpelledWord(h, 7, 0x11, 0x12, 0xe6, 0xad, 0x91, 0xd6, 0x92, 0xa1);
  }

  /** Section 5.3.6.1 of FIPS 180-4, byte by byte. */
  lemma InitialValue224(f: S.Transform)
    ensures var d := BigWords(S.InitialValue(f, 224), 8);
            && d[0..8] == [0x8c, 0x3d, 0x37, 0xc8, 0x19, 0x54, 0x4d, 0xa2]
            && d[8..16] == [0x73, 0xe1, 0x99, 0x66, 0x89, 0xdc, 0xd4, 0xd6]
            && d[16..24] == [0x1d, 0xfa, 0xb7, 0xae, 0x32, 0xff, 0x9c, 0x82]
            && d[24..32] == [0x67, 0x9d, 0xd5, 0x14, 0x58, 0x2f, 0x9f, 0xcf]
            && d[32..40] == [0x0f, 0x6d, 0x2b, 0x69, 0x7b, 0xd4, 0x4d, 0xa8]
            && d[40..48] == [0x77, 0xe3, 0x6f, 0x73, 0x04, 0xc4, 0x89, 0x42]
            && d[48..56] == [0x3f, 0x9d, 0x85, 0xa8, 0x6a, 0x1d, 0x36, 0xc8]
            && d[56..64] == [0x11, 0x12, 0xe6, 0xad, 0x91, 0xd6, 0x92, 0xa1]
  {
    hide BigWords, S.InitialValue;
    InitialValue224Front(f);
    InitialValue224Back(f);
  }

  /** The low bits of a number are those of its low part. */
  lemma {:induction false} LowBits(m: nat, k: nat, low: nat, n: nat, q: nat, i: nat)
    requires i < n <= k && low < Pow2(n) && m == low + Pow2(n) * q
    ensures BitsOf(m, k)[i] == BitsOf(low, n)[i]
    decreases n
  {
    HalfOf(m, low, Pow2(n - 1), q);
    if i > 0 {
      LowBits(m / 2, k - 1, low / 2, n - 1, q, i - 1);
    }
  }

  lemma HalfOf(m: nat, low: nat, p: nat, q: nat)
    requires m == low + 2 * p * q
    ensures m % 2 == low % 2 && m / 2 == low / 2 + p * q
  {
    DivWord(m, 2, low % 2, low / 2 + p * q);
  }

  /** The higher bits of a number are those of its higher part. */
  lemma {:induction false} HighBits(m: nat, k: nat, n: nat, i: nat)
    requires n <= i < k
    ensures BitsOf(m, k)[i] == BitsOf(m / Pow2(n), k - n)[i - n]
    decreases n
  {
    if n > 0 {
      HighBits(m / 2, k - 1, n - 1, i - 1);
      HalvedFirst(m, Pow2(n - 1));
    }
  }

  /** The bits of 0xa5 in every byte: 0, 2, 5 and 7. */
  predicate Flipped(i: nat) {
    i % 8 == 0 || i % 8 == 2 || i % 8 == 5 || i % 8 == 7
  }

  /** m is the byte 0xa5 n times. */
  predicate RepeatsByte(m: nat, n: nat) {
    if n == 0 then m == 0 else m % 0x100 == 0xa5 && RepeatsByte(m / 0x100, n - 1)
  }

  lemma LowByteBits(i: nat)
    requires i < 8
    ensures BitsOf(0xa5, 8)[i] == Flipped(i)
  {
    assert BitsOf(0xa5, 8) == [true, false, true, false, false, true, false, true];
  }

  lemma {:induction false} MaskPattern(m: nat, n: nat, i: nat)
    requires i < 8 * n && RepeatsByte(m, n)
    ensures BitsOf(m, 8 * n)[i] == Flipped(i)
    decreases n
  {
    hide BitsOf, Pow2;
    Pow2Of8();
    if i < 8 {
      LowBits(m, 8 * n, 0xa5, 8, m / 0x100, i);
      LowByteBits(i);
    } else {
      HighBits(m, 8 * n, 8, i);
      MaskPattern(m / 0x100, n - 1, i - 8);
    }
  }

  lemma Pow2Of8()
    ensures Pow2(8) == 0x100
  {
  }

  /** Masking flips exactly those bits, and masking again undoes it. */
  lemma MaskFlips(x: uint64)
    ensures forall i :: 0 <= i < 64 ==> BitsOf(S.Mask(x), 64)[i] == (BitsOf(x, 64)[i] != Flipped(i))
    ensures S.Mask(S.Mask(x)) == x
  {
    S.Pow2Of64();
    hide XorBits, BitsOf, Pow2;
    var m := 0xa5a5_a5a5_a5a5_a5a5;
    XorIsBitwise(x, m, 64);
    XorTwice(x, m, 64);
    MaskIsPattern();
    forall i | 0 <= i < 64
      ensures BitsOf(S.Mask(x), 64)[i] == (BitsOf(x, 64)[i] != Flipped(i))
    {
      MaskPattern(m, 8, i);
    }
  }

  lemma MaskIsPattern()
    ensures RepeatsByte(0xa5a5_a5a5_a5a5_a5a5, 8)
  {
    assert RepeatsByte(0xa5a5, 2);
    assert RepeatsByte(0xa5a5_a5a5, 4);
    assert RepeatsByte(0xa5a5_a5a5_a5a5, 6);
  }

  /** The number a text of digits stands for, most significant digit first. */
  function ReadDecimal(s: seq<byte>): int {
    if s == [] then 0 else 10 * ReadDecimal(s[..|s| - 1]) + (s[|s| - 1] - '0' as int)
  }

  /** The text has only digits, no superfluous zero in front, and reads as the number. */
  lemma {:induction false} DecimalReads(n: nat)
    ensures ReadDecimal(S.Decimal(n)) == n && S.Decimal(n) != []
    ensures forall i :: 0 <= i < |S.Decimal(n)| ==> '0' as int <= S.Decimal(n)[i] <= '9' as int
    ensures n > 0 ==> S.Decimal(n)[0] != '0' as int
    decreases n
  {
    if n >= 10 {
      DecimalReads(n / 10);
      assert S.Decimal(n)[..|S.Decimal(n)| - 1] == S.Decimal(n / 10);
    } else {
      assert S.Decimal(n)[..0] == [];
    }
  }

  lemma NameIsSpelled(t: nat)
    ensures |S.Name(t)| == 8 + |S.Decimal(t)| && S.Name(t)[8..] == S.Decimal(t)
    ensures forall i :: 0 <= i < 8 ==> S.Name(t)[i] == "SHA-512/"[i] as int
  {
  }
}
