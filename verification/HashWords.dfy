/** Chaining values and the byte order of their words. */
module HashWords {
  import opened Arithmetic
  import opened Bytes

  /** Eight 64-bit words. */
  type Chain64 = h: seq<uint64> | |h| == 8 witness [0, 0, 0, 0, 0, 0, 0, 0]

  /** Eight 32-bit words. */
  type Chain32 = h: seq<uint32> | |h| == 8 witness [0, 0, 0, 0, 0, 0, 0, 0]

  function Zeros(n: nat): (z: seq<byte>)
    ensures |z| == n && forall i :: 0 <= i < n ==> z[i] == 0
  {
    seq(n, i => 0)
  }

  /** The n low bytes of x, least significant first. */
  function LittleEndian(x: nat, n: nat): (b: seq<byte>)
    ensures |b| == n
  {
    if n == 0 then [] else [x % 0x100] + LittleEndian(x / 0x100, n - 1)
  }

  /** The n low bytes of x, most significant first. */
  function BigEndian(x: nat, n: nat): (b: seq<byte>)
    ensures |b| == n
  {
    if n == 0 then [] else BigEndian(x / 0x100, n - 1) + [x % 0x100]
  }

  function Power256(n: nat): (p: nat)
    ensures p >= 1
  {
    if n == 0 then 1 else 0x100 * Power256(n - 1)
  }

  /** The number stored least significant byte first. */
  function FromLittleEndian(b: seq<byte>): (x: nat)
    ensures x < Power256(|b|)
  {
    if b == [] then 0 else b[0] + 0x100 * FromLittleEndian(b[1..])
  }

  function Reverse(b: seq<byte>): (r: seq<byte>)
    ensures |r| == |b| && forall i :: 0 <= i < |b| ==> r[i] == b[|b| - 1 - i]
  {
    seq(|b|, i requires 0 <= i < |b| => b[|b| - 1 - i])
  }

  lemma {:induction false} BigIsReversed(x: nat, n: nat)
    ensures BigEndian(x, n) == Reverse(LittleEndian(x, n))
    decreases n
  {
    if n > 0 {
      BigIsReversed(x / 0x100, n - 1);
    }
  }

  lemma {:induction false} LittleOfNumber(b: seq<byte>)
    ensures LittleEndian(FromLittleEndian(b), |b|) == b
    decreases |b|
  {
    if b != [] {
      LittleOfNumber(b[1..]);
      DivWord(FromLittleEndian(b), 0x100, b[0], FromLittleEndian(b[1..]));
    }
  }

  lemma {:induction false} NumberOfLittle(x: nat, n: nat)
    requires x < Power256(n)
    ensures FromLittleEndian(LittleEndian(x, n)) == x
    decreases n
  {
    if n > 0 {
      NumberOfLittle(x / 0x100, n - 1);
    }
  }

  /** Leading zero bytes. */
  lemma {:induction false} BigEndianWider(x: nat, n: nat, k: nat)
    requires x < Power256(n)
    ensures BigEndian(x, k + n) == Zeros(k) + BigEndian(x, n)
    decreases n + k
  {
    if n > 0 {
      BigEndianWider(x / 0x100, n - 1, k);
    } else if k > 0 {
      BigEndianWider(0, 0, k - 1);
    }
  }

  /** A 64-bit word with its bytes in the opposite order. */
  function Swap64(x: uint64): uint64 {
    var y := FromLittleEndian(BigEndian(x, 8));
    Bytes8();
    y
  }

  lemma Bytes8()
    ensures Power256(8) == 0x1_0000_0000_0000_0000
  {
    assert Power256(4) == 0x1_0000_0000;
  }

  /** Storing the swapped word least significant byte first stores the word most significant byte first. */
  lemma SwapStores(x: uint64)
    ensures LittleEndian(Swap64(x), 8) == BigEndian(x, 8)
  {
    LittleOfNumber(BigEndian(x, 8));
  }

  lemma SwapTwice(x: uint64)
    ensures Swap64(Swap64(x)) == x
  {
    SwapStores(x);
    BigIsReversed(x, 8);
    BigIsReversed(Swap64(x), 8);
    assert Reverse(Reverse(LittleEndian(x, 8))) == LittleEndian(x, 8);
    Bytes8();
    NumberOfLittle(x, 8);
  }

  /** The first n words of the chaining value, each least significant byte first. */
  function StoredWords(h: Chain64, n: nat): (d: seq<byte>)
    requires n <= 8
    ensures |d| == 8 * n
  {
    if n == 0 then [] else StoredWords(h, n - 1) + LittleEndian(h[n - 1], 8)
  }

  lemma {:induction false} StoredPrefix(h: Chain64, n: nat, m: nat)
    requires n <= m <= 8
    ensures StoredWords(h, n) == StoredWords(h, m)[..8 * n]
    decreases m
  {
    if n < m {
      StoredPrefix(h, n, m - 1);
    }
  }

  /** The first n words of the chaining value, each most significant byte first. */
  function BigWords(h: Chain64, n: nat): (d: seq<byte>)
    requires n <= 8
    ensures |d| == 8 * n
  {
    if n == 0 then [] else BigWords(h, n - 1) + BigEndian(h[n - 1], 8)
  }

  function Swapped(h: Chain64): Chain64 {
    seq(8, i requires 0 <= i < 8 => Swap64(h[i]))
  }

  lemma SwappedTwice(h: Chain64)
    ensures Swapped(Swapped(h)) == h
  {
    forall i | 0 <= i < 8
      ensures Swapped(Swapped(h))[i] == h[i]
    {
      SwapTwice(h[i]);
    }
  }

  lemma {:induction false} SwappedStores(h: Chain64, n: nat)
    requires n <= 8
    ensures StoredWords(Swapped(h), n) == BigWords(h, n)
  {
    if n > 0 {
      SwappedStores(h, n - 1);
      SwapStores(h[n - 1]);
    }
  }

  /** A message handed over in pieces. */
  function Concat(pieces: seq<seq<byte>>): seq<byte> {
    if pieces == [] then [] else Concat(pieces[..|pieces| - 1]) + pieces[|pieces| - 1]
  }

  /** The first n words of a 32-bit chaining value, each most significant byte first. */
  function BigWords32(h: Chain32, n: nat): (d: seq<byte>)
    requires n <= 8
    ensures |d| == 4 * n
  {
    if n == 0 then [] else BigWords32(h, n - 1) + BigEndian(h[n - 1], 4)
  }

  /** A number stored as a high and a low part. */
  lemma {:induction false} BigEndianHalves(high: nat, low: nat, n: nat, m: nat)
    requires low < Power256(m)
    ensures BigEndian(high * Power256(m) + low, n + m) == BigEndian(high, n) + BigEndian(low, m)
    decreases m
  {
    if m > 0 {
      var p := Power256(m - 1);
      var rest := high * p + low / 0x100;
      BigEndianHalves(high, low / 0x100, n, m - 1);
      Scaled(high, p, low);
      DivWord(high * Power256(m) + low, 0x100, low % 0x100, rest);
      hide Power256;
    } else {
      assert high * Power256(0) + low == high;
    }
  }

  lemma Scaled(high: nat, p: nat, low: nat)
    ensures high * (0x100 * p) + low == low % 0x100 + 0x100 * (high * p + low / 0x100)
  {
  }

  /** Byte i of a number, counted from the least significant, by division and remainder. */
  lemma {:induction false} ByteOfNumber(x: nat, n: nat, i: nat)
    requires i < n
    ensures LittleEndian(x, n)[i] == x / Power256(i) % 0x100
    ensures BigEndian(x, n)[n - 1 - i] == x / Power256(i) % 0x100
    decreases i
  {
    if i > 0 {
      ByteOfNumber(x / 0x100, n - 1, i - 1);
      DivideTwice(x, Power256(i - 1));
    }
  }

  lemma DivideTwice(x: nat, p: nat)
    requires p >= 1
    ensures x / 0x100 / p == x / (0x100 * p)
  {
    var y := x / 0x100;
    var q := y / p;
    DivWord(y, p, y % p, q);
    assert x == 0x100 * y + x % 0x100;
    assert x == (0x100 * (y % p) + x % 0x100) + (0x100 * p) * q;
    DivWord(x, 0x100 * p, 0x100 * (y % p) + x % 0x100, q);
  }

  /** Word i is stored at byte 4 * i, or 8 * i. */
  lemma {:induction false} BigWord32At(h: Chain32, n: nat, i: nat)
    requires i < n <= 8
    ensures BigWords32(h, n)[4 * i..4 * i + 4] == BigEndian(h[i], 4)
    decreases n
  {
    if i < n - 1 {
      BigWord32At(h, n - 1, i);
      assert BigWords32(h, n)[4 * i..4 * i + 4] == BigWords32(h, n - 1)[4 * i..4 * i + 4];
    }
  }

  lemma {:induction false} BigWordAt(h: Chain64, n: nat, i: nat)
    requires i < n <= 8
    ensures BigWords(h, n)[8 * i..8 * i + 8] == BigEndian(h[i], 8)
    decreases n
  {
    if i < n - 1 {
      BigWordAt(h, n - 1, i);
      assert BigWords(h, n)[8 * i..8 * i + 8] == BigWords(h, n - 1)[8 * i..8 * i + 8];
    }
  }

  lemma {:induction false} StoredWordAt(h: Chain64, n: nat, i: nat)
    requires i < n <= 8
    ensures StoredWords(h, n)[8 * i..8 * i + 8] == LittleEndian(h[i], 8)
    decreases n
  {
    if i < n - 1 {
      StoredWordAt(h, n - 1, i);
      assert StoredWords(h, n)[8 * i..8 * i + 8] == StoredWords(h, n - 1)[8 * i..8 * i + 8];
    }
  }

  /** Digest byte 4 * i + j is byte 3 - j of word i. */
  lemma BigByte32(h: Chain32, i: nat, j: nat)
    requires i < 8 && j < 4
    ensures BigWords32(h, 8)[4 * i + j] == h[i] / Power256(3 - j) % 0x100
  {
    hide BigWords32, BigEndian, Power256;
    BigWord32At(h, 8, i);
    ByteOfNumber(h[i], 4, 3 - j);
    assert BigWords32(h, 8)[4 * i + j] == BigWords32(h, 8)[4 * i..4 * i + 4][j];
  }

  /** Digest byte 8 * i + j is byte 7 - j of word i. */
  lemma BigByte(h: Chain64, i: nat, j: nat)
    requires i < 8 && j < 8
    ensures BigWords(h, 8)[8 * i + j] == h[i] / Power256(7 - j) % 0x100
  {
    hide BigWords, BigEndian, Power256;
    BigWordAt(h, 8, i);
    ByteOfNumber(h[i], 8, 7 - j);
    assert BigWords(h, 8)[8 * i + j] == BigWords(h, 8)[8 * i..8 * i + 8][j];
  }

  /** Digest byte 8 * i + j is byte j of word i. */
  lemma StoredByte(h: Chain64, i: nat, j: nat)
    requires i < 8 && j < 8
    ensures StoredWords(h, 8)[8 * i + j] == h[i] / Power256(j) % 0x100
  {
    hide StoredWords, LittleEndian, Power256;
    StoredWordAt(h, 8, i);
    ByteOfNumber(h[i], 8, j);
    assert StoredWords(h, 8)[8 * i + j] == StoredWords(h, 8)[8 * i..8 * i + 8][j];
  }

  lemma BigBytes32(h: Chain32)
    ensures forall k :: 0 <= k < 32 ==> BigWords32(h, 8)[k] == h[k / 4] / Power256(3 - k % 4) % 0x100
  {
    hide BigWords32, Power256;
    forall k | 0 <= k < 32
      ensures BigWords32(h, 8)[k] == h[k / 4] / Power256(3 - k % 4) % 0x100
    {
      BigByte32(h, k / 4, k % 4);
    }
  }

  lemma BigBytes(h: Chain64)
    ensures forall k :: 0 <= k < 64 ==> BigWords(h, 8)[k] == h[k / 8] / Power256(7 - k % 8) % 0x100
  {
    hide BigWords, Power256;
    forall k | 0 <= k < 64
      ensures BigWords(h, 8)[k] == h[k / 8] / Power256(7 - k % 8) % 0x100
    {
      BigByte(h, k / 8, k % 8);
    }
  }

  lemma StoredBytes(h: Chain64)
    ensures forall k :: 0 <= k < 64 ==> StoredWords(h, 8)[k] == h[k / 8] / Power256(k % 8) % 0x100
  {
    hide StoredWords, Power256;
    forall k | 0 <= k < 64
      ensures StoredWords(h, 8)[k] == h[k / 8] / Power256(k % 8) % 0x100
    {
      StoredByte(h, k / 8, k % 8);
    }
  }
}
