/** Machine words as bit strings, least significant bit first, and the portable bit scans over them. */
module Bits {
  import opened Arithmetic
  import opened Bytes

  /** The low k bits of n. */
  function BitsOf(n: nat, k: nat): (r: seq<bool>)
    ensures |r| == k
  {
    if k == 0 then [] else [n % 2 == 1] + BitsOf(n / 2, k - 1)
  }

  function Pow2(k: nat): (p: nat)
    ensures p >= 1
  {
    if k == 0 then 1 else 2 * Pow2(k - 1)
  }

  lemma {:induction false} BitsInjective(n: nat, m: nat, k: nat)
    requires n < Pow2(k) && m < Pow2(k) && BitsOf(n, k) == BitsOf(m, k)
    ensures n == m
    decreases k
  {
    if k > 0 {
      assert BitsOf(n, k)[1..] == BitsOf(n / 2, k - 1);
      assert BitsOf(m, k)[1..] == BitsOf(m / 2, k - 1);
      assert BitsOf(n, k)[0] == BitsOf(m, k)[0];
      BitsInjective(n / 2, m / 2, k - 1);
    }
  }

  /** The little-endian word stored in the bytes s: bit i is bit i % 8 of byte i / 8. */
  function WordOf(s: seq<byte>): (w: seq<bool>)
    ensures |w| == 8 * |s|
  {
    seq(8 * |s|, i requires 0 <= i < 8 * |s| => BitsOf(s[i / 8], 8)[i % 8])
  }

  lemma WordBit(s: seq<byte>, j: nat, i: nat)
    requires j < |s| && i < 8
    ensures 8 * j + i < 8 * |s| && WordOf(s)[8 * j + i] == BitsOf(s[j], 8)[i]
  {
    assert (8 * j + i) / 8 == j && (8 * j + i) % 8 == i;
  }

  function Xor(x: seq<bool>, y: seq<bool>): (r: seq<bool>)
    requires |x| == |y|
    ensures |r| == |x| && forall i :: 0 <= i < |x| ==> r[i] == (x[i] != y[i])
  {
    seq(|x|, i requires 0 <= i < |x| => x[i] != y[i])
  }

  /** Bit i of a number is the remainder by two after i halvings. */
  lemma {:induction false} BitAt(n: nat, k: nat, i: nat)
    requires i < k
    ensures BitsOf(n, k)[i] <==> n / Pow2(i) % 2 == 1
    decreases i
  {
    if i > 0 {
      BitAt(n / 2, k - 1, i - 1);
      HalvedFirst(n, Pow2(i - 1));
    }
  }

  lemma HalvedFirst(n: nat, p: nat)
    requires p >= 1
    ensures n / 2 / p == n / (2 * p)
  {
    var q := n / 2 / p;
    DivWord(n / 2, p, n / 2 % p, q);
    assert n == 2 * (n / 2) + n % 2;
    assert n == (2 * (n / 2 % p) + n % 2) + (2 * p) * q;
    DivWord(n, 2 * p, 2 * (n / 2 % p) + n % 2, q);
  }

  /** The low n bits of a and b combined, least significant first. */
  function XorBits(a: nat, b: nat, n: nat): (r: nat)
    ensures r < Pow2(n)
  {
    if n == 0 then 0 else (if a % 2 == b % 2 then 0 else 1) + 2 * XorBits(a / 2, b / 2, n - 1)
  }

  lemma XorFirst(a: nat, b: nat, n: nat)
    requires n > 0
    ensures var r := XorBits(a, b, n);
            r % 2 == (if a % 2 == b % 2 then 0 else 1) && r / 2 == XorBits(a / 2, b / 2, n - 1)
  {
  }

  lemma BitsFirst(n: nat, k: nat)
    requires k > 0
    ensures BitsOf(n, k) == [n % 2 == 1] + BitsOf(n / 2, k - 1)
  {
  }

  /** Every bit of the result is set exactly when the two bits differ. */
  lemma {:induction false} XorIsBitwise(a: nat, b: nat, n: nat)
    ensures BitsOf(XorBits(a, b, n), n) == Xor(BitsOf(a, n), BitsOf(b, n))
    decreases n
  {
    hide BitsOf, XorBits;
    if n > 0 {
      XorIsBitwise(a / 2, b / 2, n - 1);
      XorFirst(a, b, n);
      BitsFirst(a, n);
      BitsFirst(b, n);
      BitsFirst(XorBits(a, b, n), n);
    }
  }

  /** Combining with the same number again gives the number back. */
  lemma {:induction false} XorTwice(a: nat, b: nat, n: nat)
    requires a < Pow2(n)
    ensures XorBits(XorBits(a, b, n), b, n) == a
    decreases n
  {
    if n > 0 {
      XorTwice(a / 2, b / 2, n - 1);
    }
  }

  lemma {:induction false} XorZeroBits(a: nat, n: nat)
    requires a < Pow2(n)
    ensures XorBits(a, 0, n) == a
  {
    if n > 0 {
      XorZeroBits(a / 2, n - 1);
    }
  }

  /** x << k within the width of x. */
  function ShiftLeft(x: seq<bool>, k: nat): (r: seq<bool>)
    requires k <= |x|
    ensures |r| == |x| && forall i :: 0 <= i < |x| ==> r[i] == (i >= k && x[i - k])
  {
    seq(|x|, i requires 0 <= i < |x| => i >= k && x[i - k])
  }

  predicate NonZero(x: seq<bool>) {
    exists i :: 0 <= i < |x| && x[i]
  }

  predicate IsLowestSetBit(x: seq<bool>, r: nat) {
    r < |x| && x[r] && forall i :: 0 <= i < r ==> !x[i]
  }

  /** Binary search: shift the word left while something remains, so that the lowest set bit ends at the top. */
  method FindLSBSetNonZero(value: seq<bool>) returns (rc: nat)
    requires |value| == 32 && NonZero(value)
    ensures IsLowestSetBit(value, rc)
  {
    var n := value;
    rc := 31;
    var i: int, shift: nat := 4, 16;
    assert ShiftLeft(value, 0) == value;
    while i >= 0
      invariant Probing(value, n, rc, i, shift)
    {
      var x := ShiftLeft(n, shift);
      ProbeStep(value, n, x, rc, i, shift);
      if NonZero(x) {
        n := x;
        rc := rc - shift;
      }
      shift := shift / 2;
      i := i - 1;
    }
    LowestAfterShift(value, n, 31 - rc);
  }

  /** The value has been shifted by 31 - rc, and only its top bits are still undecided. */
  ghost predicate Probing(value: seq<bool>, n: seq<bool>, rc: nat, i: int, shift: nat)
    requires |value| == 32
  {
    && Step(i, shift)
    && rc <= 31 && n == ShiftLeft(value, 31 - rc) && NonZero(n)
    && LowBitsZero(n, if i < 0 then 1 else 2 * shift)
  }

  lemma ProbeStep(value: seq<bool>, n: seq<bool>, x: seq<bool>, rc: nat, i: int, shift: nat)
    requires |value| == 32 && i >= 0 && Probing(value, n, rc, i, shift) && x == ShiftLeft(n, shift)
    ensures NonZero(x) ==> rc >= shift && Probing(value, x, rc - shift, i - 1, shift / 2)
    ensures !NonZero(x) ==> Probing(value, n, rc, i - 1, shift / 2)
  {
    ShiftStep(value, n, x, 31 - rc, shift);
  }

  predicate Step(i: int, shift: nat) {
    || (i == 4 && shift == 16) || (i == 3 && shift == 8) || (i == 2 && shift == 4)
    || (i == 1 && shift == 2) || (i == 0 && shift == 1) || (i == -1 && shift == 0)
  }

  /** All but the top w bits are clear. */
  predicate LowBitsZero(n: seq<bool>, w: nat) {
    forall k :: 0 <= k < |n| - w ==> !n[k]
  }

  /** One probe of the search: either the shifted word keeps a bit, or the low part was already clear. */
  lemma ShiftStep(value: seq<bool>, n: seq<bool>, x: seq<bool>, a: nat, b: nat)
    requires |value| == 32 && a <= 31 && b <= 16 && n == ShiftLeft(value, a) && x == ShiftLeft(n, b)
    requires LowBitsZero(n, 2 * b)
    ensures NonZero(x) ==> a + b <= 31 && x == ShiftLeft(value, a + b) && LowBitsZero(x, b)
    ensures !NonZero(x) ==> LowBitsZero(n, b)
  {
    if NonZero(x) {
      var i :| 0 <= i < 32 && x[i];
      assert n[i - b] && value[i - b - a];
      assert forall k :: 0 <= k < 32 && k >= b ==> x[k] == n[k - b];
    } else {
      assert forall k :: 0 <= k < 32 - b ==> n[k] == x[k + b];
    }
  }

  lemma LowestAfterShift(value: seq<bool>, n: seq<bool>, a: nat)
    requires |value| == 32 && a <= 31 && n == ShiftLeft(value, a) && NonZero(n) && LowBitsZero(n, 1)
    ensures IsLowestSetBit(value, 31 - a)
  {
    assert forall k :: 0 <= k < 31 - a ==> value[k] == n[k + a];
    assert n[31] == value[31 - a];
  }

  method FindLSBSetNonZero64(n: seq<bool>) returns (rc: nat)
    requires |n| == 64 && NonZero(n)
    ensures IsLowestSetBit(n, rc)
  {
    var bottomBits, topBits := n[..32], n[32..];
    if !NonZero(bottomBits) {
      assert NonZero(topBits) by {
        var i :| 0 <= i < 64 && n[i];
        assert forall k :: 0 <= k < 32 ==> n[k] == bottomBits[k];
        assert topBits[i - 32];
      }
      rc := FindLSBSetNonZero(topBits);
      assert forall i :: 0 <= i < 32 ==> n[i] == bottomBits[i];
      assert forall i :: 32 <= i < 64 ==> n[i] == topBits[i - 32];
      rc := 32 + rc;
    } else {
      rc := FindLSBSetNonZero(bottomBits);
      assert forall i :: 0 <= i < 32 ==> n[i] == bottomBits[i];
    }
  }

  /** The lowest bit in which two words differ lies in the first byte in which they differ. */
  lemma LowestDifferenceIsFirstByte(a: seq<byte>, b: seq<byte>, r: nat)
    requires |a| == |b| && IsLowestSetBit(Xor(WordOf(a), WordOf(b)), r)
    ensures r / 8 < |a| && a[..r / 8] == b[..r / 8] && a[r / 8] != b[r / 8]
  {
    var x, y := WordOf(a), WordOf(b);
    assert x[r] != y[r];
    forall j | 0 <= j < r / 8
      ensures a[j] == b[j]
    {
      forall i | 0 <= i < 8
        ensures BitsOf(a[j], 8)[i] == BitsOf(b[j], 8)[i]
      {
        assert !Xor(x, y)[8 * j + i];
        WordBit(a, j, i);
        WordBit(b, j, i);
      }
      assert Pow2(4) == 16;
      BitsInjective(a[j], b[j], 8);
    }
  }

  /** Words of equal bytes are equal and words of different bytes differ in some bit. */
  lemma WordsDiffer(a: seq<byte>, b: seq<byte>)
    requires |a| == |b|
    ensures a != b <==> NonZero(Xor(WordOf(a), WordOf(b)))
  {
    if a != b {
      var j :| 0 <= j < |a| && a[j] != b[j];
      BytesDiffer(a[j], b[j]);
      var i :| 0 <= i < 8 && BitsOf(a[j], 8)[i] != BitsOf(b[j], 8)[i];
      WordBit(a, j, i);
      WordBit(b, j, i);
      assert Xor(WordOf(a), WordOf(b))[8 * j + i];
    }
  }

  lemma BytesDiffer(x: byte, y: byte)
    requires x != y
    ensures exists i :: 0 <= i < 8 && BitsOf(x, 8)[i] != BitsOf(y, 8)[i]
  {
    assert Pow2(4) == 16;
    if BitsOf(x, 8) == BitsOf(y, 8) {
      BitsInjective(x, y, 8);
    }
  }
}
