/** Bytes, machine words and the little-endian loads the codec is built on. */
module Bytes {
  import opened Arithmetic

  type byte = x: int | 0 <= x < 0x100
  type uint16 = x: int | 0 <= x < 0x1_0000
  type uint32 = x: int | 0 <= x < 0x1_0000_0000
  type uint64 = x: int | 0 <= x < 0x1_0000_0000_0000_0000

  datatype Option<+T> = None | Some(value: T)

  function Min(a: int, b: int): int { if a <= b then a else b }

  function Max(a: int, b: int): int { if a <= b then b else a }

  lemma SliceOfSlice<T>(s: seq<T>, a: nat, b: nat, c: nat, d: nat)
    requires a <= b <= |s| && c <= d <= b - a
    ensures s[a..b][c..d] == s[a + c..a + d]
  {
    var x, y := s[a..b][c..d], s[a + c..a + d];
    forall k | 0 <= k < d - c
      ensures x[k] == y[k]
    {
      assert x[k] == s[a..b][c + k] == s[a + (c + k)];
    }
    assert x == y;
  }

  function Word(b0: int, b1: int, b2: int, b3: int): int {
    b0 + 0x100 * b1 + 0x1_0000 * b2 + 0x100_0000 * b3
  }

  /** The 32-bit little-endian word stored at s[i..i+4]. */
  function Load32(s: seq<byte>, i: nat): uint32
    requires i + 4 <= |s|
  {
    Word(s[i], s[i + 1], s[i + 2], s[i + 3])
  }

  /** The 64-bit little-endian word stored at s[i..i+8]. */
  function Load64(s: seq<byte>, i: nat): uint64
    requires i + 8 <= |s|
  {
    0x1_0000_0000 * Word(s[i + 4], s[i + 5], s[i + 6], s[i + 7]) + Word(s[i], s[i + 1], s[i + 2], s[i + 3])
  }

  /** Two 32-bit loads are equal exactly when the four bytes under them are. */
  lemma Load32Injective(s: seq<byte>, i: nat, j: nat)
    requires i + 4 <= |s| && j + 4 <= |s|
    ensures Load32(s, i) == Load32(s, j) <==> s[i..i + 4] == s[j..j + 4]
  {
    var a, b := s[i..i + 4], s[j..j + 4];
    assert Load32(s, i) == Word(a[0], a[1], a[2], a[3]);
    assert Load32(s, j) == Word(b[0], b[1], b[2], b[3]);
    if Load32(s, i) == Load32(s, j) {
      WordInjective(a[0], a[1], a[2], a[3], b[0], b[1], b[2], b[3]);
    }
  }

  lemma WordInjective(a0: byte, a1: byte, a2: byte, a3: byte, b0: byte, b1: byte, b2: byte, b3: byte)
    requires Word(a0, a1, a2, a3) == Word(b0, b1, b2, b3)
    ensures a0 == b0 && a1 == b1 && a2 == b2 && a3 == b3
  {
    DivWord(Word(a0, a1, a2, a3), 0x100, a0, Word(a1, a2, a3, 0));
    DivWord(Word(a0, a1, a2, a3), 0x100, b0, Word(b1, b2, b3, 0));
    DivWord(Word(a1, a2, a3, 0), 0x100, a1, Word(a2, a3, 0, 0));
    DivWord(Word(a1, a2, a3, 0), 0x100, b1, Word(b2, b3, 0, 0));
  }

  /** The 32 bits at byte offset 0 to 4 of a 64-bit word (GetUint32AtOffset). */
  function Uint32AtOffset(v: uint64, offset: nat): uint32
    requires offset <= 4
  {
    match offset
    case 0 => v % 0x1_0000_0000
    case 1 => v / 0x100 % 0x1_0000_0000
    case 2 => v / 0x1_0000 % 0x1_0000_0000
    case 3 => v / 0x100_0000 % 0x1_0000_0000
    case 4 => v / 0x1_0000_0000 % 0x1_0000_0000
  }

  /** Extracting from one eight-byte load gives the same word as the overlapping four-byte load. */
  lemma Uint32AtOffsetIsLoad(s: seq<byte>, i: nat, offset: nat)
    requires i + 8 <= |s| && offset <= 4
    ensures Uint32AtOffset(Load64(s, i), offset) == Load32(s, i + offset)
  {
    var b0: int, b1: int, b2: int, b3: int := s[i], s[i + 1], s[i + 2], s[i + 3];
    var b4: int, b5: int, b6: int, b7: int := s[i + 4], s[i + 5], s[i + 6], s[i + 7];
    match offset
    case 0 => MiddleWord(Load64(s, i), 1, 0, Word(b0, b1, b2, b3), Word(b4, b5, b6, b7));
    case 1 => MiddleWord(Load64(s, i), 0x100, b0, Word(b1, b2, b3, b4), Word(b5, b6, b7, 0));
    case 2 => MiddleWord(Load64(s, i), 0x1_0000, Word(b0, b1, 0, 0), Word(b2, b3, b4, b5), Word(b6, b7, 0, 0));
    case 3 => MiddleWord(Load64(s, i), 0x100_0000, Word(b0, b1, b2, 0), Word(b3, b4, b5, b6), b7);
    case 4 => MiddleWord(Load64(s, i), 0x1_0000_0000, Word(b0, b1, b2, b3), Word(b4, b5, b6, b7), 0);
  }

  /** A word in the middle of a number, above a part smaller than d. */
  lemma MiddleWord(v: nat, d: nat, low: nat, word: nat, high: nat)
    requires d > 0 && low < d && word < 0x1_0000_0000 && v == low + d * (word + 0x1_0000_0000 * high)
    ensures v / d % 0x1_0000_0000 == word
  {
    DivWord(v, d, low, word + 0x1_0000_0000 * high);
    DivWord(word + 0x1_0000_0000 * high, 0x1_0000_0000, word, high);
  }

  /** buf agrees with what it held before except on lo..hi. */
  twostate predicate OnlyChanged(buf: array<byte>, lo: int, hi: int)
    reads buf
  {
    forall i :: 0 <= i < buf.Length && !(lo <= i < hi) ==> buf[i] == old(buf[i])
  }

  /** Copies bytes that do not live in dst. */
  method Memcpy(dst: array<byte>, op: nat, src: seq<byte>)
    requires op + |src| <= dst.Length
    modifies dst
    ensures dst[op..op + |src|] == src
    ensures OnlyChanged(dst, op, op + |src|)
  {
    forall k | 0 <= k < |src| {
      dst[op + k] := src[k];
    }
  }
}
