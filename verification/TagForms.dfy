/** Every form a tag can take, written out as bytes, and the reference reader as the inverse of writing it. */
module TagForms {
  import opened Arithmetic
  import opened Bytes
  import opened Format

  /** extra is the number of bytes after the tag byte: coded is one less than a literal's length. */
  datatype Form =
    | ShortLiteral(len: nat)
    | LongLiteral(extra: nat, coded: nat)
    | Copy(extra: nat, offset: nat, len: nat)

  function Power(k: nat): nat
    requires k <= 4
  {
    match k
    case 0 => 1
    case 1 => 0x100
    case 2 => 0x1_0000
    case 3 => 0x100_0000
    case 4 => 0x1_0000_0000
  }

  predicate Valid(f: Form) {
    match f
    case ShortLiteral(len) => 1 <= len <= 60
    case LongLiteral(extra, coded) => 1 <= extra <= 4 && coded < Power(extra)
    case Copy(extra, offset, len) =>
      || (extra == 1 && offset < 0x800 && 4 <= len <= 11)
      || (extra == 2 && offset < 0x1_0000 && 1 <= len <= 64)
      || (extra == 4 && offset < 0x1_0000_0000 && 1 <= len <= 64)
  }

  /** The k low bytes of v, least significant first. */
  function LowBytes(v: nat, k: nat): (r: seq<byte>)
    ensures |r| == k
  {
    if k == 0 then [] else [v % 0x100] + LowBytes(v / 0x100, k - 1)
  }

  function TagByte(f: Form): byte
    requires Valid(f)
  {
    match f
    case ShortLiteral(len) => 4 * (len - 1)
    case LongLiteral(extra, _) => 4 * (59 + extra)
    case Copy(extra, offset, len) =>
      if extra == 1 then 1 + 4 * (len - 4) + 32 * (offset / 0x100)
      else if extra == 2 then 2 + 4 * (len - 1)
      else 3 + 4 * (len - 1)
  }

  function Header(f: Form): seq<byte>
    requires Valid(f)
  {
    match f
    case ShortLiteral(_) => [TagByte(f)]
    case LongLiteral(extra, coded) => [TagByte(f)] + LowBytes(coded, extra)
    case Copy(extra, offset, _) => [TagByte(f)] + LowBytes(offset, extra)
  }

  /** The length of a literal is one more than coded in 32 bits, so four bytes of ones mean no data at all. */
  function Meaning(f: Form): Tag
    requires Valid(f)
  {
    match f
    case ShortLiteral(len) => LiteralTag(1, len)
    case LongLiteral(extra, coded) => LiteralTag(1 + extra, (coded + 1) % 0x1_0000_0000)
    case Copy(extra, offset, len) => CopyTag(1 + extra, offset, len)
  }

  lemma LowBytesAre(v: nat, k: nat)
    requires k <= 4
    ensures k >= 1 ==> LowBytes(v, k)[0] == v % 0x100
    ensures k >= 2 ==> LowBytes(v, k)[1] == v / 0x100 % 0x100
    ensures k >= 3 ==> LowBytes(v, k)[2] == v / 0x100 / 0x100 % 0x100
    ensures k >= 4 ==> LowBytes(v, k)[3] == v / 0x100 / 0x100 / 0x100 % 0x100
  {
    var v1, v2, v3 := v / 0x100, v / 0x100 / 0x100, v / 0x100 / 0x100 / 0x100;
    if k >= 1 {
      assert LowBytes(v, k) == [v % 0x100] + LowBytes(v1, k - 1);
    }
    if k >= 2 {
      assert LowBytes(v1, k - 1) == [v1 % 0x100] + LowBytes(v2, k - 2);
    }
    if k >= 3 {
      assert LowBytes(v2, k - 2) == [v2 % 0x100] + LowBytes(v3, k - 3);
    }
    if k >= 4 {
      assert LowBytes(v3, k - 3) == [v3 % 0x100] + LowBytes(v3 / 0x100, k - 4);
    }
  }

  /** A number below a power of 256 is made of its low bytes. */
  lemma DigitsMakeNumber(v: nat, k: nat)
    requires 1 <= k <= 4 && v < Power(k)
    ensures var v1, v2, v3 := v / 0x100, v / 0x100 / 0x100, v / 0x100 / 0x100 / 0x100;
            v == Word(v % 0x100, if k >= 2 then v1 % 0x100 else 0, if k >= 3 then v2 % 0x100 else 0,
                      if k >= 4 then v3 % 0x100 else 0)
  {
  }

  /** The trailer after a tag byte is the number whose bytes were put there. */
  lemma TrailerOfLowBytes(c: byte, v: nat, k: nat, rest: seq<byte>)
    requires 1 <= k <= 4
    ensures v < Power(k) ==> Trailer([c] + LowBytes(v, k) + rest, k) == v
    ensures k == 1 ==> Trailer([c] + LowBytes(v, k) + rest, k) == v % 0x100
  {
    hide LowBytes, Power;
    var b := LowBytes(v, k);
    var s := [c] + b + rest;
    LowBytesAre(v, k);
    assert s[1] == b[0];
    assert k >= 2 ==> s[2] == b[1];
    assert k >= 3 ==> s[3] == b[2];
    assert k >= 4 ==> s[4] == b[3];
    if v < Power(k) {
      DigitsMakeNumber(v, k);
    }
  }

  lemma CopyOneByte(f: Form)
    requires Valid(f) && f.Copy? && f.extra == 1
    ensures TagByte(f) % 4 == 1 && CopyLength(TagByte(f)) == f.len
    ensures OffsetHigh(TagByte(f)) == f.offset / 0x100 * 0x100
  {
    DivWord(TagByte(f), 4, 1, f.len - 4 + 8 * (f.offset / 0x100));
    DivWord(f.len - 4 + 8 * (f.offset / 0x100), 8, f.len - 4, f.offset / 0x100);
    DivWord(TagByte(f), 32, 1 + 4 * (f.len - 4), f.offset / 0x100);
  }

  /** Whatever follows it, a written header reads as what it was written for. */
  lemma HeaderIsRead(f: Form, rest: seq<byte>)
    requires Valid(f)
    ensures HasTag(Header(f) + rest) && ReadTag(Header(f) + rest) == Meaning(f)
  {
    hide Trailer, LowBytes;
    var s := Header(f) + rest;
    assert s[0] == TagByte(f);
    match f
    case ShortLiteral(len) =>
    case LongLiteral(extra, coded) =>
      TrailerOfLowBytes(TagByte(f), coded, extra, rest);
    case Copy(extra, offset, len) =>
      TrailerOfLowBytes(TagByte(f), offset, extra, rest);
      if extra == 1 {
        CopyOneByte(f);
      }
  }

  lemma WordDigits(b0: byte, b1: byte, b2: byte, b3: byte)
    ensures var v := Word(b0, b1, b2, b3);
            && v % 0x100 == b0 && v / 0x100 % 0x100 == b1
            && v / 0x100 / 0x100 % 0x100 == b2 && v / 0x100 / 0x100 / 0x100 % 0x100 == b3
  {
    DivWord(Word(b0, b1, b2, b3), 0x100, b0, Word(b1, b2, b3, 0));
    DivWord(Word(b1, b2, b3, 0), 0x100, b1, Word(b2, b3, 0, 0));
    DivWord(Word(b2, b3, 0, 0), 0x100, b2, b3);
  }

  /** A trailer's bytes are the low bytes of it. */
  lemma TrailerBytes(s: seq<byte>, k: nat)
    requires k <= 4 && k < |s|
    ensures Trailer(s, k) < Power(k) && LowBytes(Trailer(s, k), k) == s[1..1 + k]
  {
    hide LowBytes;
    LowBytesAre(Trailer(s, k), k);
    if k == 1 {
      WordDigits(s[1], 0, 0, 0);
    } else if k == 2 {
      WordDigits(s[1], s[2], 0, 0);
    } else if k == 3 {
      WordDigits(s[1], s[2], s[3], 0);
    } else if k == 4 {
      WordDigits(s[1], s[2], s[3], s[4]);
    }
  }

  lemma OffsetParts(c: byte, low: byte)
    requires c % 4 == 1
    ensures var offset := c / 32 * 0x100 + low;
            offset / 0x100 == c / 32 && offset % 0x100 == low && offset < 0x800
    ensures c == 1 + 4 * (c / 4 % 8) + 32 * (c / 32)
  {
    DivWord(c / 32 * 0x100 + low, 0x100, low, c / 32);
    DivWord(c / 4, 8, c / 4 % 8, c / 32);
  }

  lemma CopyHasForm(s: seq<byte>)
    requires HasTag(s) && s[0] % 4 != 0
    ensures var f := Copy(ExtraBytes(s[0]), ReadTag(s).offset, ReadTag(s).len);
            Valid(f) && TagByte(f) == s[0] && LowBytes(f.offset, f.extra) == s[1..1 + f.extra]
  {
    hide LowBytes, Trailer;
    var c, k := s[0], ExtraBytes(s[0]);
    TrailerBytes(s, k);
    if k == 1 {
      var low, offset := Trailer(s, 1), ReadTag(s).offset;
      OffsetParts(c, low);
      LowBytesAre(offset, 1);
      LowBytesAre(low, 1);
      assert LowBytes(offset, 1) == LowBytes(low, 1);
    }
  }

  /** Every complete tag is one of the forms, so the reader has no other cases. */
  lemma EveryTagHasForm(s: seq<byte>) returns (f: Form)
    requires HasTag(s)
    ensures Valid(f) && s[..ReadTag(s).size] == Header(f) && ReadTag(s) == Meaning(f)
  {
    hide LowBytes, Trailer;
    var c, k := s[0], ExtraBytes(s[0]);
    assert s[..1 + k] == [c] + s[1..1 + k];
    if c % 4 != 0 {
      CopyHasForm(s);
      f := Copy(k, ReadTag(s).offset, ReadTag(s).len);
    } else if k == 0 {
      f := ShortLiteral(c / 4 + 1);
    } else {
      TrailerBytes(s, k);
      f := LongLiteral(k, Trailer(s, k));
    }
  }
}
