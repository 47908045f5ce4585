/** Variable-length encoding of 32-bit lengths (class Varint). */
module Varint {
  import opened Bytes

  /** A decoded length and the number of header bytes it took. */
  datatype Header = Header(value: uint32, size: nat)

  const MAX_32 := 5  // longest encoding of a 32-bit value

  /** x << 7 * i, for the five groups of a 32-bit value and the first shift past them. */
  function Shift7(x: nat, i: nat): nat
    requires i <= MAX_32
  {
    match i
    case 0 => x
    case 1 => 0x80 * x
    case 2 => 0x4000 * x
    case 3 => 0x20_0000 * x
    case 4 => 0x1000_0000 * x
    case 5 => 0x8_0000_0000 * x
  }

  /** The base-128 little-endian form of v, with bit 7 set on every byte but the last. */
  function Encoding(v: nat): (r: seq<byte>)
    ensures |r| >= 1
  {
    if v < 0x80 then [v] else [v % 0x80 + 0x80] + Encoding(v / 0x80)
  }

  /** The header at the front of s, if it is complete and fits in 32 bits. */
  function Parse(s: seq<byte>): (r: Option<Header>)
    ensures r.Some? ==> 1 <= r.value.size <= MAX_32 && r.value.size <= |s|
  {
    ParseFrom(s, 0, 0)
  }

  /** The groups from index i on, given the value of the groups before them. */
  function ParseFrom(s: seq<byte>, i: nat, low: nat): (r: Option<Header>)
    requires i <= MAX_32 && low < Shift7(1, i)
    ensures r.Some? ==> i < r.value.size <= MAX_32 && r.value.size <= |s|
    decreases MAX_32 - i
  {
    if i == MAX_32 || i >= |s| || (i == 4 && s[i] % 0x80 >= 0x10) then None
    else
      var v := low + Shift7(s[i] % 0x80, i);
      if s[i] < 0x80 then Some(Header(v, i + 1)) else ParseFrom(s, i + 1, v)
  }

  lemma ParseStart(s: seq<byte>)
    ensures Parse(s) == ParseFrom(s, 0, 0)
  {
  }

  /** One step of the parser. */
  lemma ParseUnfold(s: seq<byte>, i: nat, low: nat)
    requires i <= MAX_32 && low < Shift7(1, i)
    ensures i == MAX_32 || i >= |s| || (i == 4 && s[i] % 0x80 >= 0x10) ==> ParseFrom(s, i, low) == None
    ensures i < MAX_32 && i < |s| && !(i == 4 && s[i] % 0x80 >= 0x10) ==>
              var v := low + Shift7(s[i] % 0x80, i);
              v < Shift7(1, i + 1)
              && ParseFrom(s, i, low) == if s[i] < 0x80 then Some(Header(v, i + 1)) else ParseFrom(s, i + 1, v)
  {
  }

  /** Shifting seven bits up and down again in 32 bits loses some exactly in the fifth group, above bit 31. */
  lemma LostBits(val: nat, i: nat)
    requires val < 0x80 && i < MAX_32
    ensures var shifted := Shift7(val, i) % 0x1_0000_0000;
            if i == 4 && val >= 0x10 then shifted / Shift7(1, i) != val
            else shifted == Shift7(val, i) && shifted / Shift7(1, i) == val
  {
  }

  lemma {:induction false} ParseEncodingFrom(s: seq<byte>, i: nat, low: nat, v: nat, total: uint32)
    requires i < MAX_32 && low < Shift7(1, i) && low + Shift7(v, i) == total
    requires i <= |s| && Encoding(v) <= s[i..]
    ensures ParseFrom(s, i, low) == Some(Header(total, i + |Encoding(v)|))
    decreases v
  {
    hide ParseFrom, Encoding;
    EncodingHead(s, i, v);
    GroupBound(i, v, low);
    ParseUnfold(s, i, low);
    if v >= 0x80 {
      GroupStep(i, v);
      ParseEncodingFrom(s, i + 1, low + Shift7(v % 0x80, i), v / 0x80, total);
    }
  }

  lemma EncodingHead(s: seq<byte>, i: nat, v: nat)
    requires i <= |s| && Encoding(v) <= s[i..]
    ensures i < |s|
    ensures v < 0x80 ==> s[i] == v && |Encoding(v)| == 1
    ensures v >= 0x80 ==>
              && s[i] == v % 0x80 + 0x80
              && Encoding(v / 0x80) <= s[i + 1..]
              && |Encoding(v)| == 1 + |Encoding(v / 0x80)|
  {
    assert s[i] == s[i..][0] == Encoding(v)[0];
    if v >= 0x80 {
      assert Encoding(v)[1..] == Encoding(v / 0x80);
      assert s[i + 1..] == s[i..][1..];
    }
  }

  lemma GroupBound(i: nat, v: nat, low: nat)
    requires i < MAX_32 && low + Shift7(v, i) < 0x1_0000_0000
    ensures i == 4 ==> v < 0x10
    ensures v >= 0x80 ==> i < 4
    ensures v < 0x80 ==> low + Shift7(v, i) == low + Shift7(v % 0x80, i)
  {
  }

  lemma GroupStep(i: nat, v: nat)
    requires i < 4
    ensures Shift7(v % 0x80, i) + Shift7(v / 0x80, i + 1) == Shift7(v, i)
  {
  }

  /** Decoding inverts encoding, whatever follows the header. */
  lemma ParseEncoding(v: uint32, rest: seq<byte>)
    ensures Parse(Encoding(v) + rest) == Some(Header(v, |Encoding(v)|))
    ensures |Encoding(v)| <= MAX_32
  {
    var s := Encoding(v) + rest;
    assert s[0..] == s;
    ParseEncodingFrom(s, 0, 0, v, v);
  }

  /** Writes v at dst[at..] by the size classes of the source and returns the end of what was written. */
  method Encode32(dst: array<byte>, at: nat, v: uint32) returns (end: nat)
    requires at + MAX_32 <= dst.Length
    modifies dst
    ensures at < end <= at + MAX_32
    ensures dst[at..end] == Encoding(v)
    ensures dst[..at] == old(dst[..at])
  {
    EncodingStep(v);
    if v < 0x80 {
      dst[at] := v;
      end := at + 1;
    } else if v < 0x4000 {
      Encoding2(v);
      dst[at], dst[at + 1] := WithContinuation(v), v / 0x80;
      end := at + 2;
    } else if v < 0x20_0000 {
      Encoding3(v);
      dst[at], dst[at + 1], dst[at + 2] := WithContinuation(v), WithContinuation(v / 0x80), v / 0x4000;
      end := at + 3;
    } else if v < 0x1000_0000 {
      Encoding4(v);
      dst[at], dst[at + 1] := WithContinuation(v), WithContinuation(v / 0x80);
      dst[at + 2], dst[at + 3] := WithContinuation(v / 0x4000), v / 0x20_0000;
      end := at + 4;
    } else {
      Encoding5(v);
      dst[at], dst[at + 1] := WithContinuation(v), WithContinuation(v / 0x80);
      dst[at + 2], dst[at + 3] := WithContinuation(v / 0x4000), WithContinuation(v / 0x20_0000);
      dst[at + 4] := v / 0x1000_0000;
      end := at + 5;
    }
  }

  lemma Encoding2(v: nat)
    requires 0x80 <= v < 0x4000
    ensures Encoding(v) == [WithContinuation(v), v / 0x80]
  {
  }

  lemma Encoding3(v: nat)
    requires 0x4000 <= v < 0x20_0000
    ensures Encoding(v) == [WithContinuation(v), WithContinuation(v / 0x80), v / 0x4000]
  {
    EncodingStep(v);
    DivChain(v, 0x80, v / 0x80);
    Encoding2(v / 0x80);
  }

  lemma Encoding4(v: nat)
    requires 0x20_0000 <= v < 0x1000_0000
    ensures Encoding(v) == [WithContinuation(v), WithContinuation(v / 0x80),
                            WithContinuation(v / 0x4000), v / 0x20_0000]
  {
    EncodingStep(v);
    DivChain(v / 0x80, 0x80, v / 0x80 / 0x80);
    DivChain(v, 0x80, v / 0x80);
    DivChain(v, 0x4000, v / 0x4000);
    Encoding3(v / 0x80);
  }

  lemma Encoding5(v: nat)
    requires 0x1000_0000 <= v < 0x1_0000_0000
    ensures Encoding(v) == [WithContinuation(v), WithContinuation(v / 0x80), WithContinuation(v / 0x4000),
                            WithContinuation(v / 0x20_0000), v / 0x1000_0000]
  {
    var q := v / 0x80;
    EncodingStep(v);
    DivChain(q, 0x80, q / 0x80);
    DivChain(q, 0x4000, q / 0x4000);
    DivChain(v, 0x80, q);
    DivChain(v, 0x4000, v / 0x4000);
    DivChain(v, 0x20_0000, v / 0x20_0000);
    Encoding4(q);
  }

  lemma EncodingSize(v: uint32)
    ensures |Encoding(v)| ==
            if v < 0x80 then 1
            else if v < 0x4000 then 2
            else if v < 0x20_0000 then 3
            else if v < 0x1000_0000 then 4
            else 5
  {
    EncodingStep(v);
    if v >= 0x1000_0000 {
      Encoding5(v);
    } else if v >= 0x20_0000 {
      Encoding4(v);
    } else if v >= 0x4000 {
      Encoding3(v);
    } else if v >= 0x80 {
      Encoding2(v);
    }
    hide Encoding;
  }

  lemma DivChain(v: nat, d: nat, q: nat)
    requires d == 0x80 || d == 0x4000 || d == 0x20_0000
    requires q == v / d
    ensures q / 0x80 == v / (0x80 * d)
  {
  }

  lemma EncodingStep(v: nat)
    ensures v < 0x80 ==> Encoding(v) == [v]
    ensures v >= 0x80 ==> Encoding(v) == [WithContinuation(v)] + Encoding(v / 0x80)
  {
  }

  /** (x | 128) truncated to a byte. */
  function WithContinuation(x: nat): byte {
    x % 0x80 + 0x80
  }

  /** The unrolled parser that sizes the output buffer; limit is the end of s. */
  method Parse32WithLimit(s: seq<byte>) returns (r: Option<Header>)
    ensures r == Parse(s)
  {
    hide ParseFrom;
    var result: nat;
    ParseUnfold(s, 0, 0);
    if |s| <= 0 { return None; }
    var b: int := s[0];
    result := b % 0x80;
    if b < 0x80 { return Some(Header(result, 1)); }
    ParseUnfold(s, 1, result);
    if |s| <= 1 { return None; }
    b := s[1];
    result := result + b % 0x80 * 0x80;
    if b < 0x80 { return Some(Header(result, 2)); }
    ParseUnfold(s, 2, result);
    if |s| <= 2 { return None; }
    b := s[2];
    result := result + b % 0x80 * 0x4000;
    if b < 0x80 { return Some(Header(result, 3)); }
    ParseUnfold(s, 3, result);
    if |s| <= 3 { return None; }
    b := s[3];
    result := result + b % 0x80 * 0x20_0000;
    if b < 0x80 { return Some(Header(result, 4)); }
    ParseUnfold(s, 4, result);
    if |s| <= 4 { return None; }
    b := s[4];
    result := result + b % 0x80 * 0x1000_0000;
    if b < 0x10 { return Some(Header(result, 5)); }
    if b % 0x80 < 0x10 {
      ParseUnfold(s, 5, result);
    }
    return None;
  }
}
