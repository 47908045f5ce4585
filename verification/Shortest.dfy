/** The compressor's tags are the shortest that the format has for what they mean. */
module Shortest {
  import opened Bytes
  import opened Format
  import opened Emit
  import opened TagForms

  /** No tag for a literal of this length is shorter than the header written for it. */
  lemma ShortestLiteral(s: seq<byte>, size: nat, len: nat)
    requires HasTag(s) && ReadTag(s) == LiteralTag(size, len) && 1 <= len <= 0x1_0000
    ensures |LiteralHeader(len)| <= size
  {
    hide HasTag, ReadTag, LiteralHeader, Header;
    var f := EveryTagHasForm(s);
    assert f.LongLiteral? && f.extra == 1 ==> f.coded < 0x100;
  }

  /** No tag for a copy of this offset and length is shorter than the one written for it. */
  lemma ShortestCopy(s: seq<byte>, size: nat, offset: nat, len: nat)
    requires HasTag(s) && ReadTag(s) == CopyTag(size, offset, len)
    requires 1 <= offset < 0x1_0000 && 4 <= len <= 64
    ensures |CopyEncoding(offset, len)| <= size
  {
    hide HasTag, ReadTag, Header;
    var f := EveryTagHasForm(s);
  }

  function Times(s: seq<byte>, n: nat): seq<byte> {
    if n == 0 then [] else s + Times(s, n - 1)
  }

  /** A match is cut into copies of 64 bytes and what is left, or two copies of it if it is 65 to 67 bytes. */
  lemma {:induction false} CopyRunPieces(offset: nat, n: nat, rest: nat)
    requires 1 <= offset < 0x1_0000 && 4 <= rest <= 67
    ensures CopyRun(offset, 64 * n + rest)
         == Times(CopyEncoding(offset, 64), n) +
            if rest <= 64 then CopyEncoding(offset, rest)
            else CopyEncoding(offset, 60) + CopyEncoding(offset, rest - 60)
    decreases n
  {
    hide CopyEncoding;
    if n > 0 {
      CopyRunPieces(offset, n - 1, rest);
      var next := CopyRun(offset, 64 * (n - 1) + rest);
      assert CopyRun(offset, 64 * n + rest) == CopyEncoding(offset, 64) + next;
    }
  }
}
