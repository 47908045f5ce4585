/** Whole inputs of one repeated byte: what they are compressed to, and how little that is. */
module Repetition {
  import opened Bytes
  import opened Emit
  import opened Greedy
  import opened Periodic
  import opened Compression
  import Varint

  /** A match costs at most three bytes for every 64 that it copies. */
  lemma {:induction false} CopyRunSize(offset: nat, len: nat)
    requires 1 <= offset < 0x1_0000 && 4 <= len
    ensures |CopyRun(offset, len)| <= 3 * ((len + 63) / 64)
    decreases len
  {
    hide CopyEncoding;
    if len >= 68 {
      CopyRunSize(offset, len - 64);
    }
  }

  /** A block of seventeen or more equal bytes: a literal of one byte, and copies of it at distance one. */
  lemma RunBlock(b: byte, n: nat)
    requires 17 <= n <= 0x1_0000
    ensures CompressedBlock(Run(b, n)) == LiteralHeader(1) + [b] + CopyRun(1, n - 1)
  {
    hide BlockCode, LiteralHeader, CopyRun, WordHash, Run;
    var log := Hashing.TableLog(n, 8);
    WordHashInRange(log);
    RunCode(b, n, Bits.Pow2(log), WordHash(log));
  }

  /** A shorter one stays a literal. */
  lemma ShortRunBlock(b: byte, n: nat)
    requires 1 <= n <= 16
    ensures CompressedBlock(Run(b, n)) == LiteralHeader(n) + Run(b, n)
  {
    hide BlockCode, LiteralHeader, CopyRun, WordHash;
    var log := Hashing.TableLog(n, 8);
    WordHashInRange(log);
    if n < 4 {
      ShortBlockCode(Run(b, n), Bits.Pow2(log), WordHash(log));
      assert Run(b, n)[0..] == Run(b, n);
    } else {
      RepeatsCode(Run(b, n), Bits.Pow2(log), WordHash(log), 1);
      assert FirstProbe(1, 1) == 1 && NextProbe(1) == 2;
    }
  }

  lemma RunBlockSize(b: byte, n: nat)
    requires 1 <= n <= 0x1_0000
    ensures |CompressedBlock(Run(b, n))| <= if n <= 16 then n + 1 else 2 + 3 * ((n + 62) / 64)
  {
    hide CompressedBlock, CopyRun;
    if n <= 16 {
      ShortRunBlock(b, n);
    } else {
      RunBlock(b, n);
      CopyRunSize(1, n - 1);
    }
  }

  lemma {:induction false} RunBlocksSize(b: byte, n: nat)
    ensures |CompressedBlocks(Run(b, n))| <= n / 20 + 17
    decreases n
  {
    hide CompressedBlock;
    if n > 0 {
      var k := if n <= 0x1_0000 then n else 0x1_0000;
      RunBlockSize(b, k);
      assert Run(b, n)[..k] == Run(b, k) && Run(b, n)[k..] == Run(b, n - k);
      if n > 0x1_0000 {
        RunBlocksSize(b, n - k);
      }
    }
  }

  /** The whole compressed buffer of up to one block of equal bytes. */
  lemma RunForm(b: byte, n: nat)
    requires 17 <= n <= 0x1_0000
    ensures CompressedForm(Run(b, n)) == Varint.Encoding(n) + (LiteralHeader(1) + [b] + CopyRun(1, n - 1))
  {
    hide CompressedBlock, Varint.Encoding, LiteralHeader, CopyRun;
    RunBlock(b, n);
    var s := Run(b, n);
    assert s[..n] == s && s[n..] == [] && CompressedBlocks([]) == [];
    assert CompressedBlocks(s) == CompressedBlock(s) + [] == CompressedBlock(s);
  }

  predicate AllEqual(data: seq<byte>) {
    forall i :: 0 <= i < |data| ==> data[i] == data[0]
  }

  /** Equal bytes are compressed to less than a twentieth, apart from 22 bytes, however many there are. */
  lemma RunFormSize(data: seq<byte>)
    requires |data| < 0x1_0000_0000 && AllEqual(data)
    ensures |CompressedForm(data)| <= |data| / 20 + 22
  {
    hide CompressedBlocks, Varint.Encoding;
    Varint.EncodingSize(|data|);
    var b := if data == [] then 0 else data[0];
    RunBlocksSize(b, |data|);
    assert data == Run(b, |data|);
  }

  lemma HundredCopies()
    ensures CopyRun(1, 99) == [254, 1, 0, 138, 1, 0]
  {
    assert CopyRun(1, 35) == CopyEncoding(1, 35) == [138, 1, 0];
    assert CopyEncoding(1, 64) == [254, 1, 0];
  }

  /** A hundred zero bytes: the length, a literal of one, a copy of 64 and a copy of 35. */
  lemma HundredZeros()
    ensures CompressedForm(Run(0, 100)) == [100, 0, 0, 254, 1, 0, 138, 1, 0]
  {
    hide CompressedForm, CopyRun;
    RunForm(0, 100);
    HundredCopies();
    assert Varint.Encoding(100) == [100] && LiteralHeader(1) == [0];
    assert [100] + ([0] + [0] + [254, 1, 0, 138, 1, 0]) == [100, 0, 0, 254, 1, 0, 138, 1, 0];
  }
}
