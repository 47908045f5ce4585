/**
 What the compressor makes of repetitive input, worked out from the strategy alone: the scan looks at every
 position for 32 bytes, then at every other one, and so on; a match runs as far as it can; the last positions
 of a match can be found again.
 */
module Periodic {
  import opened Arithmetic
  import opened Bytes
  import opened Match
  import opened Format
  import opened Emit
  import opened Greedy

  /** s repeats itself every p bytes. */
  predicate Repeats(s: seq<byte>, p: nat) {
    p > 0 && forall i :: 0 <= i < |s| - p ==> s[i + p] == s[i]
  }

  /** The four-byte words at the first p positions have different hashes. */
  ghost predicate WordsApart(s: seq<byte>, hash: uint32 -> nat, p: nat)
    requires p + 3 <= |s|
  {
    forall i, j :: 0 <= i < j < p ==> hash(Load32(s, i)) != hash(Load32(s, j))
  }

  /** The position looked at after ip, for a scan from position 1: one byte on, and one more per 32 bytes scanned. */
  function NextProbe(ip: nat): nat
    requires ip > 0
  {
    ip + 1 + (ip - 1) / 32
  }

  /** The first position looked at that is not before p. */
  function FirstProbe(ip: nat, p: nat): (q: nat)
    requires ip > 0
    ensures q >= ip && q >= p
    decreases p - ip
  {
    if ip >= p then ip else FirstProbe(NextProbe(ip), p)
  }

  /** In the first 32 steps every position is looked at; a position not before p is reached with a small surplus. */
  lemma {:induction false} EarlyProbes(ip: nat, p: nat)
    requires 0 < ip <= p <= 33
    ensures FirstProbe(ip, p) == p
    decreases p - ip
  {
    if ip < p {
      EarlyProbes(ip + 1, p);
    }
  }

  lemma {:induction false} ProbeSurplus(ip: nat, p: nat)
    requires 0 < ip <= p
    ensures FirstProbe(ip, p) <= p + (p - 1) / 32
    decreases p - ip
  {
    if ip < p {
      var next := NextProbe(ip);
      if next < p {
        ProbeSurplus(next, p);
      }
    }
  }

  /** Position j is looked at, or is the start, before the scan reaches ip. */
  predicate Seen(j: nat, ip: nat) {
    j < ip && (j == 0 || FirstProbe(1, j) == j)
  }

  lemma {:induction false} ProbesInOrder(from: nat, ip: nat, j: nat)
    requires 0 < from && FirstProbe(from, ip) == ip && from <= ip < j < NextProbe(ip)
    ensures FirstProbe(from, j) != j
    decreases ip - from
  {
    if from < ip {
      ProbesInOrder(NextProbe(from), ip, j);
    }
  }

  lemma {:induction false} ProbeFollows(from: nat, ip: nat)
    requires 0 < from <= ip && FirstProbe(from, ip) == ip
    ensures FirstProbe(from, NextProbe(ip)) == NextProbe(ip)
    decreases ip - from
  {
    if from < ip {
      ProbeFollows(NextProbe(from), ip);
    }
  }

  /** What the scan has put into the table by the time it is at ip. */
  ghost predicate Filed(s: seq<byte>, table: seq<uint16>, hash: uint32 -> nat, p: nat, ip: nat)
    requires p + 3 <= |s| && HashInRange(hash, |table|)
  {
    forall j :: 0 <= j < p ==> table[hash(Load32(s, j))] == if Seen(j, ip) then j else 0
  }

  /** Filing ip itself, and nothing until the next position looked at. */
  lemma FiledNext(s: seq<byte>, table: seq<uint16>, hash: uint32 -> nat, p: nat, ip: nat)
    requires p + 3 <= |s| <= BLOCK_SIZE && HashInRange(hash, |table|) && WordsApart(s, hash, p)
    requires 0 < ip < p && FirstProbe(1, ip) == ip && Filed(s, table, hash, p, ip)
    ensures Filed(s, table[hash(Load32(s, ip)) := ip], hash, p, NextProbe(ip))
  {
    hide Load32;
    var t := table[hash(Load32(s, ip)) := ip];
    forall j | 0 <= j < p
      ensures t[hash(Load32(s, j))] == if Seen(j, NextProbe(ip)) then j else 0
    {
      if ip < j < NextProbe(ip) {
        ProbesInOrder(1, ip, j);
      }
      assert j != ip ==> Seen(j, NextProbe(ip)) == Seen(j, ip);
      assert Seen(ip, NextProbe(ip));
    }
  }

  /** Equal words hash alike, so words with different hashes differ. */
  lemma ApartDiffer(s: seq<byte>, hash: uint32 -> nat, p: nat, i: nat, j: nat)
    requires p + 3 <= |s| && WordsApart(s, hash, p) && i < p && j < p && i != j
    ensures Load32(s, i) != Load32(s, j)
  {
    if i < j {
      assert hash(Load32(s, i)) != hash(Load32(s, j));
    } else {
      assert hash(Load32(s, j)) != hash(Load32(s, i));
    }
  }

  lemma RepeatedWord(s: seq<byte>, p: nat, i: nat)
    requires Repeats(s, p) && i + p + 4 <= |s|
    ensures Load32(s, i + p) == Load32(s, i)
  {
  }

  /** The scan passes by words it has not filed, and finds the first repeated word that it looks at. */
  lemma {:induction false} ScanRepeats(s: seq<byte>, table: seq<uint16>, hash: uint32 -> nat, p: nat, ip: nat)
    returns (t: seq<uint16>)
    requires INPUT_MARGIN <= |s| <= BLOCK_SIZE && HashInRange(hash, |table|) && Below(table, ip)
    requires p + 3 <= |s| && WordsApart(s, hash, p) && 0 < p && 0 < ip <= |s| - INPUT_MARGIN + 1
    requires ip <= FirstProbe(1, p) == FirstProbe(ip, p) && FirstProbe(1, ip) == ip
    requires Filed(s, table, hash, p, ip)
    requires p >= |s| - INPUT_MARGIN || (p <= 1024 && Repeats(s, p))
    ensures var q := FirstProbe(1, p);
            Scan(s, table, hash, 1, ip) == if NextProbe(q) <= |s| - 15 then Found(q, q - p, t) else Missed
    decreases |s| - ip
  {
    hide Load32, Filed, FirstProbe, WordsApart, Repeats, Below;
    t := [];
    ScanStep(s, table, hash, 1, ip);
    StrideForm(ip);
    var q := FirstProbe(1, p);
    if NextProbe(ip) > |s| - 15 {
      ProbeGrows(ip, q);
    } else if ip < p {
      UnfiledWord(s, table, hash, p, ip);
      FiledNext(s, table, hash, p, ip);
      ProbeStep(ip, p);
      ProbeFollows(1, ip);
      t := ScanRepeats(s, table[hash(Load32(s, ip)) := ip], hash, p, NextProbe(ip));
    } else {
      ProbeStep(ip, p);
      FiledWord(s, table, hash, p, ip);
      t := table[hash(Load32(s, ip)) := ip];
    }
  }

  lemma StrideForm(ip: nat)
    requires ip > 0
    ensures ip + (32 + ip - 1) / 32 == NextProbe(ip)
  {
    DivWord(32 + ip - 1, 32, (ip - 1) % 32, 1 + (ip - 1) / 32);
  }

  lemma ProbeGrows(i: nat, j: nat)
    requires 0 < i <= j
    ensures NextProbe(i) <= NextProbe(j)
  {
  }

  lemma ProbeStep(ip: nat, p: nat)
    requires ip > 0
    ensures ip >= p ==> FirstProbe(ip, p) == ip
    ensures ip < p ==> FirstProbe(ip, p) == FirstProbe(NextProbe(ip), p) && NextProbe(ip) <= FirstProbe(ip, p)
  {
  }

  /** A first occurrence: the table still points to the start of the block, where another word stands. */
  lemma UnfiledWord(s: seq<byte>, table: seq<uint16>, hash: uint32 -> nat, p: nat, ip: nat)
    requires p + 3 <= |s| && HashInRange(hash, |table|) && WordsApart(s, hash, p)
    requires 0 < ip < p && Filed(s, table, hash, p, ip)
    ensures table[hash(Load32(s, ip))] == 0 && Load32(s, ip) != Load32(s, 0)
  {
    hide Load32;
    ApartDiffer(s, hash, p, ip, 0);
    assert !Seen(ip, ip);
  }

  /** A second occurrence: the table points one period back. */
  lemma FiledWord(s: seq<byte>, table: seq<uint16>, hash: uint32 -> nat, p: nat, ip: nat)
    requires p + 3 <= |s| && HashInRange(hash, |table|)
    requires 0 < p <= ip && p <= 1024 && Repeats(s, p) && ip + 4 <= |s|
    requires Filed(s, table, hash, p, ip) && ip == FirstProbe(1, p)
    ensures table[hash(Load32(s, ip))] == ip - p && Load32(s, ip) == Load32(s, ip - p)
  {
    hide Load32;
    RepeatedWord(s, p, ip - p);
    ProbeSurplus(1, p);
    var j := ip - p;
    assert j <= 32 && j < p;
    if j > 0 {
      EarlyProbes(1, j);
    }
    assert Seen(j, ip);
  }

  lemma FirstFiled(s: seq<byte>, tableSize: nat, hash: uint32 -> nat, p: nat)
    requires p + 3 <= |s| && HashInRange(hash, tableSize)
    ensures Filed(s, seq(tableSize, i => 0), hash, p, 1)
  {
  }

  /** A match in repeating input runs to the end. */
  lemma {:induction false} RepeatRunsOn(s: seq<byte>, p: nat, i: nat)
    requires Repeats(s, p) && i + p <= |s|
    ensures MatchLength(s, i, i + p) == |s| - (i + p)
    decreases |s| - i
  {
    if i + p < |s| {
      RepeatRunsOn(s, p, i + 1);
    }
  }

  /**
   A block that repeats itself every p bytes is compressed to one literal, up to the first position from p on
   that the scan looks at, and one match for all the rest; if the block is too short for that, to one literal.
   */
  lemma RepeatsCode(s: seq<byte>, tableSize: nat, hash: uint32 -> nat, p: nat)
    requires |s| <= BLOCK_SIZE && HashInRange(hash, tableSize)
    requires 0 < p <= 1024 && p + 3 <= |s| && Repeats(s, p) && WordsApart(s, hash, p)
    ensures var q := FirstProbe(1, p);
            BlockCode(s, tableSize, hash) ==
            if NextProbe(q) + 15 <= |s| then LiteralHeader(q) + s[..q] + CopyRun(p, |s| - q)
            else LiteralHeader(|s|) + s
  {
    hide Load32, Filed, FirstProbe, NextProbe, WordsApart, Repeats, BlockCode, LiteralHeader;
    QuickProbe(FirstProbe(1, p));
    if |s| < 15 {
      ShortBlockCode(s, tableSize, hash);
      WholeTail(s);
    } else {
      FirstScan(s, tableSize, hash, p);
    }
  }

  lemma WholeTail(s: seq<byte>)
    requires 1 <= |s| <= BLOCK_SIZE
    ensures Tail(s, 0, []) == LiteralHeader(|s|) + s
  {
    hide LiteralHeader;
    assert s[0..] == s && [] + (LiteralHeader(|s|) + s) == LiteralHeader(|s|) + s;
  }

  lemma NoTail(s: seq<byte>, out: seq<byte>)
    requires |s| <= BLOCK_SIZE
    ensures Tail(s, |s|, out) == out
  {
  }

  lemma FirstLiteral(s: seq<byte>, q: nat)
    requires 1 <= q <= |s| <= BLOCK_SIZE
    ensures [] + (LiteralHeader(q) + s[0..q]) == LiteralHeader(q) + s[..q]
  {
    hide LiteralHeader;
  }

  lemma LongBlockCode(s: seq<byte>, tableSize: nat, hash: uint32 -> nat)
    requires 15 <= |s| <= BLOCK_SIZE && HashInRange(hash, tableSize)
    ensures BlockCode(s, tableSize, hash) == Alternate(s, seq(tableSize, i => 0), hash, 0, 1, [])
  {
    hide Alternate;
  }

  function NoTable(tableSize: nat): seq<uint16> {
    seq(tableSize, i => 0)
  }

  lemma ScanFromStart(s: seq<byte>, tableSize: nat, hash: uint32 -> nat, p: nat) returns (t: seq<uint16>)
    requires INPUT_MARGIN <= |s| <= BLOCK_SIZE && HashInRange(hash, tableSize)
    requires 0 < p && p + 3 <= |s| && WordsApart(s, hash, p)
    requires p >= |s| - INPUT_MARGIN || (p <= 1024 && Repeats(s, p))
    ensures HashInRange(hash, |NoTable(tableSize)|) && Below(NoTable(tableSize), 1)
    ensures var q := FirstProbe(1, p);
            Scan(s, NoTable(tableSize), hash, 1, 1) == if NextProbe(q) <= |s| - 15 then Found(q, q - p, t) else Missed
    ensures BlockCode(s, tableSize, hash) == Alternate(s, NoTable(tableSize), hash, 0, 1, [])
  {
    hide Load32, Filed, FirstProbe, NextProbe, WordsApart, Repeats, Scan, Below, BlockCode;
    FirstFiled(s, tableSize, hash, p);
    ProbeAtOne(p);
    NothingBelow(tableSize);
    LongBlockCode(s, tableSize, hash);
    t := ScanRepeats(s, NoTable(tableSize), hash, p, 1);
  }

  /** The block from its first scan on. */
  lemma FirstScan(s: seq<byte>, tableSize: nat, hash: uint32 -> nat, p: nat)
    requires INPUT_MARGIN <= |s| <= BLOCK_SIZE && HashInRange(hash, tableSize)
    requires 0 < p && p + 3 <= |s| && WordsApart(s, hash, p)
    requires p >= |s| - INPUT_MARGIN || (p <= 1024 && Repeats(s, p))
    ensures var q := FirstProbe(1, p);
            BlockCode(s, tableSize, hash) ==
            if NextProbe(q) + 15 <= |s| then LiteralHeader(q) + s[..q] + CopyRun(p, |s| - q)
            else LiteralHeader(|s|) + s
  {
    hide Load32, FirstProbe, NextProbe, WordsApart, Repeats, Scan, LiteralHeader, CopyRun, EmitRun, Alternate,
         Below, BlockCode, Tail, NoTable, HashInRange;
    var q := FirstProbe(1, p);
    QuickProbe(q);
    var t := ScanFromStart(s, tableSize, hash, p);
    if NextProbe(q) <= |s| - 15 {
      OneRun(s, t, hash, q, p, LiteralHeader(q) + s[..q]);
      OneTurn(s, NoTable(tableSize), hash, t, q, q - p, LiteralHeader(q) + s[..q] + CopyRun(p, |s| - q));
    } else {
      NoTurn(s, NoTable(tableSize), hash);
    }
  }

  /** A block without a match. */
  lemma NoTurn(s: seq<byte>, table: seq<uint16>, hash: uint32 -> nat)
    requires INPUT_MARGIN <= |s| <= BLOCK_SIZE && HashInRange(hash, |table|) && Below(table, 1)
    requires Scan(s, table, hash, 1, 1) == Missed
    ensures Alternate(s, table, hash, 0, 1, []) == LiteralHeader(|s|) + s
  {
    hide Load32, Scan, LiteralHeader, EmitRun, Alternate, Below, Tail, HashInRange;
    AlternateStep(s, table, hash, 0, 1, []);
    WholeTail(s);
  }

  /** A block with one literal and matches to its end. */
  lemma OneTurn(s: seq<byte>, table: seq<uint16>, hash: uint32 -> nat, t: seq<uint16>, q: nat, c: nat, out: seq<byte>)
    requires INPUT_MARGIN <= |s| <= BLOCK_SIZE && HashInRange(hash, |table|) && Below(table, 1)
    requires Scan(s, table, hash, 1, 1) == Found(q, c, t)
    requires EmitRun(s, t, hash, q, c, LiteralHeader(q) + s[..q]) == Matches(out, |s|, false, t)
    ensures Alternate(s, table, hash, 0, 1, []) == out
  {
    hide Load32, Scan, LiteralHeader, EmitRun, Alternate, Below, Tail, HashInRange;
    AlternateStep(s, table, hash, 0, 1, []);
    FirstLiteral(s, q);
    NoTail(s, out);
  }

  lemma QuickProbe(q: nat)
    requires q > 0
    ensures NextProbe(q) > q
  {
  }

  lemma ProbeAtOne(p: nat)
    requires p > 0
    ensures FirstProbe(1, 1) == 1 && 1 <= FirstProbe(1, p)
  {
  }

  lemma NothingBelow(tableSize: nat)
    ensures Below(seq(tableSize, i => 0), 1)
  {
  }

  /** One match to the end of the block. */
  lemma OneRun(s: seq<byte>, table: seq<uint16>, hash: uint32 -> nat, q: nat, p: nat, out: seq<byte>)
    requires INPUT_MARGIN <= |s| <= BLOCK_SIZE && HashInRange(hash, |table|)
    requires 0 < p <= q < |s| - INPUT_MARGIN && Agree(s, q - p, q, 4) && Below(table, q + 1)
    requires Repeats(s, p)
    ensures EmitRun(s, table, hash, q, q - p, out) == Matches(out + CopyRun(p, |s| - q), |s|, false, table)
  {
    RepeatRunsOn(s, p, q - p + 4);
  }

  /** A block none of whose words hashes like an earlier one is compressed to one literal. */
  lemma ApartCode(s: seq<byte>, tableSize: nat, hash: uint32 -> nat)
    requires INPUT_MARGIN <= |s| <= BLOCK_SIZE && HashInRange(hash, tableSize) && WordsApart(s, hash, |s| - 3)
    ensures BlockCode(s, tableSize, hash) == LiteralHeader(|s|) + s
  {
    hide Load32, FirstProbe, NextProbe, WordsApart, LiteralHeader, BlockCode, HashInRange;
    QuickProbe(FirstProbe(1, |s| - 3));
    FirstScan(s, tableSize, hash, |s| - 3);
  }

  /** n times the same byte. */
  function Run(b: byte, n: nat): (s: seq<byte>)
    ensures |s| == n
  {
    seq(n, i => b)
  }

  /** Seventeen or more equal bytes become a literal of one and copies at distance one. */
  lemma RunCode(b: byte, n: nat, tableSize: nat, hash: uint32 -> nat)
    requires 17 <= n <= 0x1_0000 && HashInRange(hash, tableSize)
    ensures BlockCode(Run(b, n), tableSize, hash) == LiteralHeader(1) + [b] + CopyRun(1, n - 1)
  {
    hide LiteralHeader, CopyRun, BlockCode, Load32;
    RepeatsCode(Run(b, n), tableSize, hash, 1);
    assert FirstProbe(1, 1) == 1 && NextProbe(1) == 2;
    assert Run(b, n)[..1] == [b];
  }
}
