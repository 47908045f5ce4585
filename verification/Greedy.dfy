/**
 The greedy encoding of one block as a function of the block, the hash and the table: which matches the
 compressor finds and what it emits for them.
 */
module Greedy {
  import opened Bytes
  import opened Emit
  import opened Format
  import opened Match

  const INPUT_MARGIN := 15  // bytes the scan keeps readable ahead of itself

  /** Every entry of the table is a position before ip. */
  ghost predicate Below(table: seq<uint16>, ip: nat) {
    forall h :: 0 <= h < |table| ==> table[h] < ip
  }

  /** The hash of any word is an index into a table of this size. */
  ghost predicate HashInRange(hash: uint32 -> nat, tableSize: nat) {
    forall w :: hash(w) < tableSize
  }

  datatype Probe = Missed | Found(ip: nat, candidate: nat, table: seq<uint16>)

  /** The scan that began at start, from ip on: it moves faster the longer nothing is found. */
  ghost function Scan(input: seq<byte>, table: seq<uint16>, hash: uint32 -> nat, start: nat, ip: nat): (p: Probe)
    requires INPUT_MARGIN <= |input| <= BLOCK_SIZE && HashInRange(hash, |table|)
    requires 0 < start <= ip <= |input| - INPUT_MARGIN + 1 && Below(table, ip)
    ensures p.Found? ==>
              && ip <= p.ip < |input| - INPUT_MARGIN && p.candidate < p.ip && Agree(input, p.candidate, p.ip, 4)
              && |p.table| == |table| && Below(p.table, p.ip + 1)
    decreases |input| - ip
  {
    var next := ip + (32 + ip - start) / 32;
    if next > |input| - INPUT_MARGIN then Missed
    else
      var h := hash(Load32(input, ip));
      var candidate, t := table[h], table[h := ip];
      if Load32(input, ip) == Load32(input, candidate) then
        Load32Injective(input, ip, candidate);
        Found(ip, candidate, t)
      else Scan(input, t, hash, start, next)
  }

  lemma ScanStep(input: seq<byte>, table: seq<uint16>, hash: uint32 -> nat, start: nat, ip: nat)
    requires INPUT_MARGIN <= |input| <= BLOCK_SIZE && HashInRange(hash, |table|)
    requires 0 < start <= ip <= |input| - INPUT_MARGIN + 1 && Below(table, ip)
    ensures var next, p := ip + (32 + ip - start) / 32, Scan(input, table, hash, start, ip);
            if next > |input| - INPUT_MARGIN then p == Missed
            else
              var h := hash(Load32(input, ip));
              if Load32(input, ip) == Load32(input, table[h]) then p == Found(ip, table[h], table[h := ip])
              else Below(table[h := ip], next) && p == Scan(input, table[h := ip], hash, start, next)
  {
  }

  /** How far two positions of the input agree. */
  function MatchLength(input: seq<byte>, p: nat, q: nat): (n: nat)
    requires p <= q <= |input|
    ensures q + n <= |input|
    decreases |input| - q
  {
    if q < |input| && input[p] == input[q] then 1 + MatchLength(input, p + 1, q + 1) else 0
  }

  lemma {:induction false} MatchLengthUnique(input: seq<byte>, p: nat, q: nat, n: nat)
    requires p <= q <= |input| && IsMatchLength(input, p, q, |input|, n)
    ensures n == MatchLength(input, p, q)
    decreases n
  {
    if n > 0 {
      assert input[p] == input[p..p + n][0] == input[q..q + n][0] == input[q];
      assert input[p + 1..p + n] == input[p..p + n][1..] && input[q + 1..q + n] == input[q..q + n][1..];
      MatchLengthUnique(input, p + 1, q + 1, n - 1);
    }
  }

  /** The table after a match has been consumed, with the two positions at its end recorded. */
  ghost function Recorded(input: seq<byte>, table: seq<uint16>, hash: uint32 -> nat, ip: nat): (t: seq<uint16>)
    requires 0 < ip && ip + 4 <= |input| <= BLOCK_SIZE && HashInRange(hash, |table|)
    ensures |t| == |table| && (Below(table, ip) ==> Below(t, ip + 1))
  {
    Refiled(input, table, hash, ip)[hash(Load32(input, ip)) := ip]
  }

  /** The table in which the next candidate is looked up. */
  ghost function Refiled(input: seq<byte>, table: seq<uint16>, hash: uint32 -> nat, ip: nat): (t: seq<uint16>)
    requires 0 < ip && ip + 4 <= |input| <= BLOCK_SIZE && HashInRange(hash, |table|)
    ensures |t| == |table| && (Below(table, ip) ==> Below(t, ip))
  {
    table[hash(Load32(input, ip - 1)) := ip - 1]
  }

  datatype Matches = Matches(out: seq<byte>, ip: nat, more: bool, table: seq<uint16>)

  /** The copies for the match at ip and for every further match that starts where the one before it ended. */
  ghost function EmitRun(input: seq<byte>, table: seq<uint16>, hash: uint32 -> nat, ip: nat, candidate: nat,
                         out: seq<byte>): (m: Matches)
    requires INPUT_MARGIN <= |input| <= BLOCK_SIZE && HashInRange(hash, |table|)
    requires candidate < ip < |input| - INPUT_MARGIN && Agree(input, candidate, ip, 4) && Below(table, ip + 1)
    ensures ip < m.ip <= |input|
    ensures m.more ==> m.ip < |input| - INPUT_MARGIN && |m.table| == |table| && Below(m.table, m.ip + 1)
    decreases |input| - ip
  {
    var matched := 4 + MatchLength(input, candidate + 4, ip + 4);
    var emitted, next := out + CopyRun(ip - candidate, matched), ip + matched;
    if next >= |input| - INPUT_MARGIN then Matches(emitted, next, false, table)
    else
      var t := Recorded(input, table, hash, next);
      var c := Refiled(input, table, hash, next)[hash(Load32(input, next))];
      if Load32(input, c) == Load32(input, next) then
        Load32Injective(input, c, next);
        EmitRun(input, t, hash, next, c, emitted)
      else Matches(emitted, next, true, t)
  }

  lemma EmitRunStep(input: seq<byte>, table: seq<uint16>, hash: uint32 -> nat, ip: nat, candidate: nat,
                    out: seq<byte>, n: nat)
    requires INPUT_MARGIN <= |input| <= BLOCK_SIZE && HashInRange(hash, |table|)
    requires candidate < ip < |input| - INPUT_MARGIN && Agree(input, candidate, ip, 4) && Below(table, ip + 1)
    requires IsMatchLength(input, candidate + 4, ip + 4, |input|, n)
    ensures var m, next := EmitRun(input, table, hash, ip, candidate, out), ip + 4 + n;
            var emitted := out + CopyRun(ip - candidate, 4 + n);
            && Below(table, next)
            && if next >= |input| - INPUT_MARGIN then m == Matches(emitted, next, false, table)
               else
                 var t := Recorded(input, table, hash, next);
                 var c := Refiled(input, table, hash, next)[hash(Load32(input, next))];
                 if Agree(input, c, next, 4) then m == EmitRun(input, t, hash, next, c, emitted)
                 else m == Matches(emitted, next, true, t)
  {
    hide Recorded, Refiled, Load32, CopyRun, MatchLength, IsMatchLength;
    MatchLengthUnique(input, candidate + 4, ip + 4, n);
    var next := ip + 4 + n;
    if next < |input| - INPUT_MARGIN {
      Load32Injective(input, Refiled(input, table, hash, next)[hash(Load32(input, next))], next);
    }
  }

  /** The literal that ends a block. */
  function Tail(input: seq<byte>, nextEmit: nat, out: seq<byte>): seq<byte>
    requires nextEmit <= |input| <= BLOCK_SIZE
  {
    if nextEmit < |input| then out + (LiteralHeader(|input| - nextEmit) + input[nextEmit..]) else out
  }

  lemma TailStep(input: seq<byte>, nextEmit: nat, out: seq<byte>)
    requires nextEmit <= |input| <= BLOCK_SIZE
    ensures Tail(input, nextEmit, out) ==
            if nextEmit < |input| then out + (LiteralHeader(|input| - nextEmit) + input[nextEmit..|input|]) else out
  {
    hide LiteralHeader;
    assert input[nextEmit..|input|] == input[nextEmit..];
  }

  /** Literals and runs of copies in turn, until the scan nears the end of the block. */
  ghost function Alternate(input: seq<byte>, table: seq<uint16>, hash: uint32 -> nat, nextEmit: nat, ip: nat,
                           out: seq<byte>): seq<byte>
    requires INPUT_MARGIN <= |input| <= BLOCK_SIZE && HashInRange(hash, |table|)
    requires nextEmit < ip <= |input| - INPUT_MARGIN + 1 && Below(table, ip)
    decreases |input| - ip
  {
    match Scan(input, table, hash, ip, ip)
    case Missed => Tail(input, nextEmit, out)
    case Found(found, candidate, t) =>
      var literal := LiteralHeader(found - nextEmit) + input[nextEmit..found];
      var m := EmitRun(input, t, hash, found, candidate, out + literal);
      if m.more then Alternate(input, m.table, hash, m.ip, m.ip + 1, m.out) else Tail(input, m.ip, m.out)
  }

  lemma AlternateStep(input: seq<byte>, table: seq<uint16>, hash: uint32 -> nat, nextEmit: nat, ip: nat, out: seq<byte>)
    requires INPUT_MARGIN <= |input| <= BLOCK_SIZE && HashInRange(hash, |table|)
    requires nextEmit < ip <= |input| - INPUT_MARGIN + 1 && Below(table, ip)
    ensures var code := Alternate(input, table, hash, nextEmit, ip, out);
            match Scan(input, table, hash, ip, ip)
            case Missed => code == Tail(input, nextEmit, out)
            case Found(found, candidate, t) =>
              var literal := LiteralHeader(found - nextEmit) + input[nextEmit..found];
              var m := EmitRun(input, t, hash, found, candidate, out + literal);
              code == if m.more then Alternate(input, m.table, hash, m.ip, m.ip + 1, m.out)
              else Tail(input, m.ip, m.out)
  {
    hide Scan, EmitRun, Tail, LiteralHeader, Load32;
  }

  /** The encoding of a block from an empty table. */
  ghost function BlockCode(input: seq<byte>, tableSize: nat, hash: uint32 -> nat): seq<byte>
    requires |input| <= BLOCK_SIZE && HashInRange(hash, tableSize)
  {
    if |input| < INPUT_MARGIN then Tail(input, 0, [])
    else Alternate(input, seq(tableSize, i => 0), hash, 0, 1, [])
  }

  lemma ShortBlockCode(input: seq<byte>, tableSize: nat, hash: uint32 -> nat)
    requires |input| <= BLOCK_SIZE && HashInRange(hash, tableSize)
    ensures |input| < INPUT_MARGIN ==> BlockCode(input, tableSize, hash) == Tail(input, 0, [])
  {
  }
}
