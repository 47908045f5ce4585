/** Compression of one block (CompressFragment) for an arbitrary hash function. */
module Fragment {
  import opened Bytes
  import opened Stream
  import opened Emit
  import opened Format
  import opened Match
  import opened Greedy

  /** Space for the output of an n-byte block, counting the fifteen bytes the last fast literal may spill. */
  function FragmentRoom(n: nat): nat {
    n + n / 60 + 17
  }

  /**
   enc encodes the first e input bytes and exceeds them by at most e / 60 + slack; the slack is one
   after a literal that no copy has paid for yet.
   */
  ghost predicate Progress(enc: seq<byte>, input: seq<byte>, e: nat, slack: nat) {
    e <= |input| && Encodes(enc, [], input[..e]) && WithinBudget(|enc|, e, slack)
  }

  predicate WithinBudget(size: nat, e: nat, slack: nat) {
    60 * (size - e - slack) <= e
  }

  lemma ProgressLiteral(enc: seq<byte>, input: seq<byte>, e: nat, len: nat)
    requires Progress(enc, input, e, 0) && 1 <= len <= BLOCK_SIZE && e + len <= |input|
    ensures Progress(enc + (LiteralHeader(len) + input[e..e + len]), input, e + len, 1)
  {
    hide Encodes;
    LiteralEncodes(input[e..e + len], input[..e]);
    ProgressStep(enc, LiteralHeader(len) + input[e..e + len], input, e, e + len);
    LiteralBudget(|enc|, e, len);
  }

  lemma LiteralBudget(size: nat, e: nat, len: nat)
    requires WithinBudget(size, e, 0) && 1 <= len
    ensures WithinBudget(size + LiteralOverhead(len) + len, e + len, 1)
  {
  }

  lemma ProgressBound(enc: seq<byte>, input: seq<byte>, e: nat)
    requires Progress(enc, input, e, 0) || Progress(enc, input, e, 1)
    ensures e <= |input|
  {
  }

  /** The encodings of consecutive stretches of the input concatenate. */
  lemma ProgressStep(enc: seq<byte>, more: seq<byte>, input: seq<byte>, e: nat, f: nat)
    requires e <= f <= |input|
    requires Encodes(enc, [], input[..e])
    requires Encodes(more, input[..e], input[..e] + input[e..f])
    ensures Encodes(enc + more, [], input[..f])
  {
    assert input[..e] + input[e..f] == input[..f];
    EncodesAppend(enc, more, [], input[..e], input[..f]);
  }

  lemma ProgressCopy(enc: seq<byte>, input: seq<byte>, candidate: nat, ip: nat, len: nat)
    requires |input| <= BLOCK_SIZE && Progress(enc, input, ip, 1)
    requires candidate < ip && 4 <= len && ip + len <= |input|
    requires Agree(input, candidate, ip, len)
    ensures Progress(enc + CopyRun(ip - candidate, len), input, ip + len, 0)
  {
    CopyRunEncodes(ip - candidate, len, input[..ip]);
    MatchIsCopy(input, candidate, ip, len);
    EncodesAppend(enc, CopyRun(ip - candidate, len), [], input[..ip], input[..ip + len]);
  }

  /**
   Step 1: scan forward for a position whose four bytes equal those of a table candidate, moving
   faster the longer nothing is found, and recording every position visited.
   */
  method FindCandidate(input: seq<byte>, table: array<uint16>, tableSize: nat, hash: uint32 -> nat,
                       start: nat, startHash: nat)
    returns (found: bool, ip: nat, candidate: nat)
    requires INPUT_MARGIN <= |input| <= BLOCK_SIZE && 0 < start <= |input| - INPUT_MARGIN + 1
    requires tableSize <= table.Length && HashInRange(hash, tableSize)
    requires startHash == hash(Load32(input, start)) && Below(table[..tableSize], start)
    modifies table
    ensures var probe := Scan(input, old(table[..tableSize]), hash, start, start);
            if found then probe == Found(ip, candidate, table[..tableSize]) else probe == Missed
  {
    hide Scan, Load32;
    var ipLimit := |input| - INPUT_MARGIN;
    var skip: nat, nextIp: nat, nextHash: nat := 32, start, startHash;
    while true
      invariant start <= nextIp <= ipLimit + 1 && skip == 32 + (nextIp - start)
      invariant nextHash == hash(Load32(input, nextIp)) && Below(table[..tableSize], nextIp)
      invariant Scan(input, table[..tableSize], hash, start, nextIp) ==
                Scan(input, old(table[..tableSize]), hash, start, start)
      decreases ipLimit + 1 - nextIp
    {
      ghost var t: seq<uint16>, entry: uint16 := table[..tableSize], nextIp;
      ScanStep(input, t, hash, start, nextIp);
      ip := nextIp;
      var h := nextHash;
      var bytesBetweenHashLookups := skip / 32;
      skip := skip + bytesBetweenHashLookups;
      nextIp := ip + bytesBetweenHashLookups;
      if nextIp > ipLimit {
        return false, ip, 0;
      }
      nextHash := hash(Load32(input, nextIp));
      candidate := table[h];
      table[h] := ip;
      assert table[..tableSize] == t[h := entry];
      if Load32(input, ip) == Load32(input, candidate) {
        return true, ip, candidate;
      }
    }
  }

  /** One copy of a match, appended to the output of the block that began at start. */
  method AppendCopy(dst: array<byte>, start: nat, op: nat, input: seq<byte>, candidate: nat, ip: nat, matched: nat)
    returns (end: nat)
    requires |input| <= BLOCK_SIZE && start <= op && start + FragmentRoom(|input|) <= dst.Length
    requires candidate < ip && 4 <= matched && ip + matched <= |input| && Agree(input, candidate, ip, matched)
    requires op <= dst.Length && Progress(dst[start..op], input, ip, 1)
    modifies dst
    ensures op < end <= start + FragmentRoom(|input|) && Progress(dst[start..end], input, ip + matched, 0)
    ensures dst[start..end] == old(dst[start..op]) + CopyRun(ip - candidate, matched)
    ensures OnlyChanged(dst, op, end)
  {
    hide Encodes;
    ghost var enc := dst[start..op];
    ProgressCopy(enc, input, candidate, ip, matched);
    end := EmitCopy(dst, op, ip - candidate, matched);
    assert dst[start..end] == enc + dst[op..end];
  }

  /** One match: measures it beyond the four bytes already compared and appends its copies. */
  method EmitOne(dst: array<byte>, start: nat, op: nat, input: seq<byte>, candidate: nat, ip: nat)
    returns (end: nat, next: nat, ghost more4: nat)
    requires |input| <= BLOCK_SIZE && start <= op && start + FragmentRoom(|input|) <= dst.Length
    requires candidate < ip && ip + 4 <= |input| && Agree(input, candidate, ip, 4)
    requires op <= dst.Length && Progress(dst[start..op], input, ip, 1)
    modifies dst
    ensures op < end <= start + FragmentRoom(|input|) && Progress(dst[start..end], input, next, 0)
    ensures IsMatchLength(input, candidate + 4, ip + 4, |input|, more4) && next == ip + 4 + more4
    ensures dst[start..end] == old(dst[start..op]) + CopyRun(ip - candidate, 4 + more4)
    ensures OnlyChanged(dst, op, end)
  {
    hide Progress, CopyRun, Agree, IsMatchLength;
    var more := FindMatchLength(input, candidate + 4, ip + 4, |input|);
    more4 := more;
    AgreeExtend(input, candidate, ip, 4, more);
    end := AppendCopy(dst, start, op, input, candidate, ip, 4 + more);
    next := ip + 4 + more;
  }

  /**
   Step 3: emit the match at ip and every further match that starts where the previous one ended.
   On return the scan goes on at ip with its hash, or the block is nearly exhausted.
   */
  method EmitMatches(input: seq<byte>, dst: array<byte>, start: nat, from: nat,
                     table: array<uint16>, tableSize: nat, hash: uint32 -> nat, base: nat, firstCandidate: nat)
    returns (op: nat, nextEmit: nat, more: bool, ip: nat, nextHash: nat)
    requires INPUT_MARGIN <= |input| <= BLOCK_SIZE && start + FragmentRoom(|input|) <= dst.Length
    requires start <= from <= start + FragmentRoom(|input|) && Progress(dst[start..from], input, base, 1)
    requires firstCandidate < base < |input| - INPUT_MARGIN && Agree(input, firstCandidate, base, 4)
    requires tableSize <= table.Length && HashInRange(hash, tableSize)
    requires Below(table[..tableSize], base + 1) && dst as object != table
    modifies dst, table
    ensures from < op <= start + FragmentRoom(|input|) && base < nextEmit <= |input|
    ensures Progress(dst[start..op], input, nextEmit, 0)
    ensures more ==>
              && ip == nextEmit + 1 <= |input| - INPUT_MARGIN
              && nextHash == hash(Load32(input, ip))
    ensures var m := EmitRun(input, old(table[..tableSize]), hash, base, firstCandidate, old(dst[start..from]));
            && dst[start..op] == m.out && nextEmit == m.ip && more == m.more
            && (more ==> table[..tableSize] == m.table)
    ensures OnlyChanged(dst, from, start + FragmentRoom(|input|))
  {
    hide Progress, EmitRun, Recorded, Refiled, Load32, Agree, IsMatchLength;
    ProgressBound(dst[start..from], input, base);
    var ipLimit := |input| - INPUT_MARGIN;
    var candidate: nat := firstCandidate;
    op, ip := from, base;
    while true
      invariant from <= op <= start + FragmentRoom(|input|) && Progress(dst[start..op], input, ip, 1)
      invariant candidate < ip < ipLimit && base <= ip
      invariant Agree(input, candidate, ip, 4) && Below(table[..tableSize], ip + 1)
      invariant OnlyChanged(dst, from, start + FragmentRoom(|input|))
      invariant EmitRun(input, table[..tableSize], hash, ip, candidate, dst[start..op]) ==
                EmitRun(input, old(table[..tableSize]), hash, base, firstCandidate, old(dst[start..from]))
      decreases ipLimit - ip
    {
      ghost var at, out := ip, dst[start..op];
      ghost var more4;
      op, ip, more4 := EmitOne(dst, start, op, input, candidate, ip);
      EmitRunStep(input, table[..tableSize], hash, at, candidate, out, more4);
      nextEmit := ip;
      if ip >= ipLimit {
        return op, nextEmit, false, ip, 0;
      }
      var hit;
      hit, candidate, nextHash := ProbeAfterMatch(input, table, tableSize, hash, ip);
      if !hit {
        ip := ip + 1;
        return op, nextEmit, true, ip, nextHash;
      }
      ProgressRelax(dst[start..op], input, ip);
    }
  }

  lemma ProgressRelax(enc: seq<byte>, input: seq<byte>, e: nat)
    requires Progress(enc, input, e, 0)
    ensures Progress(enc, input, e, 1)
  {
  }

  /**
   After a match has been consumed: record the two positions at its end, and look for another
   match right there. One eight-byte load serves all three hashes.
   */
  method ProbeAfterMatch(input: seq<byte>, table: array<uint16>, tableSize: nat, hash: uint32 -> nat, ip: nat)
    returns (hit: bool, candidate: nat, nextHash: nat)
    requires INPUT_MARGIN <= |input| <= BLOCK_SIZE && 0 < ip < |input| - INPUT_MARGIN
    requires tableSize <= table.Length && HashInRange(hash, tableSize)
    requires Below(table[..tableSize], ip)
    modifies table
    ensures table[..tableSize] == Recorded(input, old(table[..tableSize]), hash, ip)
    ensures candidate == Refiled(input, old(table[..tableSize]), hash, ip)[hash(Load32(input, ip))] < ip
    ensures hit <==> Agree(input, candidate, ip, 4)
    ensures !hit ==> nextHash == hash(Load32(input, ip + 1))
  {
    hide Load64, Load32, Uint32AtOffset;
    Uint32AtOffsetIsLoad(input, ip - 1, 0);
    Uint32AtOffsetIsLoad(input, ip - 1, 1);
    Uint32AtOffsetIsLoad(input, ip - 1, 2);
    var inputBytes := Load64(input, ip - 1);
    var prevHash := hash(Uint32AtOffset(inputBytes, 0));
    ghost var t: seq<uint16>, before: uint16, here: uint16 := table[..tableSize], ip - 1, ip;
    table[prevHash] := ip - 1;
    ghost var refiled: seq<uint16> := table[..tableSize];
    assert refiled == t[prevHash := before];
    var curHash := hash(Uint32AtOffset(inputBytes, 1));
    candidate := table[curHash];
    var candidateBytes := Load32(input, candidate);
    table[curHash] := ip;
    assert table[..tableSize] == refiled[curHash := here];
    Load32Injective(input, candidate, ip);
    hit := Uint32AtOffset(inputBytes, 1) == candidateBytes;
    nextHash := if hit then 0 else hash(Uint32AtOffset(inputBytes, 2));
  }

  /** There is room for a literal, and for the fifteen bytes that the fast path may write behind it. */
  lemma LiteralRoom(enc: seq<byte>, input: seq<byte>, e: nat, len: nat)
    requires Progress(enc, input, e, 0) && 1 <= len && e + len <= |input|
    ensures |enc| + LiteralOverhead(len) + len <= FragmentRoom(|input|) && |enc| + 17 <= FragmentRoom(|input|)
  {
    hide Encodes;
  }

  /** A literal appended to the output of the block that began at start. */
  method AppendLiteral(dst: array<byte>, start: nat, op: nat, input: seq<byte>, nextEmit: nat, ip: nat, fast: bool)
    returns (end: nat)
    requires |input| <= BLOCK_SIZE && start <= op && start + FragmentRoom(|input|) <= dst.Length
    requires nextEmit < ip <= |input| && (fast ==> nextEmit + 16 <= |input|)
    requires op <= start + FragmentRoom(|input|) && Progress(dst[start..op], input, nextEmit, 0)
    modifies dst
    ensures op < end <= start + FragmentRoom(|input|) && Progress(dst[start..end], input, ip, 1)
    ensures dst[start..end] == old(dst[start..op]) + (LiteralHeader(ip - nextEmit) + input[nextEmit..ip])
    ensures OnlyChanged(dst, op, start + FragmentRoom(|input|))
  {
    hide Progress, LiteralHeader, LiteralOverhead, FragmentRoom;
    ghost var enc := dst[start..op];
    LiteralRoom(enc, input, nextEmit, ip - nextEmit);
    ProgressLiteral(enc, input, nextEmit, ip - nextEmit);
    end := EmitLiteral(dst, op, input, nextEmit, ip - nextEmit, fast);
    assert dst[start..end] == enc + dst[op..end];
  }

  /** One turn of the main loop: a literal up to the next match, and the run of matches there. */
  method EmitTurn(input: seq<byte>, dst: array<byte>, start: nat, from: nat, table: array<uint16>, tableSize: nat,
                  hash: uint32 -> nat, emitted: nat, scanFrom: nat, scanHash: nat)
    returns (op: nat, nextEmit: nat, more: bool, ip: nat, nextHash: nat)
    requires INPUT_MARGIN <= |input| <= BLOCK_SIZE && start + FragmentRoom(|input|) <= dst.Length
    requires tableSize <= table.Length && HashInRange(hash, tableSize) && dst as object != table
    requires start <= from <= start + FragmentRoom(|input|) && Progress(dst[start..from], input, emitted, 0)
    requires emitted < scanFrom <= |input| - INPUT_MARGIN + 1 && scanHash == hash(Load32(input, scanFrom))
    requires Below(table[..tableSize], scanFrom)
    modifies dst, table
    ensures from <= op <= start + FragmentRoom(|input|) && Progress(dst[start..op], input, nextEmit, 0)
    ensures nextEmit <= |input|
    ensures more ==> scanFrom < ip && nextEmit < ip <= |input| - INPUT_MARGIN + 1
    ensures more ==> Below(table[..tableSize], ip) && nextHash == hash(Load32(input, ip))
    ensures Alternate(input, old(table[..tableSize]), hash, emitted, scanFrom, old(dst[start..from])) ==
            if more then Alternate(input, table[..tableSize], hash, nextEmit, ip, dst[start..op])
            else Tail(input, nextEmit, dst[start..op])
    ensures OnlyChanged(dst, from, start + FragmentRoom(|input|))
  {
    hide Progress, Scan, EmitRun, Load32, Alternate, Agree, Below, LiteralHeader, LiteralOverhead;
    ProgressBound(dst[start..from], input, emitted);
    AlternateStep(input, table[..tableSize], hash, emitted, scanFrom, dst[start..from]);
    op, nextEmit := from, emitted;
    var found, match4, candidate := FindCandidate(input, table, tableSize, hash, scanFrom, scanHash);
    if !found {
      return op, nextEmit, false, 0, 0;
    }
    op := AppendLiteral(dst, start, op, input, emitted, match4, true);
    op, nextEmit, more, ip, nextHash := EmitMatches(input, dst, start, op, table, tableSize, hash, match4, candidate);
  }

  /** The main loop: literals and matches alternate until the scan nears the end of the block. */
  method EmitMatched(input: seq<byte>, dst: array<byte>, start: nat,
                     table: array<uint16>, tableSize: nat, hash: uint32 -> nat)
    returns (op: nat, nextEmit: nat)
    requires INPUT_MARGIN <= |input| <= BLOCK_SIZE && start + FragmentRoom(|input|) <= dst.Length
    requires forall h :: 0 <= h < tableSize <= table.Length ==> table[h] == 0
    requires tableSize <= table.Length && HashInRange(hash, tableSize)
    requires dst as object != table
    modifies dst, table
    ensures start <= op <= start + FragmentRoom(|input|) && Progress(dst[start..op], input, nextEmit, 0)
    ensures nextEmit <= |input|
    ensures Tail(input, nextEmit, dst[start..op]) == BlockCode(input, tableSize, hash)
    ensures OnlyChanged(dst, start, start + FragmentRoom(|input|))
  {
    op, nextEmit := start, 0;
    NoProgress(input);
    assert dst[start..op] == [];
    assert table[..tableSize] == seq(tableSize, i => 0);
    hide Progress, Load32, Alternate;
    var ip: nat := 1;
    var nextHash := hash(Load32(input, ip));
    while true
      invariant start <= op <= start + FragmentRoom(|input|) && Progress(dst[start..op], input, nextEmit, 0)
      invariant nextEmit < ip <= |input| - INPUT_MARGIN + 1
      invariant nextHash == hash(Load32(input, ip)) && Below(table[..tableSize], ip)
      invariant OnlyChanged(dst, start, start + FragmentRoom(|input|))
      invariant Alternate(input, table[..tableSize], hash, nextEmit, ip, dst[start..op]) ==
                BlockCode(input, tableSize, hash)
      decreases |input| - ip
    {
      var more;
      op, nextEmit, more, ip, nextHash :=
        EmitTurn(input, dst, start, op, table, tableSize, hash, nextEmit, ip, nextHash);
      if !more {
        return;
      }
    }
  }

  lemma NoProgress(input: seq<byte>)
    ensures Progress([], input, 0, 0)
  {
  }

  /**
   Compresses a block onto dst[start..end]. Whatever the hash function, the output decodes to the block,
   stays within the tag bounds and is at most 1 + n / 60 bytes longer than it.
   */
  method CompressFragment(input: seq<byte>, dst: array<byte>, start: nat,
                          table: array<uint16>, tableSize: nat, hash: uint32 -> nat)
    returns (end: nat)
    requires |input| <= BLOCK_SIZE && start + FragmentRoom(|input|) <= dst.Length
    requires forall h :: 0 <= h < tableSize <= table.Length ==> table[h] == 0
    requires tableSize <= table.Length && HashInRange(hash, tableSize)
    requires dst as object != table
    modifies dst, table
    ensures start <= end <= start + FragmentRoom(|input|) && Encodes(dst[start..end], [], input)
    ensures dst[start..end] == BlockCode(input, tableSize, hash)
    ensures end - start <= |input| + |input| / 60 + 1
    ensures OnlyChanged(dst, start, start + FragmentRoom(|input|))
  {
    hide Encodes, Progress, BlockCode, Tail, LiteralHeader, LiteralOverhead, HashInRange;
    ShortBlockCode(input, tableSize, hash);
    var op: nat, nextEmit: nat := start, 0;
    assert dst[start..op] == [];
    NoProgress(input);
    if |input| >= INPUT_MARGIN {
      op, nextEmit := EmitMatched(input, dst, start, table, tableSize, hash);
    }
    end := op;
    TailStep(input, nextEmit, dst[start..op]);
    if nextEmit < |input| {
      end := AppendLiteral(dst, start, op, input, nextEmit, |input|, false);
    }
    ProgressDone(dst[start..end], input);
  }

  lemma ProgressDone(enc: seq<byte>, input: seq<byte>)
    requires Progress(enc, input, |input|, 0) || Progress(enc, input, |input|, 1)
    ensures Encodes(enc, [], input) && |enc| <= |input| + |input| / 60 + 1
  {
    hide Encodes;
    assert input[..|input|] == input;
  }
}
