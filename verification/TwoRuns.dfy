/**
 A block whose compression needs what the compressor files at the end of a match: n bytes b and m bytes c,
 twice. The second c comes right after a match, and so does the second run of b; the word over the boundary
 was filed only because it starts one byte before the end of a match.
 */
module TwoRuns {
  import opened Bytes
  import opened Match
  import opened Format
  import opened Emit
  import opened Greedy

  /** b n times, c m times, and both again. */
  function Block(b: byte, c: byte, n: nat, m: nat): (s: seq<byte>)
    requires n > 0 && m > 0
    ensures |s| == 2 * n + 2 * m
    ensures forall i :: 0 <= i < |s| ==> s[i] == if i < n || n + m <= i < 2 * n + m then b else c
  {
    seq(2 * n + 2 * m, i => if i < n || n + m <= i < 2 * n + m then b else c)
  }

  /** The five words at which the compressor looks have different hashes. */
  ghost predicate Apart(hash: uint32 -> nat, b: byte, c: byte) {
    var h0, h1, h2 := hash(Word(b, b, b, b)), hash(Word(b, c, c, c)), hash(Word(c, c, c, c));
    var h3, h4 := hash(Word(c, b, b, b)), hash(Word(b, b, c, c));
    && h0 != h1 && h0 != h2 && h0 != h3 && h0 != h4 && h1 != h2 && h1 != h3 && h1 != h4 && h2 != h3 && h2 != h4
    && h3 != h4
  }

  lemma Words(b: byte, c: byte, n: nat, m: nat)
    requires n >= 5 && m >= 15
    ensures var s := Block(b, c, n, m);
            && Load32(s, 0) == Load32(s, 1) == Load32(s, n + m) == Word(b, b, b, b)
            && Load32(s, n - 1) == Load32(s, 2 * n + m - 1) == Word(b, c, c, c)
            && Load32(s, n) == Load32(s, n + 1) == Word(c, c, c, c)
            && Load32(s, n + m - 1) == Word(c, b, b, b)
            && Load32(s, 2 * n + m - 2) == Word(b, b, c, c)
  {
  }

  /** How far the matches along the first two runs go. */
  lemma LengthsAlong(b: byte, c: byte, n: nat, m: nat)
    requires n >= 5 && m >= 15 && b != c
    ensures var s := Block(b, c, n, m);
            MatchLength(s, 4, 5) == n - 5 && MatchLength(s, n + 4, n + 5) == m - 5
  {
    hide Block, MatchLength;
    var s := Block(b, c, n, m);
    Agreeing(s, 4, 5, n - 5);
    Agreeing(s, n + 4, n + 5, m - 5);
  }

  /** How far the matches back to the first two runs go. */
  lemma LengthsBack(b: byte, c: byte, n: nat, m: nat)
    requires n >= 5 && m >= 15 && b != c
    ensures var s := Block(b, c, n, m);
            MatchLength(s, 5, n + m + 4) == n - 5 && MatchLength(s, n + 3, 2 * n + m + 3) == m - 3
  {
    hide Block, MatchLength;
    var s := Block(b, c, n, m);
    Agreeing(s, 5, n + m + 4, n - 5);
    Agreeing(s, n + 3, 2 * n + m + 3, m - 3);
  }

  lemma {:induction false} Agreeing(s: seq<byte>, p: nat, q: nat, k: nat)
    requires p <= q && q + k <= |s| && forall j {:trigger s[j]} :: q <= j < q + k ==> s[j] == s[j - (q - p)]
    requires q + k < |s| ==> s[p + k] != s[q + k]
    ensures MatchLength(s, p, q) == k
    decreases k
  {
    if k > 0 {
      assert s[q] == s[q - (q - p)];
      Agreeing(s, p + 1, q + 1, k - 1);
    }
  }

  /** A match at ip with this candidate can be emitted. */
  ghost predicate AtMatch(s: seq<byte>, table: seq<uint16>, hash: uint32 -> nat, ip: nat, candidate: nat) {
    && INPUT_MARGIN <= |s| <= BLOCK_SIZE && HashInRange(hash, |table|)
    && candidate < ip < |s| - INPUT_MARGIN && Agree(s, candidate, ip, 4) && Below(table, ip + 1)
  }

  /** One match, and what is looked up behind it. */
  lemma RunStep(s: seq<byte>, table: seq<uint16>, hash: uint32 -> nat, ip: nat, candidate: nat, out: seq<byte>, n: nat)
    requires INPUT_MARGIN <= |s| <= BLOCK_SIZE && HashInRange(hash, |table|)
    requires candidate < ip < |s| - INPUT_MARGIN && Load32(s, candidate) == Load32(s, ip) && Below(table, ip + 1)
    requires MatchLength(s, candidate + 4, ip + 4) == n
    ensures Agree(s, candidate, ip, 4)
    ensures var m, next := EmitRun(s, table, hash, ip, candidate, out), ip + 4 + n;
            var emitted := out + CopyRun(ip - candidate, 4 + n);
            && Below(table, next)
            && if next + 15 >= |s| then m == Matches(emitted, next, false, table)
               else
                 var before := table[hash(Load32(s, next - 1)) := next - 1];
                 var c, t := before[hash(Load32(s, next))], before[hash(Load32(s, next)) := next];
                 && Below(t, next + 1) && c < next
                 && if Load32(s, c) == Load32(s, next) then
                      Agree(s, c, next, 4) && m == EmitRun(s, t, hash, next, c, emitted)
                    else m == Matches(emitted, next, true, t)
  {
    hide Load32, CopyRun, MatchLength;
    Load32Injective(s, candidate, ip);
    var next := ip + 4 + n;
    if next + 15 < |s| {
      Load32Injective(s, Refiled(s, table, hash, next)[hash(Load32(s, next))], next);
    }
  }

  /** The scan finds a match at once. */
  lemma FoundAtOnce(s: seq<byte>, table: seq<uint16>, hash: uint32 -> nat, ip: nat)
    requires INPUT_MARGIN <= |s| <= BLOCK_SIZE && HashInRange(hash, |table|)
    requires 0 < ip && ip + 16 <= |s| && Below(table, ip)
    requires var c := table[hash(Load32(s, ip))]; Load32(s, c) == Load32(s, ip)
    ensures var h := hash(Load32(s, ip)); Scan(s, table, hash, ip, ip) == Found(ip, table[h], table[h := ip])
  {
    hide Load32;
    ScanStep(s, table, hash, ip, ip);
  }

  /** From the start of the block to the end of the first match. */
  lemma FirstRun(b: byte, c: byte, n: nat, m: nat, size: nat, hash: uint32 -> nat) returns (t: seq<uint16>)
    requires n >= 5 && m >= 15 && b != c && 2 * n + 2 * m <= 0x1_0000
    requires HashInRange(hash, size) && Apart(hash, b, c)
    ensures var s := Block(b, c, n, m);
            && |t| == size && Below(t, n + 1) && HashInRange(hash, |t|)
            && t[hash(Word(b, b, b, b))] == 1 && t[hash(Word(b, c, c, c))] == n - 1 && t[hash(Word(c, c, c, c))] == n
            && BlockCode(s, size, hash)
               == Alternate(s, t, hash, n, n + 1, LiteralHeader(1) + [b] + CopyRun(1, n - 1))
  {
    hide Load32, MatchLength, LiteralHeader, CopyRun, Alternate, EmitRun, Scan, Block;
    var s := Block(b, c, n, m);
    Words(b, c, n, m);
    LengthsAlong(b, c, n, m);
    var t0: seq<uint16> := seq(size, i => 0);
    var h0, h1, h2 := hash(Word(b, b, b, b)), hash(Word(b, c, c, c)), hash(Word(c, c, c, c));
    FoundAtOnce(s, t0, hash, 1);
    var t1 := t0[h0 := 1];
    var literal := LiteralHeader(1) + s[0..1];
    assert s[0..1] == [s[0]] == [b];
    RunStep(s, t1, hash, 1, 0, [] + literal, n - 5);
    AlternateStep(s, t0, hash, 0, 1, []);
    assert [] + literal == LiteralHeader(1) + [b];
    t := t1[h1 := n - 1][h2 := n];
  }

  /** The single byte c, found again one position on, and the rest of its run. */
  lemma SecondRun(b: byte, c: byte, n: nat, m: nat, t: seq<uint16>, hash: uint32 -> nat, out: seq<byte>)
    returns (u: seq<uint16>)
    requires n >= 5 && m >= 15 && b != c && 2 * n + 2 * m <= 0x1_0000
    requires HashInRange(hash, |t|) && Apart(hash, b, c) && Below(t, n + 1)
    requires t[hash(Word(b, b, b, b))] == 1 && t[hash(Word(b, c, c, c))] == n - 1 && t[hash(Word(c, c, c, c))] == n
    ensures var s, next := Block(b, c, n, m), n + m;
            var emitted := out + (LiteralHeader(1) + [c]) + CopyRun(1, m - 1);
            && |u| == |t| && u[hash(Word(b, c, c, c))] == n - 1 && AtMatch(s, u, hash, next, 1)
            && Alternate(s, t, hash, n, n + 1, out) ==
               var run := EmitRun(s, u, hash, next, 1, emitted);
               if run.more then Alternate(s, run.table, hash, run.ip, run.ip + 1, run.out)
               else Tail(s, run.ip, run.out)
  {
    hide Load32, MatchLength, LiteralHeader, CopyRun, Alternate, EmitRun, Scan, Block, Tail;
    var s := Block(b, c, n, m);
    Words(b, c, n, m);
    LengthsAlong(b, c, n, m);
    var h0, h2, h3 := hash(Word(b, b, b, b)), hash(Word(c, c, c, c)), hash(Word(c, b, b, b));
    FoundAtOnce(s, t, hash, n + 1);
    var t1 := t[h2 := n + 1];
    assert s[n..n + 1] == [s[n]] == [c];
    var literal := LiteralHeader(1) + [c];
    RunStep(s, t1, hash, n + 1, n, out + literal, m - 5);
    AlternateStep(s, t, hash, n, n + 1, out);
    u := t1[h3 := n + m - 1][h0 := n + m];
  }

  /** The second run of b matches the first one from its second byte on, and the rest matches from the boundary. */
  lemma LastRuns(b: byte, c: byte, n: nat, m: nat, u: seq<uint16>, hash: uint32 -> nat, out: seq<byte>)
    requires n >= 5 && m >= 15 && b != c && 2 * n + 2 * m <= 0x1_0000
    requires AtMatch(Block(b, c, n, m), u, hash, n + m, 1)
    requires u[hash(Word(b, c, c, c))] == n - 1 && hash(Word(b, b, c, c)) != hash(Word(b, c, c, c))
    ensures var run := EmitRun(Block(b, c, n, m), u, hash, n + m, 1, out);
            && !run.more && run.ip == 2 * n + 2 * m
            && run.out == out + CopyRun(n + m - 1, n - 1) + CopyRun(n + m, m + 1)
  {
    hide Load32, MatchLength, CopyRun, EmitRun, Block;
    var s := Block(b, c, n, m);
    Words(b, c, n, m);
    LengthsBack(b, c, n, m);
    RunStep(s, u, hash, n + m, 1, out, n - 5);
    var h1, h4 := hash(Word(b, c, c, c)), hash(Word(b, b, c, c));
    var v, next := u[h4 := 2 * n + m - 2][h1 := 2 * n + m - 1], 2 * n + m - 1;
    RunStep(s, v, hash, next, n - 1, out + CopyRun(n + m - 1, n - 1), m - 3);
  }

  /**
   Two literals of one byte each, and four matches: along each run, then back to the first run of b, then back
   to the word over the boundary.
   */
  lemma TwoRunsCode(b: byte, c: byte, n: nat, m: nat, size: nat, hash: uint32 -> nat)
    requires n >= 5 && m >= 15 && b != c && 2 * n + 2 * m <= 0x1_0000
    requires HashInRange(hash, size) && Apart(hash, b, c)
    ensures BlockCode(Block(b, c, n, m), size, hash)
         == LiteralHeader(1) + [b] + CopyRun(1, n - 1) + (LiteralHeader(1) + [c]) + CopyRun(1, m - 1)
            + CopyRun(n + m - 1, n - 1) + CopyRun(n + m, m + 1)
  {
    hide BlockCode, Alternate, EmitRun, LiteralHeader, CopyRun, Below, Block;
    var s := Block(b, c, n, m);
    var first := LiteralHeader(1) + [b] + CopyRun(1, n - 1);
    var t := FirstRun(b, c, n, m, size, hash);
    var u := SecondRun(b, c, n, m, t, hash, first);
    LastRuns(b, c, n, m, u, hash, first + (LiteralHeader(1) + [c]) + CopyRun(1, m - 1));
  }
}
