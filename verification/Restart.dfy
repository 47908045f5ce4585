/**
 A block whose compression needs the scan to start afresh after a match: n equal bytes, then other bytes that
 repeat themselves every p of up to 32. However long the first match was, the scan behind it looks at every
 position again.
 */
module Restart {
  import opened Bytes
  import opened Emit
  import opened Greedy
  import opened TwoRuns

  /** n times b, another byte, and from there on a period of p. */
  ghost predicate RunThenRepeats(s: seq<byte>, b: byte, n: nat, p: nat) {
    && n >= 5 && 1 <= p <= 32 && n + p + 16 <= |s| <= 0x1_0000
    && (forall i :: 0 <= i < n ==> s[i] == b) && s[n] != b
    && forall i {:trigger s[i]} :: n + p <= i < |s| ==> s[i] == s[i - p]
  }

  /** The word of the run, the one over its end and the p words behind it have different hashes. */
  ghost predicate AllApart(s: seq<byte>, hash: uint32 -> nat, b: byte, n: nat, p: nat)
    requires 0 < n && n + p + 4 <= |s|
  {
    && (forall i :: n - 1 <= i < n + p ==> hash(Load32(s, i)) != hash(Word(b, b, b, b)))
    && forall i, j :: n - 1 <= i < j < n + p ==> hash(Load32(s, i)) != hash(Load32(s, j))
  }

  /** The words behind the run that the table knows when the scan is at ip. */
  ghost predicate FiledBehind(s: seq<byte>, table: seq<uint16>, hash: uint32 -> nat, n: nat, p: nat, ip: nat)
    requires n + p + 4 <= |s| && HashInRange(hash, |table|)
  {
    forall j :: n <= j < n + p ==> table[hash(Load32(s, j))] == if j < ip then j else 0
  }

  lemma FileOne(s: seq<byte>, table: seq<uint16>, hash: uint32 -> nat, b: byte, n: nat, p: nat, ip: nat)
    requires 0 < n && n + p + 4 <= |s| <= 0x1_0000 && HashInRange(hash, |table|) && AllApart(s, hash, b, n, p)
    requires n <= ip < n + p && FiledBehind(s, table, hash, n, p, ip)
    ensures FiledBehind(s, table[hash(Load32(s, ip)) := ip], hash, n, p, ip + 1)
  {
    hide Load32;
  }

  /** The scan behind the run passes by the first p words and finds the first of them again. */
  lemma {:induction false} ScanBehind(s: seq<byte>, table: seq<uint16>, hash: uint32 -> nat, b: byte, n: nat, p: nat,
                                      ip: nat) returns (t: seq<uint16>)
    requires RunThenRepeats(s, b, n, p) && HashInRange(hash, |table|) && AllApart(s, hash, b, n, p)
    requires n < ip <= n + p && Below(table, ip) && FiledBehind(s, table, hash, n, p, ip)
    ensures Scan(s, table, hash, n + 1, ip) == Found(n + p, n, t)
    decreases n + p - ip
  {
    hide Load32, Below;
    ScanStep(s, table, hash, n + 1, ip);
    RunWords(s, b, n, p);
    if ip < n + p {
      FileOne(s, table, hash, b, n, p, ip);
      t := ScanBehind(s, table[hash(Load32(s, ip)) := ip], hash, b, n, p, ip + 1);
    } else {
      t := table[hash(Load32(s, ip)) := ip];
    }
  }

  lemma RunWords(s: seq<byte>, b: byte, n: nat, p: nat)
    requires RunThenRepeats(s, b, n, p)
    ensures Load32(s, 0) == Load32(s, 1) == Word(b, b, b, b)
    ensures Load32(s, n + p) == Load32(s, n)
  {
  }

  lemma RunLengths(s: seq<byte>, b: byte, n: nat, p: nat)
    requires RunThenRepeats(s, b, n, p)
    ensures MatchLength(s, 4, 5) == n - 5 && MatchLength(s, n + 4, n + p + 4) == |s| - (n + p + 4)
  {
    hide MatchLength;
    Agreeing(s, 4, 5, n - 5);
    Agreeing(s, n + 4, n + p + 4, |s| - (n + p + 4));
  }

  /** Up to the end of the run; the byte behind it matches nothing. */
  lemma RunFirst(s: seq<byte>, b: byte, n: nat, p: nat, size: nat, hash: uint32 -> nat) returns (t: seq<uint16>)
    requires RunThenRepeats(s, b, n, p) && HashInRange(hash, size) && AllApart(s, hash, b, n, p)
    ensures |t| == size && Below(t, n + 1) && HashInRange(hash, |t|) && FiledBehind(s, t, hash, n, p, n + 1)
    ensures BlockCode(s, size, hash) == Alternate(s, t, hash, n, n + 1, LiteralHeader(1) + [b] + CopyRun(1, n - 1))
  {
    hide Load32, MatchLength, LiteralHeader, CopyRun, Alternate, EmitRun, Scan;
    RunWords(s, b, n, p);
    RunLengths(s, b, n, p);
    var t0: seq<uint16> := seq(size, i => 0);
    FoundAtOnce(s, t0, hash, 1);
    var t1 := t0[hash(Word(b, b, b, b)) := 1];
    var literal := LiteralHeader(1) + s[0..1];
    assert s[0..1] == [s[0]] == [b];
    RunStep(s, t1, hash, 1, 0, [] + literal, n - 5);
    AlternateStep(s, t0, hash, 0, 1, []);
    assert [] + literal == LiteralHeader(1) + [b];
    t := t1[hash(Load32(s, n - 1)) := n - 1][hash(Load32(s, n)) := n];
  }

  /** The run, a literal of the first p bytes behind it, and one match for all the rest. */
  lemma RunThenRepeatsCode(s: seq<byte>, b: byte, n: nat, p: nat, size: nat, hash: uint32 -> nat)
    requires RunThenRepeats(s, b, n, p) && HashInRange(hash, size) && AllApart(s, hash, b, n, p)
    ensures BlockCode(s, size, hash)
         == LiteralHeader(1) + [b] + CopyRun(1, n - 1) + (LiteralHeader(p) + s[n..n + p]) + CopyRun(p, |s| - n - p)
  {
    hide BlockCode, Load32, MatchLength, LiteralHeader, CopyRun, Alternate, EmitRun, Scan, AllApart, FiledBehind;
    var t := RunFirst(s, b, n, p, size, hash);
    var out := LiteralHeader(1) + [b] + CopyRun(1, n - 1);
    var u := ScanBehind(s, t, hash, b, n, p, n + 1);
    RunWords(s, b, n, p);
    RunLengths(s, b, n, p);
    AlternateStep(s, t, hash, n, n + 1, out);
    RunStep(s, u, hash, n + p, n, out + (LiteralHeader(p) + s[n..n + p]), |s| - (n + p + 4));
  }
}
