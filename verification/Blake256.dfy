/**
 BLAKE-256 streaming (blake256.c) with the compression function left open: what an update really absorbs,
 and the counter rewinds of the final padding.
 */
module Blake256 {
  import opened Arithmetic
  import opened Bits
  import opened Bytes
  import opened HashWords

  const BLOCK := 64
  const TWO_32 := 0x1_0000_0000
  const TWO_64 := 0x1_0000_0000_0000_0000

  /** Chaining value, block, bit counter; leaving the counter out of the block function is a counter of zero. */
  type Compress = (Chain32, seq<byte>, nat) -> Chain32

  /** Section 2.1.3 of the SHA-3 proposal BLAKE: a one bit, zeros, the bit that tells BLAKE-256 apart, the length. */
  function Padded(message: seq<byte>, tail: byte): (p: seq<byte>)
    requires tail <= 1
    ensures |p| % BLOCK == 0
  {
    var n := |message|;
    WholeBlocks(n - n % BLOCK, n % BLOCK + |Marks(n % BLOCK, tail)| + 8);
    message + Marks(n % BLOCK, tail) + BigEndian(8 * n, 8)
  }

  /** What stands between r message bytes of the last block and the length. */
  function Marks(r: nat, tail: byte): (p: seq<byte>)
    requires r < BLOCK && tail <= 1
    ensures (r + |p| + 8) % BLOCK == 0
  {
    if r == 55 then [0x80 + tail]
    else if r < 55 then [0x80] + Zeros(54 - r) + [tail]
    else [0x80] + Zeros(118 - r) + [tail]
  }

  /** The counter of the block that ends at byte e: message bits so far, or none if the block has no message bit. */
  function BlockCounter(e: nat, n: nat): nat {
    if e >= n + BLOCK then 0 else Bits64(Min(e, n))
  }

  function Bits64(n: nat): nat {
    8 * n % TWO_64
  }

  /** The chaining value after whole blocks of a padded message of n bytes. */
  function Counted(f: Compress, h0: Chain32, data: seq<byte>, n: nat): Chain32 {
    if |data| < BLOCK then h0
    else f(Counted(f, h0, data[..|data| - BLOCK], n), data[|data| - BLOCK..], BlockCounter(|data|, n))
  }

  /** Section 2.1 of the proposal. */
  function Hash(f: Compress, h0: Chain32, message: seq<byte>, tail: byte): Chain32
    requires tail <= 1
  {
    Counted(f, h0, Padded(message, tail), |message|)
  }

  /** A chaining value with the two words of the bit counter. */
  datatype Chaining = Chaining(h: Chain32, t0: uint32, t1: uint32)

  /** Counts 512 bits, then compresses. */
  function Tick(f: Compress, s: Chaining, nulled: bool, block: seq<byte>): Chaining {
    var t0 := (s.t0 + 512) % TWO_32;
    var t1 := if t0 == 0 then (s.t1 + 1) % TWO_32 else s.t1;
    Chaining(f(s.h, block, if nulled then 0 else t1 * TWO_32 + t0), t0, t1)
  }

  function Run(f: Compress, s: Chaining, nulled: bool, data: seq<byte>): Chaining {
    if |data| < BLOCK then s
    else Tick(f, Run(f, s, nulled, data[..|data| - BLOCK]), nulled, data[|data| - BLOCK..])
  }

  lemma RunNext(f: Compress, s: Chaining, nulled: bool, pre: seq<byte>, block: seq<byte>)
    requires |pre| % BLOCK == 0 && |block| == BLOCK
    ensures Run(f, s, nulled, pre + block) == Tick(f, Run(f, s, nulled, pre), nulled, block)
    ensures pre == [] ==> Run(f, s, nulled, block) == Tick(f, s, nulled, block)
  {
    var next := pre + block;
    assert next[..|next| - BLOCK] == pre && next[|next| - BLOCK..] == block;
    if pre == [] {
      assert next == block;
    }
  }

  lemma CountedNext(f: Compress, h0: Chain32, pre: seq<byte>, block: seq<byte>, n: nat)
    requires |pre| % BLOCK == 0 && |block| == BLOCK
    ensures Counted(f, h0, pre + block, n) == f(Counted(f, h0, pre, n), block, BlockCounter(|pre| + BLOCK, n))
    ensures |pre + block| % BLOCK == 0
  {
    hide BlockCounter;
    var next := pre + block;
    assert next[..|next| - BLOCK] == pre && next[|next| - BLOCK..] == block;
  }

  /** Two counter words that hold the bits of k whole blocks; a carry happens exactly when the low word turns zero. */
  ghost predicate Counts(t0: uint32, t1: uint32, k: nat) {
    t0 % 512 == 0 && t1 * TWO_32 + t0 == Bits64(k)
  }

  lemma WordsNext(t0: uint32, t1: uint32)
    requires t0 % 512 == 0
    ensures var low := (t0 + 512) % TWO_32;
            var high := if low == 0 then (t1 + 1) % TWO_32 else t1;
            low % 512 == 0 && high * TWO_32 + low == (t1 * TWO_32 + t0 + 512) % TWO_64
  {
    var value := t1 * TWO_32 + t0 + 512;
    if t0 + 512 < TWO_32 {
      DivWord(t0 + 512, TWO_32, t0 + 512, 0);
      DivWord(value, TWO_64, value, 0);
    } else {
      DivWord(t0 + 512, TWO_32, 0, 1);
      if t1 + 1 < TWO_32 {
        DivWord(t1 + 1, TWO_32, t1 + 1, 0);
        DivWord(value, TWO_64, value, 0);
      } else {
        DivWord(value, TWO_64, 0, 1);
      }
    }
  }

  lemma CountsNext(t0: uint32, t1: uint32, k: nat)
    requires Counts(t0, t1, k)
    ensures var low := (t0 + 512) % TWO_32;
            Counts(low, if low == 0 then (t1 + 1) % TWO_32 else t1, k + BLOCK)
  {
    AddMod(8 * k, 512, TWO_64);
    WordsNext(t0, t1);
  }

  /** Absorbing whole blocks of a message counts exactly its bits so far. */
  lemma {:induction false} RunIsCounted(f: Compress, h0: Chain32, data: seq<byte>, n: nat)
    requires |data| % BLOCK == 0 && |data| <= n
    ensures var s := Run(f, Chaining(h0, 0, 0), false, data);
            s.h == Counted(f, h0, data, n) && Counts(s.t0, s.t1, |data|)
    decreases |data|
  {
    hide Counts, Bits64, Run, Counted;
    if data == [] {
      NothingRun(f, h0, n);
    } else {
      var pre, block := data[..|data| - BLOCK], data[|data| - BLOCK..];
      assert data == pre + block;
      RunIsCounted(f, h0, pre, n);
      RunNext(f, Chaining(h0, 0, 0), false, pre, block);
      CountedNext(f, h0, pre, block, n);
      var s := Run(f, Chaining(h0, 0, 0), false, pre);
      CountsNext(s.t0, s.t1, |pre|);
      CountsValue(|data|);
      InMessage(|data|, n);
    }
  }

  lemma NothingRun(f: Compress, h0: Chain32, n: nat)
    ensures Run(f, Chaining(h0, 0, 0), false, []) == Chaining(h0, 0, 0) && Counted(f, h0, [], n) == h0
    ensures Counts(0, 0, 0)
  {
  }

  lemma InMessage(e: nat, n: nat)
    requires e <= n
    ensures BlockCounter(e, n) == Bits64(e)
  {
  }

  lemma CountsValue(k: nat)
    ensures forall t0: uint32, t1: uint32 :: Counts(t0, t1, k) ==> t1 * TWO_32 + t0 == Bits64(k)
  {
  }

  /**
   What an update really appends. Only the length modulo 64 decides whether a started block is completed:
   otherwise whole blocks of the data overtake the buffered bytes, and a length that is a multiple of 64,
   zero included, discards them.
   */
  function Absorbed(m: seq<byte>, d: seq<byte>): (r: seq<byte>)
    ensures |m| % BLOCK + |d| < BLOCK && d != [] ==> r == m + d
  {
    var k, left, j := |m| - |m| % BLOCK, |m| % BLOCK, |d| - |d| % BLOCK;
    if left == 0 || |d| % BLOCK >= BLOCK - left then m + d
    else if |d| % BLOCK == 0 then m[..k] + d
    else m[..k] + d[..j] + m[k..] + d[j..]
  }

  /** An update that absorbs its data as it should, with left bytes buffered. */
  predicate Honoured(left: nat, len: nat)
    requires left < BLOCK
  {
    left == 0 || 0 < len < BLOCK || len % BLOCK >= BLOCK - left
  }

  /** Updates append their data, whatever it is, exactly under that condition. */
  lemma HonouredIsExact(left: nat, len: nat)
    requires left < BLOCK
    ensures Honoured(left, len) <==>
            forall m: seq<byte>, d: seq<byte> :: |m| % BLOCK == left && |d| == len ==> Absorbed(m, d) == m + d
  {
    if Honoured(left, len) {
      forall m: seq<byte>, d: seq<byte> | |m| % BLOCK == left && |d| == len
        ensures Absorbed(m, d) == m + d
      {
        if len < BLOCK {
          assert |d| % BLOCK == len && m[..|m| - left] + d[..0] + m[|m| - left..] == m;
        }
      }
    } else {
      var m: seq<byte>, d: seq<byte> := Zeros(left), seq(len, i => 1);
      assert |m| % BLOCK == left && |d| == len;
      if len % BLOCK == 0 {
        assert |Absorbed(m, d)| == len;
      } else {
        assert Absorbed(m, d)[0] == d[0] == 1 && (m + d)[0] == 0;
      }
    }
  }

  /** What a run of updates absorbs. */
  function AbsorbAll(m: seq<byte>, pieces: seq<seq<byte>>): seq<byte> {
    if pieces == [] then m else Absorbed(AbsorbAll(m, pieces[..|pieces| - 1]), pieces[|pieces| - 1])
  }

  function Lengths(pieces: seq<seq<byte>>): (lens: seq<nat>)
    ensures |lens| == |pieces|
  {
    seq(|pieces|, i requires 0 <= i < |pieces| => |pieces[i]|)
  }

  function Total(lens: seq<nat>): nat {
    if lens == [] then 0 else Total(lens[..|lens| - 1]) + lens[|lens| - 1]
  }

  /** An update of len bytes is honoured after n bytes. */
  predicate HonouredAfter(n: nat, len: nat) {
    Honoured(n % BLOCK, len)
  }

  /** Every piece arrives in a state in which its update is honoured. */
  predicate Orderly(start: nat, lens: seq<nat>) {
    lens == [] ||
    (var n := |lens| - 1; Orderly(start, lens[..n]) && HonouredAfter(start + Total(lens[..n]), lens[n]))
  }

  lemma {:induction false} TotalIsLength(pieces: seq<seq<byte>>)
    ensures Total(Lengths(pieces)) == |Concat(pieces)|
    decreases |pieces|
  {
    if pieces != [] {
      TotalIsLength(pieces[..|pieces| - 1]);
      assert Lengths(pieces)[..|pieces| - 1] == Lengths(pieces[..|pieces| - 1]);
    }
  }

  lemma HonouredAbsorbs(m: seq<byte>, d: seq<byte>)
    requires HonouredAfter(|m|, |d|)
    ensures Absorbed(m, d) == m + d
  {
    HonouredIsExact(|m| % BLOCK, |d|);
  }

  lemma {:induction false} OrderlyAbsorbs(m: seq<byte>, pieces: seq<seq<byte>>)
    requires Orderly(|m|, Lengths(pieces))
    ensures AbsorbAll(m, pieces) == m + Concat(pieces)
    decreases |pieces|
  {
    hide Absorbed, HonouredAfter;
    if pieces != [] {
      var n := |pieces| - 1;
      assert Lengths(pieces)[..n] == Lengths(pieces[..n]);
      OrderlyAbsorbs(m, pieces[..n]);
      TotalIsLength(pieces[..n]);
      HonouredAbsorbs(m + Concat(pieces[..n]), pieces[n]);
    }
  }

  function Ones(n: nat): (z: seq<byte>)
    ensures |z| == n && forall i :: 0 <= i < n ==> z[i] == 1
  {
    seq(n, i => 1)
  }

  /** Pieces of these lengths, zeros before piece i and ones from there on. */
  function Marked(lens: seq<nat>, i: nat): (pieces: seq<seq<byte>>)
    ensures |pieces| == |lens| && Lengths(pieces) == lens
  {
    seq(|lens|, j requires 0 <= j < |lens| => if j < i then Zeros(lens[j]) else Ones(lens[j]))
  }

  /** z does not have a zero at k, which is a block boundary. */
  predicate NoZeroAt(z: seq<byte>, k: nat) {
    k % BLOCK == 0 && k <= |z| && (|z| > k ==> z[k] == 1)
  }

  /** An update of ones leaves whole blocks alone and puts a one, or what was there, behind them. */
  lemma AbsorbedOnes(y: seq<byte>, n: nat)
    ensures var c, z := |y| - |y| % BLOCK, Absorbed(y, Ones(n));
            && c <= |z| && (forall i :: 0 <= i < c ==> z[i] == y[i])
            && (|z| > c ==> z[c] == 1 || (c < |y| && z[c] == y[c]))
  {
  }

  lemma BoundaryBelow(k: nat, n: nat)
    requires k % BLOCK == 0 && k <= n
    ensures k <= n - n % BLOCK
  {
  }

  /** Once a one has taken the place at a block boundary, no update of ones puts a zero there. */
  lemma MarkStays(y: seq<byte>, k: nat, n: nat)
    requires NoZeroAt(y, k)
    ensures NoZeroAt(Absorbed(y, Ones(n)), k)
  {
    hide Absorbed;
    AbsorbedOnes(y, n);
    BoundaryBelow(k, |y|);
  }

  /** The position of the first buffered byte. */
  function FirstHeld(n: nat): (k: nat)
    ensures k <= n
  {
    n - n % BLOCK
  }

  /** An update that is not honoured takes the place of the first buffered byte. */
  lemma MarkTaken(y: seq<byte>, n: nat)
    requires !HonouredAfter(|y|, n)
    ensures FirstHeld(|y|) < |y| && NoZeroAt(Absorbed(y, Ones(n)), FirstHeld(|y|))
  {
  }

  lemma AbsorbStep(m: seq<byte>, pieces: seq<seq<byte>>, j: nat)
    requires j < |pieces|
    ensures AbsorbAll(m, pieces[..j + 1]) == Absorbed(AbsorbAll(m, pieces[..j]), pieces[j])
  {
    assert pieces[..j + 1][..j] == pieces[..j];
  }

  lemma {:induction false} MarkRemains(m: seq<byte>, lens: seq<nat>, i: nat, j: nat)
    requires i < j <= |lens| && !HonouredAfter(|AbsorbAll(m, Marked(lens, i)[..i])|, lens[i])
    ensures var y := AbsorbAll(m, Marked(lens, i)[..i]);
            && FirstHeld(|y|) < |y|
            && NoZeroAt(AbsorbAll(m, Marked(lens, i)[..j]), FirstHeld(|y|))
    decreases j
  {
    hide Absorbed, HonouredAfter, AbsorbAll, NoZeroAt, FirstHeld;
    var pieces := Marked(lens, i);
    var y := AbsorbAll(m, pieces[..i]);
    AbsorbStep(m, pieces, j - 1);
    MarkTaken(y, lens[i]);
    if j > i + 1 {
      MarkRemains(m, lens, i, j - 1);
      MarkStays(AbsorbAll(m, pieces[..j - 1]), FirstHeld(|y|), lens[j - 1]);
    }
  }

  lemma {:induction false} ZerosConcat(pieces: seq<seq<byte>>)
    requires forall j :: 0 <= j < |pieces| ==> pieces[j] == Zeros(|pieces[j]|)
    ensures Concat(pieces) == Zeros(|Concat(pieces)|)
    decreases |pieces|
  {
    if pieces != [] {
      ZerosConcat(pieces[..|pieces| - 1]);
    }
  }

  lemma {:induction false} ConcatPrefix(pieces: seq<seq<byte>>, i: nat)
    requires i <= |pieces|
    ensures Concat(pieces[..i]) <= Concat(pieces)
    decreases |pieces|
  {
    if i < |pieces| {
      ConcatPrefix(pieces[..|pieces| - 1], i);
      assert pieces[..|pieces| - 1][..i] == pieces[..i];
    } else {
      assert pieces[..i] == pieces;
    }
  }

  /** The first update that is not honoured spoils the whole message, for some contents. */
  lemma DisorderShows(start: nat, lens: seq<nat>, i: nat)
    requires i < |lens| && Orderly(start, lens[..i]) && !HonouredAfter(start + Total(lens[..i]), lens[i])
    ensures AbsorbAll(Zeros(start), Marked(lens, i)) != Zeros(start) + Concat(Marked(lens, i))
  {
    hide Absorbed, HonouredAfter, Orderly, AbsorbAll, FirstHeld;
    var m, pieces := Zeros(start), Marked(lens, i);
    assert Lengths(pieces[..i]) == lens[..i];
    TotalIsLength(pieces[..i]);
    OrderlyAbsorbs(m, pieces[..i]);
    ZerosConcat(pieces[..i]);
    ConcatPrefix(pieces, i);
    MarkRemains(m, lens, i, |lens|);
    assert pieces[..|lens|] == pieces;
  }

  lemma {:induction false} FirstDisorder(start: nat, lens: seq<nat>) returns (i: nat)
    requires !Orderly(start, lens)
    ensures i < |lens| && Orderly(start, lens[..i]) && !HonouredAfter(start + Total(lens[..i]), lens[i])
    decreases |lens|
  {
    hide HonouredAfter;
    i := |lens| - 1;
    if !Orderly(start, lens[..i]) {
      var n := i;
      i := FirstDisorder(start, lens[..n]);
      assert lens[..n][..i] == lens[..i];
    }
  }

  /** Updates absorb the concatenation of their data, whatever it is, exactly when they are orderly. */
  lemma OrderlyIsExact(start: nat, lens: seq<nat>)
    ensures Orderly(start, lens) <==>
            forall m: seq<byte>, pieces: seq<seq<byte>> :: |m| == start && Lengths(pieces) == lens ==>
              AbsorbAll(m, pieces) == m + Concat(pieces)
  {
    hide Orderly, AbsorbAll, Concat;
    if Orderly(start, lens) {
      forall m: seq<byte>, pieces: seq<seq<byte>> | |m| == start && Lengths(pieces) == lens
        ensures AbsorbAll(m, pieces) == m + Concat(pieces)
      {
        OrderlyAbsorbs(m, pieces);
      }
    } else {
      var i := FirstDisorder(start, lens);
      DisorderShows(start, lens, i);
    }
  }

  /** Every piece is not empty and under 64 bytes, or starts on an empty buffer. */
  predicate Careful(start: nat, lens: seq<nat>) {
    lens == [] ||
    (var n := |lens| - 1;
     Careful(start, lens[..n]) && (0 < lens[n] < BLOCK || (start + Total(lens[..n])) % BLOCK == 0))
  }

  lemma {:induction false} CarefulIsOrderly(start: nat, lens: seq<nat>)
    requires Careful(start, lens)
    ensures Orderly(start, lens)
    decreases |lens|
  {
    if lens != [] {
      CarefulIsOrderly(start, lens[..|lens| - 1]);
    }
  }

  /** The state of a context that has absorbed stream. */
  ghost predicate Streaming(f: Compress, h0: Chain32, stream: seq<byte>, held: seq<byte>, s: Chaining)
    ensures Streaming(f, h0, stream, held, s) ==> |held| == |stream| % BLOCK
  {
    var k := |stream| - |stream| % BLOCK;
    held == stream[k..] && s == Run(f, Chaining(h0, 0, 0), false, stream[..k])
  }

  lemma {:induction false} RunAppend(f: Compress, s: Chaining, nulled: bool, a: seq<byte>, b: seq<byte>)
    requires |a| % BLOCK == 0 && |b| % BLOCK == 0
    ensures Run(f, Run(f, s, nulled, a), nulled, b) == Run(f, s, nulled, a + b)
    decreases |b|
  {
    hide Run, Tick;
    if b == [] {
      FirstBlock(f, Run(f, s, nulled, a), nulled, b);
      assert a + b == a;
    } else {
      var c, block := b[..|b| - BLOCK], b[|b| - BLOCK..];
      RunAppend(f, s, nulled, a, c);
      WholeBlocks(|a|, |c|);
      RunNext(f, s, nulled, a + c, block);
      RunNext(f, Run(f, s, nulled, a), nulled, c, block);
      assert c + block == b && a + c + block == a + b;
    }
  }

  lemma HoldRest(f: Compress, h0: Chain32, pre: seq<byte>, s: Chaining, rest: seq<byte>)
    requires |pre| % BLOCK == 0 && |rest| < BLOCK && s == Run(f, Chaining(h0, 0, 0), false, pre)
    ensures Streaming(f, h0, pre + rest, rest, s)
  {
    hide Run;
    DivWord(|pre + rest|, BLOCK, |rest|, |pre| / BLOCK);
    assert (pre + rest)[..|pre|] == pre;
    assert (pre + rest)[|pre|..] == rest;
  }

  /** The raw effect of an update on the state is to absorb what Absorbed says. */
  lemma UpdateAbsorbs(f: Compress, h0: Chain32, stream: seq<byte>, held: seq<byte>, s: Chaining, data: seq<byte>)
    requires Streaming(f, h0, stream, held, s)
    ensures Streaming(f, h0, Absorbed(stream, data), Rest(held, data), Run(f, s, false, Blocks(held, data)))
  {
    hide Run, Streaming, Blocks, Rest, Absorbed;
    var pre, blocks := stream[..|stream| - |held|], Blocks(held, data);
    StreamingParts(f, h0, stream, held, s);
    AbsorbedParts(stream, held, data);
    RunAppend(f, Chaining(h0, 0, 0), false, pre, blocks);
    WholeBlocks(|pre|, |blocks|);
    HoldRest(f, h0, pre + blocks, Run(f, s, false, blocks), Rest(held, data));
  }

  lemma StreamingParts(f: Compress, h0: Chain32, stream: seq<byte>, held: seq<byte>, s: Chaining)
    requires Streaming(f, h0, stream, held, s)
    ensures var k := |stream| - |held|;
            && k >= 0 && k % BLOCK == 0 && stream == stream[..k] + held
            && s == Run(f, Chaining(h0, 0, 0), false, stream[..k])
  {
  }

  lemma AbsorbedParts(stream: seq<byte>, held: seq<byte>, data: seq<byte>)
    requires |held| == |stream| % BLOCK && held == stream[|stream| - |held|..]
    ensures |Rest(held, data)| < BLOCK && |Blocks(held, data)| % BLOCK == 0
    ensures Absorbed(stream, data) == stream[..|stream| - |held|] + Blocks(held, data) + Rest(held, data)
  {
    hide Rest, Blocks, Absorbed;
    var pre := stream[..|stream| - |held|];
    assert stream == pre + held;
    if Completes(held, data) {
      Completed(pre, held, data);
    } else if held == [] {
      NothingHeld(pre, data);
    } else {
      Overtaken(pre, held, data);
    }
  }

  lemma NothingHeld(pre: seq<byte>, data: seq<byte>)
    requires |pre| % BLOCK == 0
    ensures |Rest([], data)| < BLOCK && |Blocks([], data)| % BLOCK == 0
    ensures Absorbed(pre + [], data) == pre + Blocks([], data) + Rest([], data)
  {
    var k := |data| - |data| % BLOCK;
    assert pre + [] == pre;
    SplitAt(pre, data, k);
  }

  lemma CompletedParts(held: seq<byte>, data: seq<byte>)
    requires Completes(held, data)
    ensures var taken := held + data;
            var k := |taken| - |taken| % BLOCK;
            k % BLOCK == 0 && Blocks(held, data) == taken[..k] && Rest(held, data) == taken[k..]
  {
  }

  lemma AbsorbsBehind(pre: seq<byte>, held: seq<byte>, data: seq<byte>)
    requires |pre| % BLOCK == 0 && Completes(held, data)
    ensures Absorbed(pre + held, data) == pre + held + data
  {
    DivWord(|pre + held|, BLOCK, |held|, |pre| / BLOCK);
  }

  lemma Completed(pre: seq<byte>, held: seq<byte>, data: seq<byte>)
    requires |pre| % BLOCK == 0 && Completes(held, data)
    ensures |Rest(held, data)| < BLOCK && |Blocks(held, data)| % BLOCK == 0
    ensures Absorbed(pre + held, data) == pre + Blocks(held, data) + Rest(held, data)
  {
    hide Rest, Blocks, Absorbed, Completes;
    var taken := held + data;
    CompletedParts(held, data);
    AbsorbsBehind(pre, held, data);
    assert pre + held + data == pre + taken;
    SplitAt(pre, taken, |taken| - |taken| % BLOCK);
  }

  lemma Overtaken(pre: seq<byte>, held: seq<byte>, data: seq<byte>)
    requires |pre| % BLOCK == 0 && held != [] && |held| < BLOCK && !Completes(held, data)
    ensures |Rest(held, data)| < BLOCK && |Blocks(held, data)| % BLOCK == 0
    ensures Absorbed(pre + held, data) == pre + Blocks(held, data) + Rest(held, data)
  {
    var stream, j := pre + held, |data| - |data| % BLOCK;
    DivWord(|stream|, BLOCK, |held|, |pre| / BLOCK);
    assert stream[..|pre|] == pre && stream[|pre|..] == held;
    if |data| % BLOCK == 0 {
      assert data[..j] == data && pre + data + [] == pre + data;
    } else {
      assert pre + data[..j] + held + data[j..] == pre + data[..j] + (held + data[j..]);
    }
  }

  lemma SplitAt(pre: seq<byte>, s: seq<byte>, k: nat)
    requires k <= |s|
    ensures pre + s == pre + s[..k] + s[k..]
  {
  }

  /** The last one or two blocks of the padded message and the counters they are compressed with. */
  lemma FinalBlocks(f: Compress, h0: Chain32, stream: seq<byte>, held: seq<byte>, s: Chaining, tail: byte)
    requires Streaming(f, h0, stream, held, s) && 8 * |stream| < TWO_64 && tail <= 1
    ensures var n, r := |stream|, |held|;
            var length := BigEndian(8 * n, 8);
            && Counts(s.t0, s.t1, n - r)
            && Hash(f, h0, stream, tail) ==
               if r <= 55 then f(s.h, held + Marks(r, tail) + length, if r == 0 then 0 else 8 * n)
               else f(f(s.h, held + [0x80] + Zeros(63 - r), 8 * n), Zeros(55) + [tail] + length, 0)
  {
    hide Counted, Run, Counts, BigEndian, Bits64, Streaming;
    StreamingParts(f, h0, stream, held, s);
    var n, r := |stream|, |held|;
    var pre, length := stream[..n - r], BigEndian(8 * n, 8);
    RunIsCounted(f, h0, pre, n);
    BitsFit(n);
    if r <= 55 {
      var block := held + Marks(r, tail) + length;
      assert Padded(stream, tail) == pre + block;
      CountedNext(f, h0, pre, block, n);
    } else {
      var block1, block2 := held + [0x80] + Zeros(63 - r), Zeros(55) + [tail] + length;
      ZerosSplit(63 - r, 55);
      assert Padded(stream, tail) == pre + block1 + block2;
      CountedNext(f, h0, pre, block1, n);
      CountedNext(f, h0, pre + block1, block2, n);
    }
  }

  lemma ZerosSplit(n: nat, m: nat)
    ensures Zeros(n + m) == Zeros(n) + Zeros(m)
  {
  }

  lemma BitsFit(n: nat)
    requires 8 * n < TWO_64
    ensures Bits64(n) == 8 * n
  {
  }

  /** The low counter word wound back by some bits. */
  function Rewound(t0: uint32, bits: nat): uint32 {
    (t0 - bits) % TWO_32
  }

  lemma RewindTwice(t0: uint32, a: nat, b: nat)
    ensures Rewound(Rewound(t0, a), b) == Rewound(t0, a + b)
  {
  }

  /**
   Winding the counter back by the padding of a block makes the next count of 512 land on the message bits.
   Only an empty remainder could carry into the high word, and then the block leaves the counter out.
   */
  lemma RewoundTick(f: Compress, h: Chain32, t0: uint32, t1: uint32, k: nat, r: nat, nulled: bool, block: seq<byte>)
    requires Counts(t0, t1, k) && r < BLOCK && 8 * (k + r) < TWO_64 && (nulled || r > 0)
    ensures Tick(f, Chaining(h, Rewound(t0, 512 - 8 * r), t1), nulled, block).h ==
            f(h, block, if nulled then 0 else 8 * (k + r))
    ensures !nulled ==> Tick(f, Chaining(h, Rewound(t0, 512 - 8 * r), t1), nulled, block).t1 == t1
    ensures !nulled ==> Tick(f, Chaining(h, Rewound(t0, 512 - 8 * r), t1), nulled, block).t0 == t0 + 8 * r
  {
    BitsFit(k);
    AddMod(t0 - (512 - 8 * r), 512, TWO_32);
    LowWordRoom(t0);
    DivWord(t0 + 8 * r, TWO_32, t0 + 8 * r, 0);
  }

  lemma LowWordRoom(t0: uint32)
    requires t0 % 512 == 0
    ensures t0 <= TWO_32 - 512
  {
  }

  /** The high word of a sum whose low word is lo, after adding at most 32 bits. */
  function WithCarry(hi: uint32, lo: uint32, added: nat): uint32 {
    if lo < added then (hi + 1) % TWO_32 else hi
  }

  /** The two halves of the length field; the carry it is prepared for cannot occur. */
  lemma LengthWords(t0: uint32, t1: uint32, k: nat, r: nat)
    requires Counts(t0, t1, k) && r < BLOCK && 8 * (k + r) < TWO_64
    ensures (t0 + 8 * r) % TWO_32 == t0 + 8 * r && WithCarry(t1, t0 + 8 * r, 8 * r) == t1
    ensures BigEndian(t1, 4) + BigEndian(t0 + 8 * r, 4) == BigEndian(8 * (k + r), 8)
  {
    hide BigEndian;
    BitsFit(k);
    LowWordRoom(t0);
    DivWord(t0 + 8 * r, TWO_32, t0 + 8 * r, 0);
    assert Power256(4) == TWO_32;
    BigEndianHalves(t1, t0 + 8 * r, 4, 4);
  }

  const PADDING: seq<byte> := [0x80] + Zeros(63)

  class Blake256 {
    const compress: Compress
    const h0: Chain32
    var h: Chain32
    var t0: uint32
    var t1: uint32
    var bufLen: nat       // in bits
    var nullt: bool
    const buf: array<byte>
    ghost var absorbed: seq<byte>

    ghost function State(): Chaining
      reads `h, `t0, `t1
    {
      Chaining(h, t0, t1)
    }

    ghost predicate Shape()
      reads this
    {
      buf.Length == BLOCK && bufLen % 8 == 0 && bufLen < 8 * BLOCK
    }

    ghost function Held(): seq<byte>
      requires Shape()
      reads this, buf
    {
      buf[..bufLen / 8]
    }

    ghost predicate Valid()
      reads this, buf
    {
      Shape() && !nullt && Streaming(compress, h0, absorbed, Held(), State())
    }

    constructor (compress: Compress, h0: Chain32)
      ensures Valid() && absorbed == [] && fresh(buf) && this.compress == compress && this.h0 == h0
    {
      this.compress, this.h0 := compress, h0;
      h := h0;
      t0, t1, bufLen, nullt := 0, 0, 0, false;
      buf := new byte[BLOCK];
      absorbed := [];
    }

    method CompressBlock(block: seq<byte>)
      requires |block| == BLOCK
      modifies this`h, this`t0, this`t1
      ensures State() == Tick(compress, old(State()), nullt, block)
    {
      t0 := (t0 + 512) % TWO_32;
      if t0 == 0 {
        t1 := (t1 + 1) % TWO_32;
      }
      h := compress(h, block, if nullt then 0 else t1 * TWO_32 + t0);
    }

    /** Completes a started block when the length modulo 64 says that the data is long enough. */
    method FlushBuffer(data: seq<byte>) returns (at: nat, left: nat)
      requires Shape()
      modifies this`h, this`t0, this`t1, buf
      ensures Shape() && at <= |data| && left <= bufLen / 8 && buf[..left] == old(buf[..left])
      ensures if bufLen > 0 && |data| % BLOCK >= BLOCK - bufLen / 8 then
                && left == 0 && at == BLOCK - bufLen / 8
                && State() == Tick(compress, old(State()), nullt, old(Held()) + data[..at])
              else at == 0 && left == bufLen / 8 && State() == old(State())
    {
      left := bufLen / 8;
      at := 0;
      var fill := BLOCK - left;
      if left != 0 && |data| % BLOCK >= fill {
        ghost var held := buf[..left];
        Memcpy(buf, left, data[..fill]);
        assert buf[..] == held + data[..fill];
        CompressBlock(buf[..]);
        at, left := fill, 0;
      }
    }

    /** The blocks of the data, from at on. */
    method CompressMost(data: seq<byte>, at: nat, ghost from: Chaining, ghost pre: seq<byte>) returns (end: nat)
      requires at <= |data| && |pre| % BLOCK == 0 && State() == Run(compress, from, nullt, pre)
      modifies this`h, this`t0, this`t1
      ensures end == |data| - (|data| - at) % BLOCK && at <= end
      ensures State() == Run(compress, from, nullt, pre + data[at..end])
    {
      hide Run, Tick, State;
      end := at;
      ghost var k := 0;
      assert pre + data[at..at] == pre;
      while |data| - end >= BLOCK
        invariant end <= |data| && end - at == BLOCK * k
        invariant State() == Run(compress, from, nullt, pre + data[at..end])
      {
        ghost var before, block := pre + data[at..end], data[end..end + BLOCK];
        DivWord(end - at, BLOCK, 0, k);
        WholeBlocks(|pre|, end - at);
        RunNext(compress, from, nullt, before, block);
        assert before + block == pre + data[at..end + BLOCK];
        CompressBlock(data[end..end + BLOCK]);
        end, k := end + BLOCK, k + 1;
      }
      DivWord(|data| - at, BLOCK, |data| - end, k);
    }

    /** Absorbs data into the raw state: this also serves the padding, which first winds the counter back. */
    method RawUpdate(data: seq<byte>)
      requires Shape()
      modifies this`h, this`t0, this`t1, this`bufLen, buf
      ensures Shape()
      ensures State() == Run(compress, old(State()), nullt, Blocks(old(Held()), data))
      ensures Held() == Rest(old(Held()), data)
    {
      hide Run, Tick, State, Blocks, Rest;
      ghost var from, held := State(), Held();
      var at, left := FlushBuffer(data);
      ghost var pre: seq<byte> := if at > 0 then held + data[..at] else [];
      FirstBlock(compress, from, nullt, pre);
      var end := CompressMost(data, at, from, pre);
      TakenBlocks(held, data, at, end);
      KeepRest(data[end..], left);
    }

    /** Buffers what is left of the data, or marks the buffer empty. */
    method KeepRest(rest: seq<byte>, left: nat)
      requires Shape() && left + |rest| < BLOCK
      modifies this`bufLen, buf
      ensures Shape() && Held() == if rest == [] then [] else old(buf[..left]) + rest
    {
      if |rest| > 0 {
        Memcpy(buf, left, rest);
        bufLen := left * 8 + |rest| * 8;
        assert bufLen / 8 == left + |rest| && bufLen % 8 == 0;
      } else {
        bufLen := 0;
      }
    }

    /** blake256_update. */
    method Update(data: seq<byte>)
      requires Valid()
      modifies this`h, this`t0, this`t1, this`bufLen, this`absorbed, buf
      ensures Valid() && absorbed == Absorbed(old(absorbed), data)
      ensures Honoured(|old(absorbed)| % BLOCK, |data|) ==> absorbed == old(absorbed) + data
    {
      hide Run, Streaming, Blocks, Rest, Absorbed, Honoured;
      UpdateAbsorbs(compress, h0, absorbed, Held(), State(), data);
      HonouredIsExact(|absorbed| % BLOCK, |data|);
      RawUpdate(data);
      absorbed := Absorbed(absorbed, data);
    }

    /** An update that does not fill the buffer. */
    method Append(data: seq<byte>)
      requires Shape() && data != [] && |Held()| + |data| < BLOCK
      modifies this`h, this`t0, this`t1, this`bufLen, buf
      ensures Shape() && State() == old(State()) && Held() == old(Held()) + data
    {
      hide Run, State, Blocks, Rest;
      FirstBlock(compress, State(), nullt, []);
      ShortData(Held(), data);
      RawUpdate(data);
    }

    /** An update that fills the buffer. */
    method Complete(data: seq<byte>)
      requires Shape() && Held() != [] && data != [] && |Held()| + |data| == BLOCK
      modifies this`h, this`t0, this`t1, this`bufLen, buf
      ensures Shape() && State() == Tick(compress, old(State()), nullt, old(Held()) + data) && Held() == []
    {
      hide Run, State, Tick, Blocks, Rest;
      FirstBlock(compress, State(), nullt, Held() + data);
      FullBlock(Held(), data);
      RawUpdate(data);
    }

    method Rewind(bits: nat)
      modifies this`t0
      ensures t0 == Rewound(old(t0), bits)
    {
      t0 := (t0 - bits) % TWO_32;
    }

    /** The padding when the length still fits into this block: 55 bytes, or one byte with both marks. */
    method PadShort(pa: byte, pb: byte)
      requires Shape() && bufLen <= 440 && pb <= 1 && pa == 0x80 + pb
      modifies this`h, this`t0, this`t1, this`bufLen, this`nullt, buf
      ensures Shape() && Held() == old(Held()) + Marks(|old(Held())|, pb)
      ensures State() == Chaining(old(h), Rewound(old(t0), 448 - old(bufLen)), old(t1))
      ensures nullt == (old(nullt) || old(bufLen) == 0)
    {
      hide Rewound, Marks;
      ghost var held, r := Held(), |Held()|;
      assert bufLen == 8 * r;
      if bufLen == 440 {
        MarksFull(pb);
        Rewind(8);
        Append([pa]);
      } else {
        if bufLen == 0 {
          nullt := true;
        }
        RewindTwice(t0, 440 - bufLen, 8);
        MarksShort(held, pb);
        assert (440 - bufLen) / 8 == 55 - r;
        Rewind(440 - bufLen);
        Append(PADDING[..(440 - bufLen) / 8]);
        Append([pb]);
        Rewind(8);
      }
    }

    /** The padding when the length goes into a block of its own, which holds no bit of the message. */
    method PadLong(pb: byte)
      requires Shape() && bufLen > 440 && !nullt && pb <= 1
      modifies this`h, this`t0, this`t1, this`bufLen, this`nullt, buf
      ensures Shape() && nullt && Held() == Zeros(55) + [pb]
      ensures var r := |old(Held())|;
              var s := Chaining(old(h), Rewound(old(t0), 512 - 8 * r), old(t1));
              h == Tick(compress, s, false, old(Held()) + [0x80] + Zeros(63 - r)).h
    {
      hide Tick, Rewound;
      ghost var held, r := Held(), |Held()|;
      Rewind(512 - bufLen);
      assert held + PADDING[..64 - r] == held + [0x80] + Zeros(63 - r);
      Complete(PADDING[..(512 - bufLen) / 8]);
      Rewind(440);
      assert PADDING[1..56] == Zeros(55);
      Append(PADDING[1..56]);
      assert Held() == Zeros(55);
      nullt := true;
      Append([pb]);
      Rewind(8);
    }

    /** blake256_final_h: pads, and winds the counter back by what is not message. */
    method Final(pa: byte, pb: byte) returns (digest: seq<byte>)
      requires Valid() && |absorbed| < 0x2000_0000_0000_0000 && pb <= 1 && pa == 0x80 + pb
      modifies this`h, this`t0, this`t1, this`bufLen, this`nullt, buf
      ensures h == Hash(compress, h0, absorbed, pb)
      ensures digest == BigWords32(h, 8)
      ensures forall k :: 0 <= k < 32 ==> digest[k] == h[k / 4] / Power256(3 - k % 4) % 0x100
    {
      hide Hash, Streaming, Tick, Counts, BigEndian, Marks, Rewound, WithCarry, Zeros, BigWords32, Power256;
      ghost var n, r, held, start := |absorbed|, |Held()|, Held(), State();
      FinalBlocks(compress, h0, absorbed, held, start, pb);
      LengthWords(t0, t1, n - r, r);
      var lo := (t0 + bufLen) % TWO_32;
      var hi := WithCarry(t1, lo, bufLen);
      var msgLen := BigEndian(hi, 4) + BigEndian(lo, 4);
      if bufLen <= 440 {
        PadShort(pa, pb);
        RewindTwice(start.t0, 448 - 8 * r, 64);
        RewoundTick(compress, start.h, start.t0, start.t1, n - r, r, nullt, Held() + msgLen);
      } else {
        RewoundTick(compress, start.h, start.t0, start.t1, n - r, r, false, held + [0x80] + Zeros(63 - r));
        PadLong(pb);
        NulledTick(compress, Chaining(h, Rewound(t0, 64), t1), Held() + msgLen);
      }
      Rewind(64);
      Complete(msgLen);
      digest := BigWords32(h, 8);
      BigBytes32(h);
    }
  }

  lemma NulledTick(f: Compress, s: Chaining, block: seq<byte>)
    ensures Tick(f, s, true, block).h == f(s.h, block, 0)
  {
  }

  /** The length modulo 64 says that the data completes the buffered block. */
  predicate Completes(held: seq<byte>, data: seq<byte>) {
    held != [] && |held| < BLOCK && |data| % BLOCK >= BLOCK - |held|
  }

  /** The blocks an update compresses: they start with the buffered bytes when those are completed. */
  function Blocks(held: seq<byte>, data: seq<byte>): seq<byte> {
    var taken := if Completes(held, data) then held + data else data;
    taken[..|taken| - |taken| % BLOCK]
  }

  /** What an update leaves in the buffer. */
  function Rest(held: seq<byte>, data: seq<byte>): seq<byte> {
    if Completes(held, data) then (held + data)[|held + data| - |held + data| % BLOCK..]
    else if |data| % BLOCK == 0 then []
    else held + data[|data| - |data| % BLOCK..]
  }

  lemma WholeBlocks(n: nat, m: nat)
    requires n % BLOCK == 0 && m % BLOCK == 0
    ensures (n + m) % BLOCK == 0
  {
    DivWord(n + m, BLOCK, 0, n / BLOCK + m / BLOCK);
  }

  lemma FirstBlock(f: Compress, from: Chaining, nulled: bool, pre: seq<byte>)
    ensures pre == [] ==> Run(f, from, nulled, pre) == from
    ensures |pre| == BLOCK ==> Run(f, from, nulled, pre) == Tick(f, from, nulled, pre)
  {
  }

  lemma ShortData(held: seq<byte>, data: seq<byte>)
    requires data != [] && |held| + |data| < BLOCK
    ensures Blocks(held, data) == [] && Rest(held, data) == held + data
  {
    DivWord(|data|, BLOCK, |data|, 0);
  }

  lemma FullBlock(held: seq<byte>, data: seq<byte>)
    requires held != [] && data != [] && |held| + |data| == BLOCK
    ensures Blocks(held, data) == held + data && Rest(held, data) == []
  {
    DivWord(|data|, BLOCK, |data|, 0);
  }

  /** A short last block, written in two goes, holds the marks. */
  lemma MarksShort(held: seq<byte>, tail: byte)
    requires |held| < 55 && tail <= 1
    ensures held + PADDING[..55 - |held|] + [tail] == held + Marks(|held|, tail)
  {
  }

  lemma MarksFull(tail: byte)
    requires tail <= 1
    ensures Marks(55, tail) == [0x80 + tail]
  {
  }

  lemma TakenBlocks(held: seq<byte>, data: seq<byte>, at: nat, end: nat)
    requires |held| < BLOCK && at <= |data| && at <= end && end == |data| - (|data| - at) % BLOCK
    requires if Completes(held, data) then at == BLOCK - |held| else at == 0
    ensures Blocks(held, data) == (if at > 0 then held + data[..at] else []) + data[at..end]
    ensures Rest(held, data) == if data[end..] == [] then [] else (if at > 0 then [] else held) + data[end..]
  {
    if at > 0 {
      CompletedBlocks(held, data, at, end);
    } else {
      assert data[..end] == [] + data[0..end];
    }
  }

  lemma CompletedBlocks(held: seq<byte>, data: seq<byte>, at: nat, end: nat)
    requires Completes(held, data) && at == BLOCK - |held| && at <= end <= |data|
    requires |data| - end == (|data| - at) % BLOCK
    ensures Blocks(held, data) == held + data[..at] + data[at..end] && Rest(held, data) == data[end..]
  {
    hide Completes;
    DivWord(|held + data|, BLOCK, |data| - end, (|data| - at) / BLOCK + 1);
    assert (held + data)[..|held| + end] == held + data[..at] + data[at..end];
    assert (held + data)[|held| + end..] == data[end..];
  }

  /** Absorbs the pieces one update at a time. */
  method AbsorbPieces(context: Blake256, pieces: seq<seq<byte>>)
    requires context.Valid()
    modifies context`h, context`t0, context`t1, context`bufLen, context`absorbed, context.buf
    ensures context.Valid() && context.absorbed == AbsorbAll(old(context.absorbed), pieces)
  {
    hide Blake256.Valid, Honoured, Absorbed;
    var i := 0;
    while i < |pieces|
      invariant 0 <= i <= |pieces| && context.Valid()
      invariant context.absorbed == AbsorbAll(old(context.absorbed), pieces[..i])
    {
      context.Update(pieces[i]);
      assert pieces[..i + 1][..i] == pieces[..i];
      i := i + 1;
    }
    assert pieces[..i] == pieces;
  }

  lemma {:induction false} AbsorbsNoMore(m: seq<byte>, pieces: seq<seq<byte>>)
    ensures |AbsorbAll(m, pieces)| <= |m| + |Concat(pieces)|
    decreases |pieces|
  {
    hide Absorbed;
    if pieces != [] {
      AbsorbsNoMore(m, pieces[..|pieces| - 1]);
      AbsorbedLength(AbsorbAll(m, pieces[..|pieces| - 1]), pieces[|pieces| - 1]);
    }
  }

  lemma AbsorbedLength(m: seq<byte>, d: seq<byte>)
    ensures |Absorbed(m, d)| <= |m| + |d|
  {
  }

  const IV_256: Chain32 := [
    0x6A09E667, 0xBB67AE85, 0x3C6EF372, 0xA54FF53A, 0x510E527F, 0x9B05688C, 0x1F83D9AB, 0x5BE0CD19]

  /** The digest of BLAKE-256. */
  function Digest(f: Compress, message: seq<byte>): (d: seq<byte>)
    ensures |d| == 32
  {
    BigWords32(Hash(f, IV_256, message, 1), 8)
  }

  /**
   init, updates, final: the digest of what the updates absorb, which is the message cut into these pieces
   when they are orderly, and so when each is not empty and under 64 bytes or starts on an empty buffer.
   */
  method HashPieces(f: Compress, pieces: seq<seq<byte>>) returns (digest: seq<byte>)
    requires |Concat(pieces)| < 0x2000_0000_0000_0000
    ensures digest == Digest(f, AbsorbAll([], pieces))
    ensures Orderly(0, Lengths(pieces)) ==> digest == Digest(f, Concat(pieces))
    ensures Careful(0, Lengths(pieces)) ==> digest == Digest(f, Concat(pieces))
  {
    hide Blake256.Valid, Orderly, Careful, Hash, Concat, AbsorbAll;
    var context := new Blake256(f, IV_256);
    AbsorbPieces(context, pieces);
    AbsorbsNoMore([], pieces);
    digest := context.Final(0x81, 0x01);
    if Careful(0, Lengths(pieces)) {
      CarefulIsOrderly(0, Lengths(pieces));
    }
    if Orderly(0, Lengths(pieces)) {
      OrderlyAbsorbs([], pieces);
      assert [] + Concat(pieces) == Concat(pieces);
    }
  }

  /** blake256_hash: a single update on an empty buffer is always orderly. */
  method HashWhole(f: Compress, data: seq<byte>) returns (digest: seq<byte>)
    requires |data| < 0x2000_0000_0000_0000
    ensures digest == Digest(f, data)
  {
    hide Blake256.Valid, Hash;
    var context := new Blake256(f, IV_256);
    context.Update(data);
    assert [] + data == data;
    digest := context.Final(0x81, 0x01);
  }

  function XorByte(a: byte, b: byte): byte {
    assert Pow2(8) == 0x100;
    XorBits(a, b, 8)
  }

  /** Bit by bit, set exactly when the two bits differ. */
  lemma XorByteBits(a: byte, b: byte, i: nat)
    requires i < 8
    ensures BitsOf(XorByte(a, b), 8)[i] == (BitsOf(a, 8)[i] != BitsOf(b, 8)[i])
  {
    XorIsBitwise(a, b, 8);
  }

  lemma XorByteTwice(a: byte, b: byte)
    ensures XorByte(XorByte(a, b), b) == a
  {
    assert Pow2(8) == 0x100;
    XorTwice(a, b, 8);
  }

  lemma XorOrder(a: byte, b: byte)
    ensures XorByte(a, b) == XorByte(b, a)
  {
    assert Pow2(8) == 0x100;
    XorIsBitwise(a, b, 8);
    XorIsBitwise(b, a, 8);
    assert Xor(BitsOf(a, 8), BitsOf(b, 8)) == Xor(BitsOf(b, 8), BitsOf(a, 8));
    BitsInjective(XorByte(a, b), XorByte(b, a), 8);
  }

  lemma XorZero(a: byte)
    ensures XorByte(a, 0) == a
  {
    assert Pow2(8) == 0x100;
    XorZeroBits(a, 8);
  }

  function PaddedByte(key: seq<byte>, pad: byte, i: nat): byte {
    XorByte(pad, if i < |key| then key[i] else 0)
  }

  /** A key of at most a block, extended with zeros and combined with a constant byte. */
  function PaddedKey(key: seq<byte>, pad: byte): (k: seq<byte>)
    requires |key| <= BLOCK
    ensures |k| == BLOCK
  {
    seq(BLOCK, i requires 0 <= i < BLOCK => PaddedByte(key, pad, i))
  }

  /** Section 2 of RFC 2104: keys longer than a block are hashed first. */
  function HmacKey(f: Compress, key: seq<byte>): (k: seq<byte>)
    ensures |k| <= BLOCK
  {
    if |key| > BLOCK then Digest(f, key) else key
  }

  /** H(K xor opad, H(K xor ipad, text)) */
  function Hmac(f: Compress, key: seq<byte>, text: seq<byte>): seq<byte> {
    OuterHash(f, key, PaddedKey(HmacKey(f, key), 0x36) + text)
  }

  function OuterHash(f: Compress, key: seq<byte>, innerMessage: seq<byte>): seq<byte> {
    Digest(f, PaddedKey(HmacKey(f, key), 0x5c) + Digest(f, innerMessage))
  }

  /** Every byte combined with the constant. */
  function XorEach(s: seq<byte>, c: byte): (r: seq<byte>)
    ensures |r| == |s|
  {
    seq(|s|, i requires 0 <= i < |s| => XorByte(s[i], c))
  }

  /** Section 2 of RFC 2104 step by step, for a hash with blocks of 64 bytes. */
  function Rfc2104(f: Compress, key: seq<byte>, text: seq<byte>): seq<byte> {
    var k := if |key| > 64 then Digest(f, key) else key;
    var block := k + Zeros(64 - |k|);
    Digest(f, XorEach(block, 0x5c) + Digest(f, XorEach(block, 0x36) + text))
  }

  lemma HmacIsRfc2104(f: Compress, key: seq<byte>, text: seq<byte>)
    ensures Hmac(f, key, text) == Rfc2104(f, key, text)
  {
    hide XorByte, Digest;
    var k := HmacKey(f, key);
    PadIsXor(k, 0x5c);
    PadIsXor(k, 0x36);
  }

  lemma PadIsXor(k: seq<byte>, c: byte)
    requires |k| <= 64
    ensures PaddedKey(k, c) == XorEach(k + Zeros(64 - |k|), c)
  {
    hide XorByte;
    var block := k + Zeros(64 - |k|);
    forall j | 0 <= j < 64
      ensures PaddedKey(k, c)[j] == XorEach(block, c)[j]
    {
      XorOrder(c, block[j]);
    }
  }

  /** Fills a block with the constant and combines the key into its front. */
  method MakePad(key: seq<byte>, value: byte) returns (pad: seq<byte>)
    requires |key| <= BLOCK
    ensures pad == PaddedKey(key, value)
    ensures |pad| == 64 && forall j :: 0 <= j < 64 ==> XorByte(pad[j], value) == if j < |key| then key[j] else 0
  {
    hide XorByte;
    var block := new byte[BLOCK](_ => value);
    var i := 0;
    while i < |key|
      invariant 0 <= i <= |key|
      invariant forall j :: 0 <= j < BLOCK ==> block[j] == if j < i then XorByte(value, key[j]) else value
    {
      block[i] := XorByte(block[i], key[i]);
      i := i + 1;
    }
    XorZero(value);
    pad := block[..];
    PadGivesKeyBack(key, value);
  }

  /** Combining the pad with the constant again gives the zero-extended key back. */
  lemma PadGivesKeyBack(key: seq<byte>, value: byte)
    requires |key| <= BLOCK
    ensures forall j :: 0 <= j < BLOCK ==> XorByte(PaddedKey(key, value)[j], value) == if j < |key| then key[j] else 0
  {
    hide XorByte;
    forall j | 0 <= j < BLOCK
      ensures XorByte(PaddedKey(key, value)[j], value) == if j < |key| then key[j] else 0
    {
      var k: byte := if j < |key| then key[j] else 0;
      XorOrder(value, k);
      XorByteTwice(k, value);
    }
  }

  method ShortKey(f: Compress, key: seq<byte>) returns (k: seq<byte>)
    requires |key| < 0x2000_0000_0000_0000
    ensures k == HmacKey(f, key)
  {
    k := key;
    if |key| > BLOCK {
      k := HashWhole(f, key);
    }
  }

  /** A hash that has absorbed one block made of the key and a constant. */
  method Keyed(f: Compress, key: seq<byte>, value: byte) returns (context: Blake256)
    requires |key| <= BLOCK
    ensures context.Valid() && context.absorbed == PaddedKey(key, value)
    ensures context.compress == f && context.h0 == IV_256 && fresh(context) && fresh(context.buf)
  {
    hide Blake256.Valid, PaddedKey, Absorbed;
    var pad := MakePad(key, value);
    context := new Blake256(f, IV_256);
    context.Update(pad);
    assert [] + pad == pad;
  }

  /** hmac_state */
  class HmacBlake256 {
    const inner: Blake256
    const outer: Blake256
    ghost const key: seq<byte>

    ghost predicate Valid()
      reads this, inner, outer, inner.buf, outer.buf
    {
      && inner != outer && inner.buf != outer.buf && inner.Valid() && outer.Valid()
      && inner.compress == outer.compress && inner.h0 == outer.h0 == IV_256
      && outer.absorbed == PaddedKey(HmacKey(outer.compress, key), 0x5c)
    }

    /** The key's front part of the inner message. */
    ghost function InnerKey(): seq<byte> {
      PaddedKey(HmacKey(inner.compress, key), 0x36)
    }

    /** hmac_blake256_init */
    constructor (f: Compress, key: seq<byte>)
      requires |key| < 0x2000_0000_0000_0000
      ensures Valid() && this.key == key && inner.compress == f && inner.absorbed == InnerKey()
      ensures fresh(inner) && fresh(outer) && fresh(inner.buf) && fresh(outer.buf)
    {
      hide Blake256.Valid, PaddedKey, HmacKey;
      var k := ShortKey(f, key);
      var innerHash := Keyed(f, k, 0x36);
      var outerHash := Keyed(f, k, 0x5c);
      inner, outer := innerHash, outerHash;
      this.key := key;
    }

    /** hmac_blake256_update */
    method Update(data: seq<byte>)
      requires Valid()
      modifies inner`h, inner`t0, inner`t1, inner`bufLen, inner`absorbed, inner.buf
      ensures Valid() && inner.absorbed == Absorbed(old(inner.absorbed), data)
    {
      hide Blake256.Valid, PaddedKey, Digest;
      inner.Update(data);
    }

    /** hmac_blake256_final: meets RFC 2104 when the inner hash has absorbed its key block and then the text. */
    method Final() returns (digest: seq<byte>)
      requires Valid() && |inner.absorbed| < 0x2000_0000_0000_0000
      modifies inner, outer, inner.buf, outer.buf
      ensures digest == OuterHash(outer.compress, key, old(inner.absorbed))
      ensures forall text :: old(inner.absorbed) == InnerKey() + text ==> digest == Hmac(outer.compress, key, text)
    {
      hide Blake256.Valid, PaddedKey, Hash;
      var ihash := inner.Final(0x81, 0x01);
      outer.Update(ihash);
      digest := outer.Final(0x81, 0x01);
    }
  }

  /** hmac_blake256_hash, and the same over pieces: RFC 2104 when they are orderly behind the key block. */
  method HmacPieces(f: Compress, key: seq<byte>, pieces: seq<seq<byte>>) returns (digest: seq<byte>)
    requires |key| < 0x2000_0000_0000_0000 && |Concat(pieces)| + 64 < 0x2000_0000_0000_0000
    ensures digest == OuterHash(f, key, AbsorbAll(PaddedKey(HmacKey(f, key), 0x36), pieces))
    ensures Orderly(BLOCK, Lengths(pieces)) ==> digest == Rfc2104(f, key, Concat(pieces))
    ensures Careful(BLOCK, Lengths(pieces)) ==> digest == Rfc2104(f, key, Concat(pieces))
  {
    HmacIsRfc2104(f, key, Concat(pieces));
    hide Blake256.Valid, PaddedKey, OuterHash, Rfc2104, Concat, Orderly, Careful, HmacKey, AbsorbAll;
    var state := new HmacBlake256(f, key);
    AbsorbPieces(state.inner, pieces);
    AbsorbsNoMore(state.InnerKey(), pieces);
    if Careful(BLOCK, Lengths(pieces)) {
      CarefulIsOrderly(BLOCK, Lengths(pieces));
    }
    if Orderly(BLOCK, Lengths(pieces)) {
      OrderlyAbsorbs(state.InnerKey(), pieces);
    }
    digest := state.Final();
  }
}
