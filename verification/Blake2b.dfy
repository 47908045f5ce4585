/**
 BLAKE2b streaming (blake2b.cpp) with the compression function left open: buffering with a lazy last
 block, the 128-bit counter and the final padding.
 */
module Blake2b {
  import opened Arithmetic
  import opened Bytes
  import opened HashWords

  const BLOCK := 128
  const TWO_64 := 0x1_0000_0000_0000_0000
  const TWO_128 := 0x1_0000_0000_0000_0000_0000_0000_0000_0000

  /** Chaining value, block, byte counter, last-block flag. */
  type Compress = (Chain64, seq<byte>, nat, bool) -> Chain64

  /** n as a 128-bit counter holds it. */
  function Wrap128(n: nat): nat {
    n % TWO_128
  }

  lemma AddWrap128(n: nat, m: nat)
    ensures Wrap128(Wrap128(n) + m) == Wrap128(n + m)
  {
    AddMod(n, m, TWO_128);
  }

  lemma NoWrap128(n: nat)
    requires n < TWO_128
    ensures Wrap128(n) == n
  {
  }

  /** The chaining value after whole blocks, none of them the last of the message. */
  function Chained(f: Compress, h0: Chain64, data: seq<byte>): Chain64 {
    if |data| < BLOCK then h0
    else f(Chained(f, h0, data[..|data| - BLOCK]), data[|data| - BLOCK..], Wrap128(|data|), false)
  }

  /** Bytes of an n-byte message that can be compressed before its end is known: all blocks but the last. */
  function Settled(n: nat): (k: nat)
    ensures k <= n && k % BLOCK == 0 && n - k <= BLOCK && (n > 0 ==> n - k >= 1)
  {
    if n == 0 then 0 else n - 1 - (n - 1) % BLOCK
  }

  /** One compression per block, and the last one with its zero padding, the true length and the flag. */
  function Hash(f: Compress, h0: Chain64, message: seq<byte>): Chain64 {
    var k := Settled(|message|);
    f(Chained(f, h0, message[..k]), message[k..] + Zeros(BLOCK - (|message| - k)), Wrap128(|message|), true)
  }

  /** Section 3.3 of RFC 7693: the padded data blocks, with the padded key in front if there is one. */
  function DataBlocks(key: seq<byte>, message: seq<byte>): (d: seq<byte>)
    requires |key| <= 64
  {
    var k := if key == [] then [] else key + Zeros(BLOCK - |key|);
    var n := if key == [] && message == [] then BLOCK else (BLOCK - |message| % BLOCK) % BLOCK;
    k + message + Zeros(n)
  }

  /** The loop of section 3.3 after counter bytes: blocks with a counter, then the last one with length and flag. */
  function RfcLoop(f: Compress, h: Chain64, d: seq<byte>, counter: nat, length: nat): Chain64
    requires |d| >= BLOCK
    decreases |d|
  {
    if |d| < 2 * BLOCK then f(h, d[..BLOCK], length, true)
    else RfcLoop(f, f(h, d[..BLOCK], counter + BLOCK, false), d[BLOCK..], counter + BLOCK, length)
  }

  /** Section 3.3 of RFC 7693, from an initial chaining value that already holds the parameters. */
  function Rfc7693(f: Compress, h0: Chain64, key: seq<byte>, message: seq<byte>): Chain64
    requires |key| <= 64
  {
    RfcLoop(f, h0, DataBlocks(key, message), 0, |message| + if key == [] then 0 else BLOCK)
  }

  lemma LoopStep(f: Compress, h: Chain64, d: seq<byte>, counter: nat, length: nat)
    requires |d| >= BLOCK
    ensures |d| < 2 * BLOCK ==> RfcLoop(f, h, d, counter, length) == f(h, d[..BLOCK], length, true)
    ensures |d| >= 2 * BLOCK ==>
              RfcLoop(f, h, d, counter, length) ==
              RfcLoop(f, f(h, d[..BLOCK], counter + BLOCK, false), d[BLOCK..], counter + BLOCK, length)
  {
  }

  /** The forward loop of the standard reaches the chaining value that the stream has before its last block. */
  lemma {:induction false} LoopIsChained(f: Compress, h0: Chain64, pre: seq<byte>, d: seq<byte>, length: nat)
    requires |pre| % BLOCK == 0 && |d| % BLOCK == 0 && |d| >= BLOCK && |pre| + |d| <= TWO_128
    ensures var all := pre + d;
            RfcLoop(f, Chained(f, h0, pre), d, |pre|, length) ==
            f(Chained(f, h0, all[..|all| - BLOCK]), all[|all| - BLOCK..], length, true)
    decreases |d|
  {
    hide Chained, RfcLoop, Wrap128;
    var all := pre + d;
    LoopStep(f, Chained(f, h0, pre), d, |pre|, length);
    MoreBlocks(|d|);
    WholeBlocks(|pre|);
    if |d| == BLOCK {
      assert all[..|all| - BLOCK] == pre && all[|all| - BLOCK..] == d[..BLOCK];
    } else {
      var next := pre + d[..BLOCK];
      ChainedNext(f, h0, pre, d[..BLOCK]);
      NoWrap128(|next|);
      assert next + d[BLOCK..] == all;
      LoopIsChained(f, h0, next, d[BLOCK..], length);
    }
  }

  lemma MoreBlocks(n: nat)
    requires n % BLOCK == 0 && n >= BLOCK
    ensures n == BLOCK || (n >= 2 * BLOCK && (n - BLOCK) % BLOCK == 0)
  {
  }

  lemma ChainedNext(f: Compress, h0: Chain64, pre: seq<byte>, block: seq<byte>)
    requires |pre| % BLOCK == 0 && |block| == BLOCK
    ensures Chained(f, h0, pre + block) == f(Chained(f, h0, pre), block, Wrap128(|pre + block|), false)
  {
  }

  lemma SettledAt(q: nat, r: nat)
    requires q % BLOCK == 0 && 1 <= r <= BLOCK
    ensures Settled(q + r) == q
  {
  }

  /** A sum that comes out smaller than the increment has wrapped, and exactly then the high word counts one more. */
  lemma CounterStep(t0: uint64, t1: uint64, increment: nat)
    requires increment <= BLOCK
    ensures var low := (t0 + increment) % TWO_64;
            var high := if low < increment then (t1 + 1) % TWO_64 else t1;
            high * TWO_64 + low == Wrap128(t1 * TWO_64 + t0 + increment)
  {
    var sum, value := t0 + increment, t1 * TWO_64 + t0 + increment;
    if sum < TWO_64 {
      DivWord(sum, TWO_64, sum, 0);
      DivWord(value, TWO_128, value, 0);
    } else {
      DivWord(sum, TWO_64, sum - TWO_64, 1);
      if t1 + 1 < TWO_64 {
        DivWord(t1 + 1, TWO_64, t1 + 1, 0);
        DivWord(value, TWO_128, value, 0);
      } else {
        DivWord(value, TWO_128, value - TWO_128, 1);
      }
    }
  }

  lemma WholeBlocks(n: nat)
    requires n % BLOCK == 0
    ensures (n + BLOCK) % BLOCK == 0
  {
  }

  /** The input as the context sees it: the zero-padded key, if there is one, then the message. */
  function Stream(key: seq<byte>, message: seq<byte>): seq<byte>
    requires |key| <= 64
  {
    (if key == [] then [] else key + Zeros(BLOCK - |key|)) + message
  }

  /** Hashing the stream lazily is the standard's function, for keyed, unkeyed and empty inputs alike. */
  lemma HashIsRfc7693(f: Compress, h0: Chain64, key: seq<byte>, message: seq<byte>)
    requires |key| <= 64 && |message| + 256 <= 0x1_0000_0000_0000_0000_0000_0000_0000_0000
    ensures Hash(f, h0, Stream(key, message)) == Rfc7693(f, h0, key, message)
  {
    hide Chained, RfcLoop, Settled, Wrap128;
    var s, d := Stream(key, message), DataBlocks(key, message);
    var k := Settled(|s|);
    PaddedStream(key, message);
    NoWrap128(|s|);
    assert [] + d == d;
    LoopIsChained(f, h0, [], d, |s|);
    NoBlocks(f, h0);
  }

  /** Starting with the key block gives the hash of the standard for this key. */
  ghost predicate KeyedStartIsStandard(key: seq<byte>)
    requires |key| <= 64
  {
    forall f: Compress, h0: Chain64, message: seq<byte> :: |message| + 2 * BLOCK <= TWO_128 ==>
      Hash(f, h0, key + Zeros(BLOCK - |key|) + message) == Rfc7693(f, h0, key, message)
  }

  /**
   It does exactly when there is a key. With an empty one a block of zeros is hashed that the standard does
   not have: already for the empty message, a compression function that hands its counter on gives 128
   instead of 0.
   */
  lemma KeyedStartNeedsKey(key: seq<byte>)
    requires |key| <= 64
    ensures KeyedStartIsStandard(key) <==> key != []
  {
    hide Hash, Rfc7693;
    if key != [] {
      forall f: Compress, h0: Chain64, message: seq<byte> | |message| + 2 * BLOCK <= TWO_128
        ensures Hash(f, h0, key + Zeros(BLOCK - |key|) + message) == Rfc7693(f, h0, key, message)
      {
        HashIsRfc7693(f, h0, key, message);
      }
    } else {
      var f: Compress := (h, block, counter, last) => [counter % TWO_64, 0, 0, 0, 0, 0, 0, 0];
      var h0: Chain64 := [0, 0, 0, 0, 0, 0, 0, 0];
      EmptyKeyCounters(f, h0);
      assert key + Zeros(BLOCK - |key|) + [] == Zeros(BLOCK);
    }
  }

  lemma EmptyKeyCounters(f: Compress, h0: Chain64)
    ensures Hash(f, h0, Zeros(BLOCK)) == f(h0, Zeros(BLOCK), BLOCK, true)
    ensures Rfc7693(f, h0, [], []) == f(h0, Zeros(BLOCK), 0, true)
  {
    var z := Zeros(BLOCK);
    assert z[..0] == [] && z[0..] + Zeros(0) == z && z[..BLOCK] == z;
    assert [] + [] + z == z;
    NoWrap128(BLOCK);
  }

  lemma NoBlocks(f: Compress, h0: Chain64)
    ensures Chained(f, h0, []) == h0
  {
  }

  /** The standard pads to whole blocks what the context keeps back at the end. */
  lemma PaddedStream(key: seq<byte>, message: seq<byte>)
    requires |key| <= 64
    ensures var s, d := Stream(key, message), DataBlocks(key, message);
            var k := Settled(|s|);
            |d| == k + BLOCK && |d| % BLOCK == 0
            && d[..k] == s[..k] && d[k..] == s[k..] + Zeros(BLOCK - (|s| - k))
  {
    hide Settled, Zeros;
    var s, d := Stream(key, message), DataBlocks(key, message);
    var k := Settled(|s|);
    var n := if key == [] && message == [] then BLOCK else (BLOCK - |message| % BLOCK) % BLOCK;
    assert d == s + Zeros(n);
    PaddingFits(|message|, |s|, n);
    assert s == s[..k] + s[k..];
    assert d[..k] == s[..k] && d[k..] == s[k..] + Zeros(n);
  }

  /** The padding of n message bytes fills up the last block of a stream of total bytes. */
  lemma PaddingFits(n: nat, total: nat, padding: nat)
    requires total == n || total == n + BLOCK
    requires padding == if total == 0 then BLOCK else (BLOCK - n % BLOCK) % BLOCK
    ensures total + padding == Settled(total) + BLOCK
  {
    var r := n % BLOCK;
    DivWord(total, BLOCK, r, n / BLOCK + if total == n then 0 else 1);
    if total > 0 {
      var q := total / BLOCK;
      DivWord(total - 1, BLOCK, if r == 0 then BLOCK - 1 else r - 1, if r == 0 then q - 1 else q);
    }
  }

  /**
   The state of a context that has absorbed stream: the chaining value and the counter are those of all
   blocks but the last, and the last one, of 1 to 128 bytes, is held back.
   */
  ghost predicate Buffered(f: Compress, h0: Chain64, stream: seq<byte>, held: seq<byte>, h: Chain64, counter: nat)
    ensures Buffered(f, h0, stream, held, h, counter) ==> |held| <= BLOCK && (stream != [] ==> |held| >= 1)
  {
    var k := Settled(|stream|);
    held == stream[k..] && h == Chained(f, h0, stream[..k]) && counter == Wrap128(k)
  }

  /** Data that fits behind what is held back changes nothing else. */
  lemma HoldBackMore(f: Compress, h0: Chain64, stream: seq<byte>, held: seq<byte>, h: Chain64, counter: nat,
                     data: seq<byte>)
    requires Buffered(f, h0, stream, held, h, counter) && |held| + |data| <= BLOCK
    ensures Buffered(f, h0, stream + data, held + data, h, counter)
  {
    hide Chained, Settled, Wrap128;
    var k := Settled(|stream|);
    Unsettled(|stream|, |data|);
    assert (stream + data)[..k] == stream[..k];
    assert (stream + data)[k..] == stream[k..] + data;
  }

  /** After whole blocks, up to one block of data is held back. */
  lemma HoldBackRest(f: Compress, h0: Chain64, pre: seq<byte>, h: Chain64, rest: seq<byte>)
    requires |pre| % BLOCK == 0 && 1 <= |rest| <= BLOCK && h == Chained(f, h0, pre)
    ensures Buffered(f, h0, pre + rest, rest, h, Wrap128(|pre|))
  {
    hide Chained, Settled, Wrap128;
    SettledAt(|pre|, |rest|);
    assert (pre + rest)[..|pre|] == pre;
    assert (pre + rest)[|pre|..] == rest;
  }

  /** What is held back, padded and counted in full, is the last block of the hash. */
  lemma LastBlock(f: Compress, h0: Chain64, stream: seq<byte>, held: seq<byte>, h: Chain64, counter: nat)
    requires Buffered(f, h0, stream, held, h, counter)
    ensures Hash(f, h0, stream) == f(h, held + Zeros(BLOCK - |held|), Wrap128(counter + |held|), true)
  {
    hide Chained, Settled, Zeros, Wrap128;
    var k := Settled(|stream|);
    var n: nat := |held|;
    assert n == |stream| - k;
    AddWrap128(k, n);
    assert Wrap128(counter + n) == Wrap128(|stream|);
    assert Hash(f, h0, stream) == f(h, held + Zeros(BLOCK - n), Wrap128(|stream|), true);
  }

  /** The context. */
  class Blake2b {
    const compress: Compress
    var h: Chain64
    var t0: uint64       // low word of the byte counter
    var t1: uint64       // high word
    var last: bool       // the finalization flag word
    const buf: array<byte>
    var bufLen: nat
    const outLen: nat
    ghost const h0: Chain64
    ghost var absorbed: seq<byte>

    ghost predicate Valid()
      reads this, buf
    {
      && outLen <= 64
      && buf.Length == BLOCK && !last
      && bufLen <= BLOCK && Buffered(compress, h0, absorbed, buf[..bufLen], h, Counter())
    }

    function Counter(): nat
      reads `t0, `t1
    {
      t1 * TWO_64 + t0
    }

    /** Starts from the initial chaining value mixed with the parameter block. */
    constructor (compress: Compress, h0: Chain64, outLen: nat)
      requires outLen <= 64
      ensures Valid() && absorbed == [] && fresh(buf)
      ensures this.compress == compress && this.h0 == h0 && this.outLen == outLen
    {
      this.compress, this.h0, this.outLen := compress, h0, outLen;
      h := h0;
      t0, t1, last := 0, 0, false;
      buf := new byte[BLOCK];
      bufLen := 0;
      absorbed := [];
    }

    /** Starts with a key as the first block, an empty one too: then the block is all zeros. */
    constructor InitKey(compress: Compress, h0: Chain64, outLen: nat, key: seq<byte>)
      requires outLen <= 64 && |key| <= 64
      ensures Valid() && absorbed == key + Zeros(BLOCK - |key|) && fresh(buf)
      ensures this.compress == compress && this.h0 == h0 && this.outLen == outLen
    {
      this.compress, this.h0, this.outLen := compress, h0, outLen;
      h := h0;
      t0, t1, last := 0, 0, false;
      buf := new byte[BLOCK];
      bufLen := 0;
      absorbed := [];
      new;
      Update(key + Zeros(BLOCK - |key|));
    }

    /** blake2b_increment_counter. */
    method IncrementCounter(increment: nat)
      requires increment <= BLOCK
      modifies this`t0, this`t1
      ensures Counter() == Wrap128(old(Counter()) + increment)
    {
      CounterStep(t0, t1, increment);
      t0 := (t0 + increment) % TWO_64;
      if t0 < increment {
        t1 := (t1 + 1) % TWO_64;
      }
    }

    /** The blocks of pre have been compressed. */
    ghost predicate Chains(pre: seq<byte>)
      reads this
    {
      |pre| % BLOCK == 0 && h == Chained(compress, h0, pre) && Counter() == Wrap128(|pre|)
    }

    /** One turn of the block loop. */
    method CompressOne(block: seq<byte>, increment: nat, ghost pre: seq<byte>)
      requires |block| == BLOCK && increment <= BLOCK
      modifies this`h, this`t0, this`t1
      ensures Counter() == Wrap128(old(Counter()) + increment)
      ensures h == compress(old(h), block, Counter(), last)
      ensures old(Chains(pre)) && !last && increment == BLOCK ==> Chains(pre + block)
    {
      hide Counter, Chained, Wrap128;
      if |pre| % BLOCK == 0 {
        ChainedNext(compress, h0, pre, block);
        AddWrap128(|pre|, BLOCK);
        WholeBlocks(|pre|);
      }
      IncrementCounter(increment);
      h := compress(h, block, Counter(), last);
    }

    /**
     blake2b_compress: any number of whole blocks, or one padded block of which only len bytes count.
     One block is compressed as it stands; after pre, whole blocks extend the chain.
     */
    method CompressBlocks(blocks: seq<byte>, len: nat, ghost pre: seq<byte>)
      requires BLOCK <= |blocks| && (len < BLOCK || (len % BLOCK == 0 && len <= |blocks|))
      modifies this`h, this`t0, this`t1
      ensures len <= BLOCK ==> Counter() == Wrap128(old(Counter()) + len)
      ensures len <= BLOCK ==> h == compress(old(h), blocks[..BLOCK], Counter(), last)
      ensures old(Chains(pre)) && !last && len >= BLOCK ==> Chains(pre + blocks[..len])
    {
      hide Chains, Wrap128;
      var increment := if len < BLOCK then len else BLOCK;
      var at, left := 0, len;
      assert pre + blocks[..0] == pre;
      while true
        invariant at + left == len && increment <= left && at + BLOCK <= |blocks|
        invariant left % BLOCK == len % BLOCK && at % BLOCK == 0 && (at > 0 ==> left >= BLOCK)
        invariant at == 0 ==> h == old(h) && Counter() == old(Counter())
        invariant old(Chains(pre)) && !last && len >= BLOCK ==> Chains(pre + blocks[..at])
        decreases left
      {
        CompressOne(blocks[at..at + BLOCK], increment, pre + blocks[..at]);
        if increment == BLOCK {
          assert pre + blocks[..at] + blocks[at..at + BLOCK] == pre + blocks[..at + BLOCK];
        }
        at, left := at + increment, left - increment;
        if left == 0 {
          break;
        }
      }
    }

    /** Fills a started buffer from the data and compresses it; the data is longer than what fits. */
    method FlushBuffer(data: seq<byte>) returns (used: nat)
      requires Valid() && |data| > BLOCK - bufLen
      modifies this`h, this`t0, this`t1, this`bufLen, buf
      ensures used < |data| && used == (if old(bufLen) == 0 then 0 else BLOCK - old(bufLen))
      ensures bufLen == 0 && Chains(absorbed + data[..used])
    {
      hide Chained, Settled, Counter, Wrap128;
      ghost var k := Settled(|absorbed|);
      if bufLen == 0 {
        assert absorbed[..k] == absorbed + data[..0];
        return 0;
      }
      used := BLOCK - bufLen;
      ghost var held := buf[..bufLen];
      Memcpy(buf, bufLen, data[..used]);
      assert buf[..BLOCK] == held + data[..used];
      assert absorbed[..k] + (held + data[..used]) == absorbed + data[..used];
      CompressBlocks(buf[..], BLOCK, absorbed[..k]);
      bufLen := 0;
    }

    method KeepBack(rest: seq<byte>)
      requires buf.Length == BLOCK && bufLen + |rest| <= BLOCK
      modifies this`bufLen, buf
      ensures bufLen == old(bufLen) + |rest| && buf[..bufLen] == old(buf[..bufLen]) + rest
    {
      Memcpy(buf, bufLen, rest);
      bufLen := bufLen + |rest|;
    }

    /**
     Absorbs data: fills and compresses a started buffer, compresses all whole blocks but the last, and keeps
     one to 128 bytes back, since the last block of the message is compressed differently.
     */
    method Update(data: seq<byte>)
      requires Valid()
      modifies this`h, this`t0, this`t1, this`bufLen, this`absorbed, buf
      ensures Valid() && absorbed == old(absorbed) + data
      ensures absorbed != [] ==> bufLen >= 1
    {
      hide Buffered, Chained, Counter, Wrap128;
      if |data| <= BLOCK - bufLen {
        HoldBackMore(compress, h0, absorbed, buf[..bufLen], h, Counter(), data);
        KeepBack(data);
      } else {
        var at := FlushBuffer(data);
        if |data| - at > BLOCK {
          at := CompressMost(data, at);
        }
        HoldBackRest(compress, h0, absorbed + data[..at], h, data[at..]);
        assert absorbed + data[..at] + data[at..] == absorbed + data;
        KeepBack(data[at..]);
        assert buf[..bufLen] == data[at..];
      }
      absorbed := absorbed + data;
    }

    /** All whole blocks but the last, straight from the data. */
    method CompressMost(data: seq<byte>, at: nat) returns (end: nat)
      requires !last && at <= |data| && |data| - at > BLOCK && Chains(absorbed + data[..at])
      modifies this`h, this`t0, this`t1
      ensures at <= end < |data| && |data| - end <= BLOCK && Chains(absorbed + data[..end])
    {
      hide Chained, Chains, Wrap128;
      var stash := (|data| - at) % BLOCK;
      stash := if stash != 0 then stash else BLOCK;
      var n := |data| - at - stash;
      CompressBlocks(data[at..], n, absorbed + data[..at]);
      end := at + n;
      assert absorbed + data[..at] + data[at..][..n] == absorbed + data[..end];
    }

    /** Compresses what was kept back as the last block, padded with zeros. */
    method CompressLast()
      requires Valid()
      modifies this`h, this`t0, this`t1, this`last, buf
      ensures h == old(Hash(compress, h0, absorbed))
    {
      hide Buffered, Hash, Counter, Zeros, Wrap128;
      LastBlock(compress, h0, absorbed, buf[..bufLen], h, Counter());
      last := true;
      PadBuffer();
      assert buf[..][..BLOCK] == buf[..];
      CompressBlocks(buf[..], bufLen, []);
    }

    method PadBuffer()
      requires buf.Length == BLOCK && bufLen <= BLOCK
      modifies buf
      ensures buf[..] == old(buf[..bufLen]) + Zeros(BLOCK - bufLen)
    {
      ghost var held := buf[..bufLen];
      Memcpy(buf, bufLen, Zeros(BLOCK - bufLen));
      assert buf[..] == held + Zeros(BLOCK - bufLen);
    }

    /** Finishes the hash, returns the digest and clears the context. */
    method Final() returns (md: seq<byte>)
      requires Valid()
      modifies this, buf
      ensures |md| == outLen && md == StoredWords(old(Hash(compress, h0, absorbed)), 8)[..outLen]
      ensures var words := old(Hash(compress, h0, absorbed));
              forall k :: 0 <= k < outLen ==> md[k] == words[k / 8] / Power256(k % 8) % 0x100
    {
      hide Buffered, Hash, StoredWords, Power256;
      StoredBytes(Hash(compress, h0, absorbed));
      CompressLast();
      md := StoreWords();
      h, t0, t1, last, bufLen := [0, 0, 0, 0, 0, 0, 0, 0], 0, 0, false, 0;
      Memcpy(buf, 0, Zeros(BLOCK));
    }

    /** Stores the words that the output reaches into, and cuts the output to its length. */
    method StoreWords() returns (md: seq<byte>)
      requires outLen <= 64
      ensures md == StoredWords(h, 8)[..outLen]
    {
      var iter := (outLen + 7) / 8;
      var target: seq<byte> := [];
      var i := 0;
      while i < iter
        invariant 0 <= i <= iter && target == StoredWords(h, i)
      {
        target := target + LittleEndian(h[i], 8);
        i := i + 1;
      }
      StoredPrefix(h, iter, 8);
      md := target[..outLen];
    }
  }

  lemma Unsettled(n: nat, m: nat)
    requires m <= BLOCK - (n - Settled(n))
    ensures n + m > 0 || m == 0
    ensures Settled(n + m) == Settled(n)
  {
    if n + m > 0 {
      SettledAt(Settled(n), n + m - Settled(n));
    }
  }

  /** Any number of updates absorb the concatenation of their data. */
  method AbsorbPieces(context: Blake2b, pieces: seq<seq<byte>>)
    requires context.Valid()
    modifies context, context.buf
    ensures context.Valid() && context.absorbed == old(context.absorbed) + Concat(pieces)
  {
    hide Blake2b.Valid;
    var i := 0;
    assert context.absorbed + [] == context.absorbed;
    while i < |pieces|
      invariant 0 <= i <= |pieces| && context.Valid()
      invariant context.absorbed == old(context.absorbed) + Concat(pieces[..i])
    {
      context.Update(pieces[i]);
      assert pieces[..i + 1][..i] == pieces[..i];
      i := i + 1;
    }
    assert pieces[..i] == pieces;
  }

  /** Init_key, any number of updates, Final, with whatever key: an empty one costs a block of zeros. */
  method HashKeyed(f: Compress, h0: Chain64, outLen: nat, key: seq<byte>, pieces: seq<seq<byte>>)
    returns (md: seq<byte>)
    requires outLen <= 64 && |key| <= 64
    ensures md == StoredWords(Hash(f, h0, key + Zeros(BLOCK - |key|) + Concat(pieces)), 8)[..outLen]
  {
    hide Hash, Concat, Blake2b.Valid;
    var context := new Blake2b.InitKey(f, h0, outLen, key);
    AbsorbPieces(context, pieces);
    md := context.Final();
  }

  /**
   Init or, with a key, Init_key, then any number of updates, Final: however the message is cut into pieces,
   the digest is the one of RFC 7693, keyed or not, empty or not.
   */
  method HashPieces(f: Compress, h0: Chain64, outLen: nat, key: seq<byte>, pieces: seq<seq<byte>>)
    returns (md: seq<byte>)
    requires outLen <= 64 && |key| <= 64 && |Concat(pieces)| + 256 <= 0x1_0000_0000_0000_0000_0000_0000_0000_0000
    ensures |md| == outLen && md == StoredWords(Rfc7693(f, h0, key, Concat(pieces)), 8)[..outLen]
  {
    hide Hash, Rfc7693, Concat, Blake2b.Valid;
    HashIsRfc7693(f, h0, key, Concat(pieces));
    if key == [] {
      var context := new Blake2b(f, h0, outLen);
      AbsorbPieces(context, pieces);
      md := context.Final();
    } else {
      md := HashKeyed(f, h0, outLen, key, pieces);
    }
  }
}
