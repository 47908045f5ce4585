/** Compress: the length header followed by one compressed fragment per 64 KiB block. */
module Compression {
  import opened Arithmetic
  import opened Bytes
  import opened Bits
  import opened Format
  import opened Emit
  import opened Fragment
  import opened Greedy
  import opened Hashing
  import opened SourceSink
  import Varint

  function MaxCompressedLength(n: nat): nat {
    32 + n + n / 6
  }

  /**
   Collects the next n bytes of the source. One region that covers them is used as it is and skipped
   later; otherwise regions are gathered in scratch space and skipped as they are copied.
   */
  method NextBlock(reader: Source, n: nat) returns (fragment: seq<byte>, pendingAdvance: nat)
    requires reader.Valid() && 0 < n <= |reader.Rest()|
    modifies reader`pos
    ensures reader.Valid() && fragment == old(reader.Rest()[..n])
    ensures reader.pos + pendingAdvance == old(reader.pos) + n
  {
    var region := reader.Peek();
    RegionBytes(reader, region, Min(|region|, n));
    FirstBytes(reader, n);
    if |region| >= n {
      return region[..n], n;
    }
    fragment := GatherBlock(reader, n, region);
    pendingAdvance := 0;
  }

  /** Copies the region that is already at hand, and further ones until n bytes are there. */
  method GatherBlock(reader: Source, n: nat, region: seq<byte>) returns (fragment: seq<byte>)
    requires reader.Valid() && |region| < n <= |reader.Rest()|
    requires region == reader.data[reader.pos..reader.pos + |region|]
    modifies reader`pos
    ensures reader.Valid() && reader.pos == old(reader.pos) + n
    ensures fragment == reader.data[old(reader.pos)..old(reader.pos) + n]
  {
    ghost var start := reader.pos;
    var scratch := new byte[n];
    var bytesRead := |region|;
    Memcpy(scratch, 0, region);
    reader.Skip(bytesRead);
    while bytesRead < n
      invariant bytesRead <= n && reader.Valid() && reader.pos == start + bytesRead
      invariant scratch[..bytesRead] == reader.data[start..start + bytesRead]
    {
      bytesRead := GatherRegion(reader, scratch, bytesRead, start);
    }
    assert scratch[..] == scratch[..n];
    return scratch[..];
  }

  /** Copies and skips the next region, or as much of it as still fits. */
  method GatherRegion(reader: Source, scratch: array<byte>, bytesRead: nat, ghost start: nat) returns (end: nat)
    requires reader.Valid() && bytesRead < scratch.Length && start + scratch.Length <= |reader.data|
    requires reader.pos == start + bytesRead && scratch[..bytesRead] == reader.data[start..start + bytesRead]
    modifies reader`pos, scratch
    ensures reader.Valid() && bytesRead < end <= scratch.Length && reader.pos == start + end
    ensures scratch[..end] == reader.data[start..start + end]
  {
    var region := reader.Peek();
    var k := Min(|region|, scratch.Length - bytesRead);
    RegionBytes(reader, region, k);
    Gather(scratch, bytesRead, region[..k], reader.data, start);
    reader.Skip(k);
    end := bytesRead + k;
  }

  /** The bytes of the next region. */
  lemma RegionBytes(reader: Source, region: seq<byte>, k: nat)
    requires reader.Valid() && region == reader.Rest()[..reader.RegionAt(reader.pos)] && k <= |region|
    ensures region[..k] == reader.data[reader.pos..reader.pos + k]
    ensures k == |region| ==> region == reader.data[reader.pos..reader.pos + k]
  {
  }

  lemma FirstBytes(reader: Source, n: nat)
    requires reader.Valid() && n <= |reader.Rest()|
    ensures reader.Rest()[..n] == reader.data[reader.pos..reader.pos + n]
  {
  }

  method Gather(scratch: array<byte>, have: nat, more: seq<byte>, ghost data: seq<byte>, ghost start: nat)
    requires have + |more| <= scratch.Length && start + have + |more| <= |data|
    requires scratch[..have] == data[start..start + have]
    requires more == data[start + have..start + have + |more|]
    modifies scratch
    ensures scratch[..have + |more|] == data[start..start + have + |more|]
  {
    Memcpy(scratch, have, more);
    assert scratch[..have] == data[start..start + have];
    assert scratch[..have + |more|] == scratch[..have] + scratch[have..have + |more|];
  }

  /** out decodes to the first done bytes, whole blocks unless that is all of the data, within the size bound. */
  ghost predicate BlocksDone(out: seq<byte>, data: seq<byte>, done: nat) {
    && done <= |data| && (done % BLOCK_SIZE == 0 || done == |data|)
    && Encodes(out, [], data[..done])
    && WithinSizeBound(|out|, done)
  }

  /** A block costs at most one byte in sixty, and one byte more. */
  predicate WithinSizeBound(size: nat, done: nat) {
    size <= done + done / 60 + (done + BLOCK_SIZE - 1) / BLOCK_SIZE
  }

  /** One more block keeps the size bound. */
  lemma NextBlockDone(out: seq<byte>, block: seq<byte>, data: seq<byte>, done: nat, n: nat)
    requires BlocksDone(out, data, done) && done < |data|
    requires n == Min(|data| - done, BLOCK_SIZE) && |block| <= n + n / 60 + 1
    requires Encodes(block, [], data[done..done + n])
    ensures BlocksDone(out + block, data, done + n)
  {
    hide Encodes;
    assert data[..done] + data[done..done + n] == data[..done + n];
    AfterPrefix(block, data[..done], data[done..done + n]);
    BlockSizeBound(|out|, |block|, done, n);
    EncodesAppend(out, block, [], data[..done], data[..done + n]);
  }

  lemma BlockSizeBound(size: nat, blockSize: nat, done: nat, n: nat)
    requires WithinSizeBound(size, done) && done % BLOCK_SIZE == 0
    requires 0 < n <= BLOCK_SIZE && blockSize <= n + n / 60 + 1
    ensures WithinSizeBound(size + blockSize, done + n)
    ensures n == BLOCK_SIZE ==> (done + n) % BLOCK_SIZE == 0
  {
    DivWord(done + BLOCK_SIZE - 1, BLOCK_SIZE, BLOCK_SIZE - 1, done / BLOCK_SIZE);
    DivWord(done + n + BLOCK_SIZE - 1, BLOCK_SIZE, n - 1, done / BLOCK_SIZE + 1);
    var whole := n == BLOCK_SIZE;
    DivWord(done + n, BLOCK_SIZE, if whole then 0 else n, done / BLOCK_SIZE + if whole then 1 else 0);
  }

  /**
   CompressFragment asks for MaxCompressedLength of its block. Of the space that RawCompress provides, the
   header and the blocks before it leave less exactly for the first block of an input of at most one byte
   more than a block.
   */
  lemma DocumentedSpace(out: seq<byte>, data: seq<byte>, done: nat)
    requires BlocksDone(out, data, done) && done < |data| < 0x1_0000_0000
    ensures MaxCompressedLength(|data|) - |Varint.Encoding(|data|)| - |out|
              < MaxCompressedLength(Min(|data| - done, BLOCK_SIZE))
            <==> done == 0 && |data| <= BLOCK_SIZE + 1
  {
    hide Encodes, Varint.Encoding;
    Varint.EncodingSize(|data|);
    if done > 0 {
      LaterSpace(|out|, |data|, done, done / BLOCK_SIZE);
    }
  }

  /** After k blocks, the sixth that each adds to the bound is worth far more than what it took. */
  lemma LaterSpace(size: nat, n: nat, done: nat, k: nat)
    requires done == BLOCK_SIZE * k && k >= 1 && done < n && WithinSizeBound(size, done)
    ensures size + 5 + MaxCompressedLength(Min(n - done, BLOCK_SIZE)) <= MaxCompressedLength(n)
  {
    DivWord(done + BLOCK_SIZE - 1, BLOCK_SIZE, BLOCK_SIZE - 1, k);
  }

  lemma AfterPrefix(block: seq<byte>, pre: seq<byte>, data: seq<byte>)
    requires Encodes(block, [], data)
    ensures Encodes(block, pre, pre + data)
  {
    ExpandAfter(block, pre, []);
    assert pre + [] == pre;
  }

  /** The word hash that fits a table of 2^log entries. */
  function WordHash(log: nat): uint32 -> nat
    requires log <= 32
  {
    (w: uint32) => HashBytes(w, 32 - log)
  }

  /** The slot of a word is the top bits of the low 32 bits of its product with 506832829. */
  lemma SlotOfWord(w: uint32, log: nat)
    requires log <= 32
    ensures WordHash(log)(w) == w * 506832829 % 4294967296 / Pow2(32 - log)
  {
    ShiftRightDivides(Multiply32(w, HASH_MULTIPLIER), 32 - log);
  }

  lemma WordHashInRange(log: nat)
    requires log <= 32
    ensures HashInRange(WordHash(log), Pow2(log))
  {
    forall w: uint32
      ensures WordHash(log)(w) < Pow2(log)
    {
      HashInTable(w, log);
    }
  }

  /** What a block is compressed to. */
  ghost function CompressedBlock(block: seq<byte>): seq<byte>
    requires |block| <= BLOCK_SIZE
  {
    var log := TableLog(|block|, 8);
    WordHashInRange(log);
    BlockCode(block, Pow2(log), WordHash(log))
  }

  ghost function CompressedBlocks(data: seq<byte>): seq<byte> {
    if data == [] then []
    else
      var n := Min(|data|, BLOCK_SIZE);
      CompressedBlock(data[..n]) + CompressedBlocks(data[n..])
  }

  /** What a byte string is compressed to: a function of its bytes alone. */
  ghost function CompressedForm(data: seq<byte>): seq<byte> {
    Varint.Encoding(|data|) + CompressedBlocks(data)
  }

  lemma NextCompressedBlock(data: seq<byte>, done: nat, n: nat)
    requires done < |data| && n == Min(|data| - done, BLOCK_SIZE)
    ensures CompressedBlocks(data[done..]) == CompressedBlock(data[done..done + n]) + CompressedBlocks(data[done + n..])
  {
    hide CompressedBlock;
    assert data[done..][..n] == data[done..done + n] && data[done..][n..] == data[done + n..];
  }

  /** Compresses one block into the sink's own buffer or, failing that, through scratch space. */
  method CompressBlock(fragment: seq<byte>, sink: ArraySink, wmem: WorkingMemory, scratch: array<byte>)
    requires 0 < |fragment| <= BLOCK_SIZE && sink.Valid() && wmem.Valid()
    requires sink.pos + FragmentRoom(|fragment|) <= sink.dest.Length && FragmentRoom(|fragment|) <= scratch.Length
    requires sink.dest != scratch && {sink, sink.dest, scratch} !! wmem.Footprint()
    modifies sink`pos, sink.dest, wmem.Footprint(), scratch
    ensures sink.Valid() && wmem.Valid() && fresh(wmem.Footprint() - old(wmem.Footprint()))
    ensures old(sink.pos) <= sink.pos <= old(sink.pos) + |fragment| + |fragment| / 60 + 1
    ensures Encodes(sink.dest[old(sink.pos)..sink.pos], [], fragment)
    ensures sink.dest[old(sink.pos)..sink.pos] == CompressedBlock(fragment)
    ensures OnlyChanged(sink.dest, old(sink.pos), old(sink.pos) + FragmentRoom(|fragment|))
  {
    hide Encodes, CompressedBlock, TableLog;
    var table, tableSize, log := wmem.GetHashTable(|fragment|);
    var buffer, at := sink.GetAppendBuffer(scratch);
    var end := CompressHashed(fragment, buffer, at, table, tableSize, log);
    sink.Append(buffer, at, end - at);
  }

  /** Compresses one block with the word hash for a table of this size, filled with zeros. */
  method CompressHashed(fragment: seq<byte>, buffer: array<byte>, at: nat, table: array<uint16>, tableSize: nat,
                        ghost log: nat) returns (end: nat)
    requires |fragment| <= BLOCK_SIZE && at + FragmentRoom(|fragment|) <= buffer.Length && buffer as object != table
    requires tableSize == Pow2(log) <= table.Length && tableSize <= MAX_HASH_TABLE_SIZE
    requires log == TableLog(|fragment|, 8)
    requires forall h :: 0 <= h < tableSize ==> table[h] == 0
    modifies buffer, table
    ensures at <= end <= at + FragmentRoom(|fragment|) && end - at <= |fragment| + |fragment| / 60 + 1
    ensures Encodes(buffer[at..end], [], fragment) && buffer[at..end] == CompressedBlock(fragment)
    ensures OnlyChanged(buffer, at, at + FragmentRoom(|fragment|))
  {
    hide Encodes, BlockCode, WordHash, TableLog, Pow2, HashInRange;
    var floorLog := Log2Floor(tableSize);
    FloorLogOfPow2(log);
    WordHashInRange(log);
    end := CompressFragment(fragment, buffer, at, table, tableSize, WordHash(floorLog));
  }

  /** Bytes body.. of the sink hold the blocks for the first done bytes, and the rest is still in the source. */
  ghost predicate Compressing(reader: Source, sink: ArraySink, body: nat, data: seq<byte>, done: nat)
    reads reader, sink, sink.dest
  {
    && reader.Valid() && sink.Valid() && body <= sink.pos && done <= |data| && reader.Rest() == data[done..]
    && BlocksDone(sink.dest[body..sink.pos], data, done)
    && sink.dest[body..sink.pos] + CompressedBlocks(data[done..]) == CompressedBlocks(data)
  }

  lemma JoinSlices(buf: array<byte>, a: nat, b: nat, c: nat)
    requires a <= b <= c <= buf.Length
    ensures buf[a..c] == buf[a..b] + buf[b..c]
  {
  }

  /** One turn of the block loop. */
  method AppendBlock(reader: Source, sink: ArraySink, wmem: WorkingMemory, scratch: array<byte>, numToRead: nat,
                     ghost body: nat, ghost data: seq<byte>, ghost done: nat)
    requires Compressing(reader, sink, body, data, done) && wmem.Valid()
    requires done < |data| && numToRead == Min(|data| - done, BLOCK_SIZE)
    requires body + 27 + |data| + |data| / 6 <= sink.dest.Length && FragmentRoom(numToRead) <= scratch.Length
    requires sink.dest != scratch && {sink, sink.dest, scratch} !! wmem.Footprint()
    modifies reader`pos, sink`pos, sink.dest, wmem.Footprint(), scratch
    ensures Compressing(reader, sink, body, data, done + numToRead) && sink.pos >= old(sink.pos)
    ensures wmem.Valid() && fresh(wmem.Footprint() - old(wmem.Footprint()))
    ensures OnlyChanged(sink.dest, body, body + 27 + |data| + |data| / 6)
  {
    hide Encodes, CompressedBlock, CompressedBlocks, BlocksDone;
    ghost var before, out := sink.pos, sink.dest[body..sink.pos];
    NextCompressedBlock(data, done, numToRead);
    var fragment, pendingAdvance := NextBlock(reader, numToRead);
    assert fragment == data[done..done + numToRead];
    DoneWithinBound(out, data, done);
    RoomForBlock(|out|, done, numToRead, |data|);
    CompressBlock(fragment, sink, wmem, scratch);
    assert sink.dest[body..before] == out;
    JoinSlices(sink.dest, body, before, sink.pos);
    NextBlockDone(out, sink.dest[before..sink.pos], data, done, numToRead);
    reader.Skip(pendingAdvance);
  }

  /** The header takes five of the 32 spare bytes; the other 27 leave room for every block. */
  lemma RoomForBlock(size: nat, done: nat, n: nat, total: nat)
    requires WithinSizeBound(size, done) && done < total && n == Min(total - done, BLOCK_SIZE)
    requires done % BLOCK_SIZE == 0
    ensures size + FragmentRoom(n) <= 27 + total + total / 6
  {
    DivWord(done + BLOCK_SIZE - 1, BLOCK_SIZE, BLOCK_SIZE - 1, done / BLOCK_SIZE);
  }

  lemma DoneWithinBound(out: seq<byte>, data: seq<byte>, done: nat)
    requires BlocksDone(out, data, done)
    ensures WithinSizeBound(|out|, done) && (done % BLOCK_SIZE == 0 || done == |data|)
  {
  }

  method AppendHeader(sink: ArraySink, n: uint32)
    requires sink.Valid() && sink.pos + Varint.MAX_32 <= sink.dest.Length
    modifies sink`pos, sink.dest
    ensures sink.Valid() && old(sink.pos) <= sink.pos <= old(sink.pos) + Varint.MAX_32
    ensures sink.dest[old(sink.pos)..sink.pos] == Varint.Encoding(n)
    ensures OnlyChanged(sink.dest, old(sink.pos), sink.pos)
  {
    var ulength := new byte[Varint.MAX_32];
    var size := Varint.Encode32(ulength, 0, n);
    sink.Append(ulength, 0, size);
  }

  /** The block loop: compresses the n bytes left in the source. */
  method AppendBlocks(reader: Source, sink: ArraySink, total: nat)
    requires reader.Valid() && sink.Valid() && total == |reader.Rest()|
    requires sink.pos + 27 + total + total / 6 <= sink.dest.Length
    modifies reader`pos, sink`pos, sink.dest
    ensures reader.Valid() && reader.Rest() == [] && sink.Valid() && sink.pos >= old(sink.pos)
    ensures BlocksDone(sink.dest[old(sink.pos)..sink.pos], old(reader.Rest()), total)
    ensures sink.dest[old(sink.pos)..sink.pos] == CompressedBlocks(old(reader.Rest()))
    ensures OnlyChanged(sink.dest, old(sink.pos), old(sink.pos) + 27 + total + total / 6)
  {
    hide BlocksDone, CompressedBlocks, Compressing;
    ghost var data, body := reader.Rest(), sink.pos;
    var n := total;
    var wmem := new WorkingMemory();
    var scratchOutput := new byte[MaxCompressedLength(Min(n, BLOCK_SIZE))];
    NothingCompressed(reader, sink, data);
    while n > 0
      invariant 0 <= n <= total && Compressing(reader, sink, body, data, total - n) && body <= sink.pos
      invariant wmem.Valid() && fresh(wmem.Footprint()) && scratchOutput !in wmem.Footprint()
      invariant OnlyChanged(sink.dest, body, body + 27 + total + total / 6)
    {
      var numToRead := Min(n, BLOCK_SIZE);
      AppendBlock(reader, sink, wmem, scratchOutput, numToRead, body, data, total - n);
      n := n - numToRead;
    }
    AllCompressed(reader, sink, body, data);
  }

  lemma NothingCompressed(reader: Source, sink: ArraySink, data: seq<byte>)
    requires reader.Valid() && sink.Valid() && reader.Rest() == data
    ensures Compressing(reader, sink, sink.pos, data, 0)
  {
    hide CompressedBlocks;
    NoBlocks(data);
    assert sink.dest[sink.pos..sink.pos] == [] && data[0..] == data;
    assert [] + CompressedBlocks(data) == CompressedBlocks(data);
  }

  lemma AllCompressed(reader: Source, sink: ArraySink, body: nat, data: seq<byte>)
    requires Compressing(reader, sink, body, data, |data|)
    ensures reader.Valid() && reader.Rest() == [] && sink.Valid() && body <= sink.pos
    ensures BlocksDone(sink.dest[body..sink.pos], data, |data|)
    ensures sink.dest[body..sink.pos] == CompressedBlocks(data)
  {
    assert data[|data|..] == [];
  }

  /**
   Compresses everything left in the source onto the sink and returns the number of bytes written.
   Decoding what was written gives the source back, and what is written does not depend on how the source
   is fragmented or on where the sink lets the blocks be built.
   */
  method Compress(reader: Source, sink: ArraySink) returns (written: nat)
    requires reader.Valid() && sink.Valid() && |reader.Rest()| < 0x1_0000_0000
    requires sink.pos + 32 + |reader.Rest()| + |reader.Rest()| / 6 <= sink.dest.Length
    modifies reader`pos, sink`pos, sink.dest
    ensures reader.Valid() && reader.Rest() == []
    ensures sink.Valid() && sink.pos == old(sink.pos) + written
    ensures written <= 32 + |old(reader.Rest())| + |old(reader.Rest())| / 6
    ensures IsCompressed(sink.dest[old(sink.pos)..sink.pos], old(reader.Rest()))
    ensures sink.dest[old(sink.pos)..sink.pos] == CompressedForm(old(reader.Rest()))
    ensures OnlyChanged(sink.dest, old(sink.pos),
                        old(sink.pos) + 32 + |old(reader.Rest())| + |old(reader.Rest())| / 6)
  {
    hide BlocksDone, Varint.Encoding, CompressedBlocks;
    ghost var data := reader.Rest();
    var first := sink.pos;
    var n := reader.Available();
    AppendHeader(sink, n);
    ghost var body := sink.pos;
    AppendBlocks(reader, sink, n);
    written := sink.pos - first;
    ghost var s := sink.dest[first..sink.pos];
    assert s[..body - first] == Varint.Encoding(|data|);
    assert s[body - first..] == sink.dest[body..sink.pos];
    assert s == s[..body - first] + s[body - first..];
    CompressedWhole(s, body - first, data);
  }

  /** s is a complete compressed buffer for data, made of tags within the block bounds. */
  ghost predicate IsCompressed(s: seq<byte>, data: seq<byte>) {
    && Uncompress(s) == Some(data)
    && Varint.Parse(s).Some? && WithinBounds(s[Varint.Parse(s).value.size..])
  }

  lemma NoBlocks(data: seq<byte>)
    ensures BlocksDone([], data, 0)
  {
  }

  /** A header followed by finished blocks is a complete compressed buffer. */
  lemma CompressedWhole(s: seq<byte>, size: nat, data: seq<byte>)
    requires |data| < 0x1_0000_0000 && size <= |s|
    requires s[..size] == Varint.Encoding(|data|) && BlocksDone(s[size..], data, |data|)
    ensures IsCompressed(s, data) && |s| <= 32 + |data| + |data| / 6
  {
    hide Varint.Encoding;
    Varint.ParseEncoding(|data|, s[size..]);
    assert s == Varint.Encoding(|data|) + s[size..];
    assert data[..|data|] == data;
  }
}
