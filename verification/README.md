# Verification of the vendored codec, calendar and hash code

A Dafny model of three self-contained parts of the core library, with proofs. `dafny verify dfyconfig.toml`
checks all of it.

**Snappy** (`core/lib/snappy`). `Format` is the reference: what a string of tags decodes to (`Expand`), what a
corrupt one still delivers (`Deliver`), where decoding under a limit must stop (`StopWithin`), and what a whole
buffer with its length header means (`Uncompress`); `TagForms` writes out every form of a tag and proves the
reader its inverse. Everything imperative is related to it. `Fragment` and `Compression` are the compressor over
a lossy hash table and an arbitrarily fragmented `Source`; `Greedy` says as a function which matches it takes,
so that its output is known to depend on nothing but the data. `Periodic`, `TwoRuns`, `Restart` and `Repetition`
work that function out for repetitive input, byte for byte, and `Shortest` proves its tags the shortest that the
format has. `Decompression` is the resumable tag decoder with its scratch stitching and masked loads; `Runs` says
as a function what it delivers from a given fragmentation, and proves what does not depend on the fragmentation.
`ArrayWriters`, `IOVecWriters`, `ScatteredWriters` and the validator in `Writers` are the four output types; the
sum `Writers.Writer` stands for the template parameter of the decoder. `Copying` holds the eight-bytes-at-a-time
moves that write past their target, `Stream` the byte-wise self-copy they must equal. `Uncompression` and `Snappy`
are the entry points.

**Calendars** (`core/lib/date`). `Gregorian`, `Julian`, `IsoWeeks`, `MonthWeekdays` and `Weekdays` state the
day-count arithmetic with its truncating division over unbounded years, and prove it against calendars that only
know how to turn a page, and against the definition of an ISO week by its Thursday.

**Hashes** (`core/lib/blake`, `core/lib/sha512256`). `Blake2b`, `Blake256` (with its HMAC) and `Sha512`
(SHA-512/t) keep the block function an uninterpreted parameter and prove the buffering, counters and
padding against the one-shot definitions of RFC 7693, the BLAKE proposal with RFC 2104, and FIPS 180-4.
`Blake2bParameters` is the parameter block and the start it gives. `HashConstants` proves the constants what the
standards define them to be, and `ShortMessages` states in numbers what short messages compress.
`Separation` lifts what is known of the bytes BLAKE-256 absorbs to its digests.

Conventions: byte strings are `seq<byte>`; machine words are bounded integers and every wrap-around is written
out; bit operations on words are division, remainder or lists of bits. A pointer is an array with an index.
Loads are little-endian and copies are the 64-bit variants. A source is its data with an arbitrary function from
positions to region sizes, so that every statement about a source is about all fragmentations. Ghost fields named
`contents` or `absorbed` record the stream an object has taken in; `Valid` ties them to the real fields. `hide`
statements only keep definitions out of proofs that do not need them.

Where the code does not do what its surroundings promise:

- `year_lastweek_weekday` converts a Monday to a day one week late, into the next ISO year
  (core/lib/date/iso_week.h:1316-1317); `IsoWeeks.LastWeekMonday` gives the exact condition.
- `blake256_update` decides by the length modulo 64 whether a started block is completed
  (core/lib/blake/blake256.c:131) and forgets the buffer after an update that leaves nothing over
  (core/lib/blake/blake256.c:149-154). `Blake256.Absorbed` is what really happens; `Blake256.HonouredIsExact`
  says when one update, `Blake256.OrderlyIsExact` when a sequence of updates, and
  `Separation.OrderlyDigestsAreExact` when the digest of one, is what was asked.
- After a rejected append `SnappyScatteredWriter::Size` counts the last block twice
  (core/lib/snappy/snappy.cc:1281-1287), so that `UncompressAsMuchAsPossible` reports more bytes than it added to
  the sink, against core/lib/snappy/snappy.h:92-97. `Uncompression.ProducedOverstates` is such an input,
  `Uncompression.UncompressAsMuchAsPossible` gives the count for every input and fragmentation, and
  `Uncompression.CountIsWrong` and `CountIsWrongInOneRegion` say exactly when it is wrong. A copy that runs over
  the declared length is refused before the block is touched and leaves the count right.
- How much of a literal that runs over the declared length is delivered depends on how the source is fragmented
  (core/lib/snappy/snappy.cc:604-621): `Runs.CopyRegions` says how. `Uncompression.ThreeForTwoDiffers` and
  `SameBytesDifferentOutput` are such an input. `Uncompression.FragmentationMatters` gives the exact condition,
  that a rejected piece of that literal leaves room below the declared length; without it all fragmentations agree
  on every byte, by `Uncompression.AnyFragmentation`.
- A long literal of encoded length 0xffffffff has length zero (core/lib/snappy/snappy.cc:601-603); the reference
  decoder does the same.
- `BLAKE2b_Init_key` with an empty key absorbs a block of zeros that the standard does not have
  (core/lib/blake/blake2b.cpp:155-169), so that for some block function and message the hash is not the
  standard's; `Blake2b.KeyedStartNeedsKey`.
- `CompressFragment` asks for `MaxCompressedLength` bytes of output space (core/lib/snappy/snappy.cc:328-330),
  but the header comes out of the same 32 spare bytes. `Compression.DocumentedSpace` proves that the first block
  of an input of at most 65537 bytes, and no other, gets less. The model asks for n + n/60 + 17 bytes instead,
  which suffices.
- The carry into the high length word in `blake256_final_h` (core/lib/blake/blake256.c:165) can never happen;
  `Blake256.LengthWords`.

## Model

| member | source | states |
|---|---|---|
| `Snappy.RoundTrip` | core/lib/snappy/snappy.cc:730-809 | compress, then decompress: succeeds and returns the input, for every input under 2^32 bytes, every fragmentation of both sources and both kinds of sink |
| `Snappy.RawCompress` | core/lib/snappy/snappy.cc:1148-1158 | the output is a complete compressed buffer for the input, at most 32 + n + n/6 bytes long and, if all input bytes are equal, at most n/20 + 22; it is a function of the input bytes alone, and nothing past the bound is written, fast paths included |
| `Snappy.CompressString` | core/lib/snappy/snappy.cc:1160-1170 | the same through a buffer of the documented maximum size |
| `Compression.Compress` | core/lib/snappy/snappy.cc:730-809 | whatever the fragmentation and the sink: the whole source is consumed, the written count is exact and within 32 + n + n/6, the reference decoder returns the data from what was written, all tags keep the block bounds, the bytes are CompressedForm of the data, and no byte outside the bound changes |
| `Compression.AppendBlocks` | core/lib/snappy/snappy.cc:742-803 | the block loop with its 27 spare bytes: the blocks decode to the data and fit, although only the last block may cost a byte extra |
| `Compression.NextBlock` | core/lib/snappy/snappy.cc:743-777 | gathering regions yields exactly the next n bytes of the source and leaves that many to be skipped, on both paths |
| `Compression.GatherBlock` | core/lib/snappy/snappy.cc:755-775 | regions copied and skipped one after the other give exactly the next n bytes |
| `Compression.CompressBlock` | core/lib/snappy/snappy.cc:779-802 | one block through GetHashTable, GetAppendBuffer and Append decodes to the block, in place or through scratch space |
| `Compression.NextBlockDone` | core/lib/snappy/snappy.cc:71-93 | blocks concatenate as streams, and a full block never uses up the sixth that the bound grants it |
| `Compression.AppendHeader` | core/lib/snappy/snappy.cc:732-736 | the header written is the varint of the length |
| `Compression.DocumentedSpace` | core/lib/snappy/snappy.cc:328-330 | the space left to a block is less than MaxCompressedLength of it exactly for the first block of an input of at most 65537 bytes |
| `Fragment.CompressFragment` | core/lib/snappy/snappy.cc:337-462 | for any hash function into the table: the output decodes to the block, is at most n/60 + 1 bytes longer, is the greedy encoding BlockCode, and fast literals spill at most into the room behind it |
| `Fragment.EmitMatched` | core/lib/snappy/snappy.cc:358-452 | the main loop keeps: emitted bytes decode to the input before nextEmit within the size budget, all table entries lie before ip, and what is still to come is unchanged |
| `Fragment.EmitTurn` | core/lib/snappy/snappy.cc:370-451 | one turn: literal, then a run of matches, as the greedy encoding prescribes |
| `Fragment.FindCandidate` | core/lib/snappy/snappy.cc:385-406 | the accelerating scan finds the position, candidate and table of the reference scan; every candidate is strictly before ip and agrees on four bytes |
| `Fragment.EmitMatches` | core/lib/snappy/snappy.cc:414-451 | runs of adjacent matches: output, next position and table are those of the reference run, and every copy, self-overlapping ones too, decodes to the input |
| `Fragment.ProbeAfterMatch` | core/lib/snappy/snappy.cc:434-450 | one eight-byte load serves three hashes; both positions are recorded and a hit means four agreeing bytes |
| `Fragment.AppendCopy` | core/lib/snappy/snappy.cc:428-433 | a match of any length at an offset below 65536 decodes to the bytes it matched and pays for the literal before it |
| `Fragment.AppendLiteral` | core/lib/snappy/snappy.cc:408-412 | a literal decodes to its input bytes and its overhead is paid for by its length, up to one byte |
| `Greedy.MatchLengthUnique` | core/lib/snappy/snappy-internal.h:85-119 | the word-at-a-time match length is the byte-wise recursive one |
| `Periodic.RepeatsCode` | core/lib/snappy/snappy.cc:337-462 | a block that repeats itself every p <= 1024 bytes, whose first p words hash apart, becomes one literal, up to the first position from p on that the accelerating scan looks at, and one match for all the rest; just a literal exactly when the block ends less than fifteen bytes behind the position looked at next |
| `Periodic.RunCode` | core/lib/snappy/snappy.cc:337-462 | 17 to 65536 equal bytes become a literal of one byte and copies at distance one, for every hash |
| `Periodic.ApartCode` | core/lib/snappy/snappy.cc:337-462 | a block whose words all hash apart becomes one literal |
| `Periodic.ProbeSurplus` | core/lib/snappy/snappy.cc:385-397 | the scan looks at every position for 32 bytes and never jumps further past a position than a 32nd of it |
| `TwoRuns.TwoRunsCode` | core/lib/snappy/snappy.cc:414-451 | n bytes b and m bytes c, twice: two literals of one byte and four matches, the third and the fourth of which need the two positions filed at the end of a match and the search for a match right there |
| `Restart.RunThenRepeatsCode` | core/lib/snappy/snappy.cc:371-406 | n equal bytes followed by bytes of period p <= 32: the run, a literal of exactly p bytes and one match; however long the run, the scan behind it looks at every position again |
| `Repetition.RunForm` | core/lib/snappy/snappy.cc:730-809 | the whole compressed buffer of 17 to 65536 equal bytes |
| `Repetition.HundredZeros` | core/lib/snappy/snappy.cc:730-809 | a hundred zero bytes: the nine bytes 100, 0, 0, 254, 1, 0, 138, 1, 0 |
| `Repetition.RunFormSize` | core/lib/snappy/snappy.cc:730-809 | n equal bytes, however many, compress to at most n/20 + 22 bytes |
| `Repetition.CopyRunSize` | core/lib/snappy/snappy.cc:224-240 | a match of len bytes costs at most three bytes for every 64 begun |
| `Shortest.ShortestLiteral` | core/lib/snappy/snappy.cc:164-204 | no tag that the decoder reads as a literal of that length is shorter than the header written |
| `Shortest.ShortestCopy` | core/lib/snappy/snappy.cc:206-222 | no tag that the decoder reads as a copy of that offset and length is shorter than the one written |
| `Shortest.CopyRunPieces` | core/lib/snappy/snappy.cc:224-240 | a match of 64 n + rest bytes, rest from 4 to 67, is n copies of 64 and one of rest, or one of 60 and one of the 5 to 7 bytes left |
| `Match.FindMatchLength` | core/lib/snappy/snappy-internal.h:85-119 | the result is the largest number of agreeing bytes within the limit |
| `Match.CompareWords` | core/lib/snappy/snappy-internal.h:96-108 | on a difference, the lowest set bit of the xor divided by eight is the number of equal bytes |
| `Bits.FindLSBSetNonZero` | core/lib/snappy/snappy-stubs-internal.h:403-414 | binary search by shifting finds the lowest set bit |
| `Bits.FindLSBSetNonZero64` | core/lib/snappy/snappy-stubs-internal.h:417-425 | the same for 64 bits in two halves |
| `Bits.LowestDifferenceIsFirstByte` | core/lib/snappy/snappy-internal.h:104-107 | the lowest differing bit of two little-endian words lies in their first differing byte |
| `Bytes.Uint32AtOffsetIsLoad` | core/lib/snappy/snappy.cc:283-307 | shifting one eight-byte load equals the overlapping four-byte load at every offset from 0 to 4 |
| `Bytes.Load32Injective` | core/lib/snappy/snappy.cc:405-406 | comparing four-byte loads compares the four bytes |
| `Hashing.HashInTable` | core/lib/snappy/snappy.cc:63-66 | the hash shifted by 32 - log2(size) is a table index, for every word |
| `Compression.SlotOfWord` | core/lib/snappy/snappy.cc:63-66 | the slot of a word is the top bits of the low 32 bits of its product with 506832829 |
| `Hashing.Log2Floor` | core/lib/snappy/snappy-stubs-internal.h:386-401 | the index of the highest set bit, -1 for zero |
| `Hashing.TableSize` | core/lib/snappy/snappy.cc:261-264 | the least power of two from 256 up that covers the input, capped at 16384 |
| `Hashing.WorkingMemory.GetHashTable` | core/lib/snappy/snappy.cc:255-279 | a zeroed table of that size, in the small array up to 1024 entries, beyond that in the lazily allocated large one |
| `Emit.EmitLiteral` | core/lib/snappy/snappy.cc:164-204 | exactly the literal header and bytes; the fast path changes at most fifteen bytes more |
| `Emit.LiteralEncodes` | core/lib/snappy/snappy.cc:164-204 | header and bytes decode to the literal, after any earlier output |
| `Emit.EmitCopyLessThan64` | core/lib/snappy/snappy.cc:206-222 | the two- or three-byte form of a copy |
| `Emit.CopyEncodes` | core/lib/snappy/snappy.cc:206-222 | that form decodes to the copy and stays within offset < 65536 and 4 <= len <= 64 |
| `Emit.EmitCopy` | core/lib/snappy/snappy.cc:224-240 | the run of copies a match is cut into, never leaving fewer than four bytes |
| `Emit.CopyRunEncodes` | core/lib/snappy/snappy.cc:224-240 | that run decodes to one copy of the whole length, self-overlap included |
| `Copying.IncrementalCopy` | core/lib/snappy/snappy.cc:106-111 | byte-wise copying appends the self-copy of the stream model |
| `Copying.IncrementalCopyFastPath` | core/lib/snappy/snappy.cc:148-160 | terminates, leaves the same bytes as the byte-wise copy for every distance and length, and writes at most ten bytes past the target |
| `Copying.UnalignedCopy64` | core/lib/snappy/snappy-stubs-internal.h:230-239 | eight bytes loaded before any is stored |
| `Stream.CopyIsPattern` | core/lib/snappy/snappy.cc:95-105 | a self-copy repeats the last offset bytes |
| `Stream.CopySplit` | core/lib/snappy/snappy.cc:909-971 | a self-copy can be made in pieces at the same offset |
| `Stream.MatchIsCopy` | core/lib/snappy/snappy.cc:426-433 | a match found in the input, even one overlapping itself, is what the copy at that distance produces |
| `Format.ExpandAppend` | core/lib/snappy/snappy.cc:570-642 | streams of tags can be decoded piecewise |
| `Format.ExpandAfter` | core/lib/snappy/snappy.cc:746-803 | a block that decodes on its own decodes to the same bytes after earlier blocks |
| `Format.ExpandIsDelivered` | core/lib/snappy/snappy.cc:570-642 | what a well-formed stream delivers is what it decodes to |
| `Format.DeliverGrows` | core/lib/snappy/snappy.cc:570-642 | decoding only ever appends, also when the input is corrupt |
| `TagForms.HeaderIsRead` | core/lib/snappy/snappy.cc:588-634 | every form of a tag, written out as bytes (short literal, literal with one to four length bytes, copy with one, two or four offset bytes), reads as its length and offset whatever follows; a length of 0xffffffff + 1 wraps to 0 |
| `TagForms.EveryTagHasForm` | core/lib/snappy/snappy.cc:588-634 | every complete tag is one of those forms, so sizes, lengths, offsets and the wrap are all there is to read |
| `Format.StopVerdict` | core/lib/snappy/snappy.cc:570-642 | the longest run of whole operations within a limit takes all of the input exactly when the input decodes within the limit, and its output is then the result |
| `Format.StopMeaning` | core/lib/snappy/snappy.cc:570-642 | that run keeps the meaning of the stream and ends where the next operation is missing, impossible or too long |
| `Runs.CopySettles` | core/lib/snappy/snappy.cc:604-621 | wherever the regions end, a literal is copied in full exactly when it is there and fits; otherwise what is stored is a prefix of it, all of it if it was only cut short |
| `Runs.DecodeStops` | core/lib/snappy/snappy.cc:570-642 | for every fragmentation and writer, decoding consumes the same run of whole operations and delivers its output; what follows is a prefix of what could be delivered, and is fixed by the bytes and the limit alone unless the stop is a literal too long and a rejected piece of it leaves room below the limit |
| `Runs.RegionsMatter` | core/lib/snappy/snappy.cc:604-621 | that condition is exact: one flat region and single bytes deliver different output if and only if it holds, and single bytes always fill the output up to the limit |
| `Runs.OneRegionStops` | core/lib/snappy/snappy.cc:604-621 | from one flat region nothing of a literal too long arrives, except the bytes that fill a block of the scattered writer |
| `Runs.OutputAfterOverrun` | core/lib/snappy/snappy.cc:604-621 | after a literal too long there is output exactly if there was output before it or a first region of it is accepted |
| `CharTable.EntryIsLayout` | core/lib/snappy/snappy-internal.h:163-207 | each of the 256 table entries packs length, offset bits and extra bytes of its tag |
| `Varint.ParseEncoding` | core/lib/snappy/snappy-stubs-internal.h:452-472 | parsing inverts encoding for every 32-bit value, whatever follows |
| `Varint.Encode32` | core/lib/snappy/snappy-stubs-internal.h:474-500 | the unrolled encoder writes the base-128 encoding |
| `Varint.Parse32WithLimit` | core/lib/snappy/snappy-stubs-internal.h:452-472 | the unrolled parser is the recursive one, overlong and overflowing headers included |
| `Varint.LostBits` | core/lib/snappy/snappy.cc:558-559 | the shift-back test fires exactly when bits would be lost |
| `Decompression.Decompressor.ReadUncompressedLength` | core/lib/snappy/snappy.cc:545-566 | over every fragmentation it accepts the strings Parse32WithLimit accepts, with the same value, and leaves the rest of the input |
| `Decompression.Decompressor.RefillTag` | core/lib/snappy/snappy.cc:645-702 | on success the remaining input is unchanged and a whole tag with five readable bytes is buffered; it fails exactly at the end of the input or on a tag that is cut short, and tells the two apart |
| `Decompression.Decompressor.CompleteTag` | core/lib/snappy/snappy.cc:658-701 | stitching a tag from any number of regions loses and repeats nothing |
| `Decompression.Decompressor.Stitch` | core/lib/snappy/snappy.cc:672-686 | reads on over regions until exactly the needed bytes are there, or the input is too short |
| `Decompression.Decompressor.MoveToScratch` | core/lib/snappy/snappy.cc:670-696 | moving to scratch with the skip of all peeked bytes keeps the remaining input |
| `Decompression.Decompressor.CopyLiteral` | core/lib/snappy/snappy.cc:604-621 | the literal is handed over region by region as `Runs.CopyRegions` says: input, output, buffered bytes and verdict are determined, also when it is cut short or too long |
| `Decompression.Decompressor.TryFastLiteral` | core/lib/snappy/snappy.cc:590-599 | the fast path does not change how the decoding ends and leaves a complete tag buffered without a refill |
| `Decompression.Decompressor.ReadLiteralLength` | core/lib/snappy/snappy.cc:588-603 | the masked four-byte load yields the length of a long literal, 0xffffffff + 1 wrapping to 0 |
| `Decompression.Decompressor.ReadCopy` | core/lib/snappy/snappy.cc:624-634 | the packed table entry and the masked load yield the reference offset and length |
| `Decompression.Decompressor.DecodeCopy` | core/lib/snappy/snappy.cc:623-638 | a copy tag goes on to the same ending, or is where decoding stops with exactly the output before it |
| `Decompression.Decompressor.DecodeLiteral` | core/lib/snappy/snappy.cc:588-622 | a literal tag goes on to the same ending, or is where decoding stops with exactly the pieces of it that were stored |
| `Decompression.Decompressor.DecompressAllTags` | core/lib/snappy/snappy.cc:570-642 | for every byte string, fragmentation and writer the decoding ends as `Runs.Decode` says: the output byte for byte, eof exactly when all tags were consumed, the state of the writer; a caller's buffer is untouched past the limit; terminates |
| `Decompression.MaskedLoadIsTrailer` | core/lib/snappy/snappy.cc:602-603 | masking the load cuts off exactly the bytes after the trailer |
| `Decompression.EntryFields` | core/lib/snappy/snappy-internal.h:163-172 | the three bit fields of a table entry in terms of the format |
| `Uncompression.OutcomeMeaning` | core/lib/snappy/snappy.cc:704-723 | for every compressed buffer, fragmentation and writer: the tag where decoding stops and the output before it depend on the bytes alone, all of the output does unless a literal runs over the declared length with room left, and the verdict is the reference decoder's |
| `Uncompression.AnyFragmentation` | core/lib/snappy/snappy.cc:704-723 | any two fragmentations of the same bytes, into any two writers, stop at the same tag and, unless regions matter for one of the writers there, agree on every byte |
| `Uncompression.FragmentationMatters` | core/lib/snappy/snappy.cc:604-621 | for every compressed buffer and writer, one flat region and single bytes deliver different output if and only if a literal runs over the declared length and a rejected piece of it leaves room |
| `Uncompression.ThreeForTwoDiffers` | core/lib/snappy/snappy.cc:604-621 | a buffer that declares two bytes and holds a literal of three, into any writer: nothing from one region, two bytes from single bytes |
| `Uncompression.SameBytesDifferentOutput` | core/lib/snappy/snappy.cc:1373-1378 | the entry point on that buffer: the sink is left empty by one source and gets two bytes from the other |
| `Uncompression.InternalUncompress` | core/lib/snappy/snappy.cc:704-723 | true exactly when the reference decoder accepts header and tags with the declared length, and then the output is its result and the source is used up; in every case the output is that of `Uncompression.Outcome`, and a caller's buffers keep what they hold past the declared length |
| `Uncompression.InternalUncompressAllTags` | core/lib/snappy/snappy.cc:713-723 | the same after the header, from whatever is buffered |
| `Uncompression.RawUncompress` | core/lib/snappy/snappy.cc:1087-1090 | true exactly when the reference decoder accepts; fills the declared length with its result; on any input the buffer starts with the outcome's output and never changes past the declared length |
| `Uncompression.RawUncompressToIOVec` | core/lib/snappy/snappy.cc:983-987 | the buffers gathered in order are what the flat buffer would be: the result, or the same output of a bad input, and no byte changed past the declared length |
| `Uncompression.IsValidCompressed` | core/lib/snappy/snappy.cc:1143-1146 | answers exactly what every decompression answers, though it stores nothing |
| `Uncompression.UncompressToString` | core/lib/snappy/snappy.cc:1092-1104 | sized by Parse32WithLimit, decoded under ReadUncompressedLength: the reference result or failure |
| `Uncompression.UncompressAsMuchAsPossible` | core/lib/snappy/snappy.cc:1373-1378 | the sink receives exactly the outcome's output; the count returned is its length, plus the size of the last block once more after a literal too long |
| `Uncompression.CountIsWrong` | core/lib/snappy/snappy.cc:1281-1287 | for every source the count is wrong if and only if decoding stops at a literal too long and there was output before it or a first region of it is accepted |
| `Uncompression.CountIsWrongInOneRegion` | core/lib/snappy/snappy.cc:1281-1287 | from one flat region it is wrong if and only if a literal too long comes after some output |
| `Uncompression.ProducedOverstates` | core/lib/snappy/snappy.h:92-98 | a compressed buffer that declares ten bytes and holds literals of five and twenty: ten bytes reach the sink, twenty are reported |
| `ArrayWriters.ArrayWriter.Append` | core/lib/snappy/snappy.cc:1017-1026 | accepted exactly when it fits, and then appended |
| `ArrayWriters.ArrayWriter.TryFastAppend` | core/lib/snappy/snappy.cc:1028-1040 | appends len bytes although it copies sixteen, all below the limit |
| `ArrayWriters.ArrayWriter.AppendFromSelf` | core/lib/snappy/snappy.cc:1042-1075 | all three copy paths append the self-copy; accepted exactly when the offset is in range (zero is not) and it fits; nothing past the limit changes |
| `IOVecWriters.IOVecWriter.Append` | core/lib/snappy/snappy.cc:860-888 | fills buffer after buffer; accepted exactly when the flat writer would accept, with the same contents, and nothing past the declared length changes |
| `IOVecWriters.IOVecWriter.TryFastAppend` | core/lib/snappy/snappy.cc:890-904 | the sixteen-byte path within one buffer |
| `IOVecWriters.IOVecWriter.Locate` | core/lib/snappy/snappy.cc:915-928 | walking back finds the buffer and offset of the copy source |
| `IOVecWriters.IOVecWriter.AppendFromSelf` | core/lib/snappy/snappy.cc:906-972 | self-copies across any number of buffers produce the flat writer's contents |
| `IOVecWriters.IOVecWriter.BuffersHold` | core/lib/snappy/snappy.cc:818-975 | the buffers gathered in order start with the contents |
| `IOVecWriters.IOVecWriter.CopyPiece` | core/lib/snappy/snappy.cc:935-971 | each turn of the copy loop, over an earlier buffer, across a boundary or in place, appends that much of the self-copy and leaves the bytes past the declared length alone |
| `ScatteredWriters.ScatteredWriter.Append` | core/lib/snappy/snappy.cc:1226-1236 | accepted exactly when it fits; on rejection the current block is filled from the rejected bytes |
| `ScatteredWriters.ScatteredWriter.SizeWhenOverfull` | core/lib/snappy/snappy.cc:1281-1287 | after a rejected append Size exceeds the bytes stored by exactly the last block |
| `ScatteredWriters.ScatteredWriter.SlowAppend` | core/lib/snappy/snappy.cc:1273-1302 | block after block, each but the last of exactly 64 KiB |
| `ScatteredWriters.ScatteredWriter.ByteAt` | core/lib/snappy/snappy.cc:1321-1321 | stream byte i is byte i mod 65536 of block i / 65536 |
| `ScatteredWriters.ScatteredWriter.SlowAppendFromSelf` | core/lib/snappy/snappy.cc:1304-1326 | byte-by-byte self-copy through the block list, accepted exactly when it fits |
| `ScatteredWriters.ScatteredWriter.AppendFromSelf` | core/lib/snappy/snappy.cc:1253-1266 | both paths append the self-copy of the flat writer |
| `ScatteredWriters.ScatteredWriter.Flush` | core/lib/snappy/snappy.cc:1344-1355 | the sink receives exactly the contents, also after a rejected append |
| `Writers.Writer.Append` | core/lib/snappy/snappy.cc:465-503 | all four writers accept alike and hold the same stream; of a rejected append they keep nothing, except the scattered writer, which keeps what fills its block |
| `Writers.Writer.TryFastAppend` | core/lib/snappy/snappy.cc:482-502 | the rules the decoder relies on: at most sixteen bytes, five bytes left over, or nothing done |
| `Writers.Writer.AppendFromSelf` | core/lib/snappy/snappy.cc:465-503 | all four writers accept alike and append the same self-copy |
| `Writers.ValidatingWriter.AppendFromSelf` | core/lib/snappy/snappy.cc:1127-1133 | counting alone gives the verdict of a writer that stores |
| `SourceSink.Source.Peek` | core/lib/snappy/snappy-sinksource.h:119-132 | a region is the next bytes of what is left, as many as the fragmentation says, and empty exactly at the end |
| `SourceSink.ArraySink.Append` | core/lib/snappy/snappy-sinksource.cc:74-80 | appends the bytes, whether or not they were built in place |
| `Gregorian.DaysRoundTrip` | core/lib/date/date.h:2609-2628 | every day number is a valid date that converts back to it, negative ones too |
| `Gregorian.DateRoundTrip` | core/lib/date/date.h:2499-2516 | every valid date comes back from its day number |
| `Gregorian.NextDay` | core/lib/date/date.h:2284-2298 | turning the page with the month table and leap rule raises the day number by exactly one |
| `Gregorian.Successor` | core/lib/date/date.h:2609-2628 | counting one day on is turning one page, for dates and weekdays |
| `Gregorian.Monotone` | core/lib/date/date.h:2558-2568 | for valid dates, one is before another by year, month and day if and only if its day number is smaller |
| `Gregorian.Epoch` | core/lib/date/date.h:2499-2516 | 1970-01-01 is day zero |
| `Gregorian.CommentedRanges` | core/lib/date/date.h:2617-2627 | the ranges of doe, yoe, doy, mp, d and m stated in comments hold |
| `Gregorian.YearOfEraCorrect` | core/lib/date/date.h:2620-2620 | the corrected quotient is the year of the era, leap days and century gaps included |
| `Gregorian.FromMarchCorrect` | core/lib/date/date.h:2622-2627 | month and day from the day of a March-based year form a valid date |
| `Gregorian.ToDaysClosed` | core/lib/date/date.h:2506-2515 | the era arithmetic with truncating division equals a closed form with rounding down |
| `Gregorian.YearLength` | core/lib/date/date.h:1400-1403 | a year has 366 days exactly when it is a leap year |
| `Gregorian.YearOfDay` | core/lib/date/date.h:2609-2628 | the year of a day is the one whose first of January starts the span it lies in |
| `Weekdays.WeekdayIsRemainder` | core/lib/date/date.h:1519-1526 | the weekday is the shifted day number modulo seven, negative days included |
| `Weekdays.NextWeekday` | core/lib/date/date.h:1519-1526 | the weekday advances by one modulo seven every day |
| `Weekdays.DifferenceIsForward` | core/lib/date/date.h:1594-1601 | unsigned weekday subtraction gives the days forward, 0 to 6 |
| `Weekdays.PlusDays` | core/lib/date/date.h:1603-1611 | adding days to a weekday agrees with adding them to the date |
| `MonthWeekdays.MonthWeekdayRoundTrip` | core/lib/date/date.h:2795-2801 | every day is a valid indexed weekday of its month that converts back |
| `MonthWeekdays.MonthWeekdayFromRoundTrip` | core/lib/date/date.h:2806-2811 | every valid indexed weekday comes back from its day number |
| `MonthWeekdays.DayOfIndex` | core/lib/date/date.h:2782-2790 | validity of a fifth weekday means that it falls within the month |
| `MonthWeekdays.LastWeekday` | core/lib/date/date.h:2979-2983 | the last weekday is within the last seven days and is the fourth or the fifth, the fifth exactly when there is one |
| `IsoWeeks.IsoFromDays` | core/lib/date/iso_week.h:1494-1510 | the guessed and at most once corrected year gives the date that ISO 8601:2004 section 2.2.10 defines by the week's Thursday |
| `IsoWeeks.IsoRoundTrip` | core/lib/date/iso_week.h:1486-1492 | every day has a valid ISO date that converts back |
| `IsoWeeks.IsoFromRoundTrip` | core/lib/date/iso_week.h:1470-1476 | every valid ISO date comes back from its day number |
| `IsoWeeks.WeeksInYear` | core/lib/date/iso_week.h:1012-1021 | 52 or 53 weeks, the number of Thursdays of the year; 53 exactly for years starting on Thursday, or on Wednesday in leap years |
| `IsoWeeks.YearGuess` | core/lib/date/iso_week.h:1500-1507 | the first guess is the week's year or the next, and the comparison with the start tells which |
| `IsoWeeks.LastWeekMonday` | core/lib/date/iso_week.h:1313-1318 | a weekday of the last week is right exactly for Tuesday to Sunday; Monday comes out seven days late |
| `IsoWeeks.LastWeekMondayIsNextYear` | core/lib/date/iso_week.h:1313-1318 | that Monday is the first day of the next ISO year |
| `Julian.DaysRoundTrip` | core/lib/date/julian.h:2263-2282 | every day number is a valid Julian date that converts back to it |
| `Julian.DateRoundTrip` | core/lib/date/julian.h:2153-2170 | every valid Julian date comes back from its day number |
| `Julian.NextDay` | core/lib/date/julian.h:1947-1952 | the naive Julian calendar agrees with the closed form on every step |
| `Julian.Monotone` | core/lib/date/julian.h:2153-2170 | for valid Julian dates, one is before another by year, month and day if and only if its day number is smaller |
| `Julian.CalendarOffset` | core/lib/date/julian.h:2153-2170 | for the same year, month and day the calendars differ by floor(y/100) - floor(y/400) - 2 days, y the March year |
| `Blake2b.HashPieces` | core/lib/blake/blake2b.cpp:172-349 | init, updates and final of any pieces, keyed or not: section 3.3 of RFC 7693 for the concatenation |
| `Blake2b.HashIsRfc7693` | core/lib/blake/blake2b.cpp:297-349 | the lazily buffered hash is the loop of section 3.3 of RFC 7693 over the padded blocks, for keyed, unkeyed and empty input |
| `Blake2b.LoopIsChained` | core/lib/blake/blake2b.cpp:172-273 | the forward loop of the standard reaches the chaining value before the last block |
| `Blake2b.KeyedStartNeedsKey` | core/lib/blake/blake2b.cpp:155-169 | starting with a padded key block gives the standard's hash for every block function, initial value and message if and only if the key is not empty |
| `Blake2b.HashKeyed` | core/lib/blake/blake2b.cpp:155-169 | Init_key, updates and final hash the padded key block followed by the message, for the empty key too |
| `Blake2bParameters.Parameters.constructor` | core/lib/blake/blake2b.cpp:85-98 | the default parameter block: 64, 0, 1, 1 and sixty zeros |
| `Blake2bParameters.Parameters.SetDigestLength` | core/lib/blake/blake2b.cpp:100-103 | only byte 0 of the block changes |
| `Blake2bParameters.Parameters.SetKeyLength` | core/lib/blake/blake2b.cpp:105-108 | only byte 1 of the block changes |
| `Blake2bParameters.Parameters.SetSalt` | core/lib/blake/blake2b.cpp:116-120 | the salt, extended with zeros, replaces bytes 32 to 47 of the block and nothing else |
| `Blake2bParameters.Parameters.SetPersonal` | core/lib/blake/blake2b.cpp:110-114 | the personalisation, extended with zeros, replaces bytes 48 to 63 of the block and nothing else |
| `Blake2bParameters.InitParam` | core/lib/blake/blake2b.cpp:67-82 | the chaining value is the initial value combined with the 64 bytes of the parameter block |
| `Blake2bParameters.MixedBits` | core/lib/blake/blake2b.cpp:78-81 | bit by bit: each bit of the chaining value is that of the initial value, flipped exactly if the bit of the block byte at the same place is set |
| `Blake2bParameters.ParametersTold` | core/lib/blake/blake2b.cpp:78-81 | different parameter blocks give different initial chaining values |
| `Blake2bParameters.DefaultStart` | core/lib/blake/blake2b.cpp:133-149 | the block of a sequential hash without salt and personalisation changes just the first word, by 0x0101kknn, as in section 3.3 of RFC 7693 |
| `Blake2bParameters.InitialValue` | core/lib/blake/blake2b.cpp:25-31 | each word of the initial value is the fraction of the square root of a prime in 64 bits, as section 2.6 of RFC 7693 defines it |
| `Blake2bParameters.HashWith` | core/lib/blake/blake2b.cpp:67-82 | any parameter block, with the key length and digest length it announces, and any pieces: section 3.3 of RFC 7693 from the combined value |
| `Blake2bParameters.HashFrom` | core/src/crypto/BLAKE.cpp:61-68 | BLAKE::blake2b: the unkeyed BLAKE2b of RFC 7693 with that digest length, of the data from the offset on |
| `ShortMessages.Blake2bOneBlock` | core/lib/blake/blake2b.cpp:276-349 | up to 128 bytes without a key: one compression of 128 bytes, zero-padded, with the byte count and the flag |
| `ShortMessages.Blake2bTwoBlocks` | core/lib/blake/blake2b.cpp:276-349 | 129 to 256 bytes: a block of 128 with counter 128 and no flag, then the rest |
| `ShortMessages.Blake2bKeyed` | core/lib/blake/blake2b.cpp:155-169 | with a key and up to 128 bytes: the zero-padded key of 128 bytes first, flagged exactly if the message is empty |
| `Blake2b.Blake2b.Update` | core/lib/blake/blake2b.cpp:276-317 | the state depends only on the bytes absorbed so far: all blocks but the last compressed, 1 to 128 bytes held back once there are any |
| `Blake2b.Blake2b.CompressBlocks` | core/lib/blake/blake2b.cpp:172-273 | the multi-block loop extends the chain block by block, or compresses one padded block counting only its bytes |
| `Blake2b.Blake2b.IncrementCounter` | core/lib/blake/blake2b.cpp:211-213 | the two counter words add modulo 2^128 |
| `Blake2b.Blake2b.Final` | core/lib/blake/blake2b.cpp:320-349 | the digest is the lazily defined hash of all absorbed bytes, cut to its length; byte 8 i + j of it is byte j of word i |
| `Blake2b.Blake2b.StoreWords` | core/lib/blake/blake2b.cpp:327-343 | storing only the words reached and cutting equals cutting all words |
| `Blake256.Blake256.Update` | core/lib/blake/blake256.c:127-155 | what an update absorbs in every state, with the state of a stream; under Honoured that is exactly its data |
| `Blake256.HonouredIsExact` | core/lib/blake/blake256.c:131-154 | updates append their data, whatever its bytes, if and only if the buffer is empty, or 0 < len < 64, or len mod 64 completes the buffer |
| `Blake256.OrderlyIsExact` | core/lib/blake/blake256.c:127-155 | a sequence of updates of given lengths absorbs its concatenation, whatever the bytes, if and only if each of them is honoured where it comes |
| `Separation.OrderlyDigestsAreExact` | core/lib/blake/blake256.c:127-198 | and it gives the digest of its concatenation, for every block function and whatever the bytes, if and only if the same holds |
| `Separation.DigestsDiffer` | core/lib/blake/blake256.c:162-214 | padding, counters and output lose nothing: any two different messages have different digests under some block function |
| `Blake256.CarefulIsOrderly` | core/lib/blake/blake256.c:127-155 | so it does whenever every update is non-empty and under 64 bytes or starts on an empty buffer |
| `Blake256.UpdateAbsorbs` | core/lib/blake/blake256.c:127-155 | outside it, whole blocks overtake the buffered bytes, and a multiple of 64, zero included, drops them |
| `Blake256.RunIsCounted` | core/lib/blake/blake256.c:131-147 | every full block is compressed with the message bits so far, across the carry between the counter words |
| `Blake256.RewoundTick` | core/lib/blake/blake256.c:162-198 | winding the low counter word back makes the last count land on the message bits, without borrow or carry unless the block is nulled |
| `Blake256.FinalBlocks` | core/lib/blake/blake256.c:162-188 | the three padding cases are section 2.1.3 of the SHA-3 proposal BLAKE with its counters |
| `Blake256.LengthWords` | core/lib/blake/blake256.c:163-167 | the length field is the 64-bit message length; its carry never happens |
| `Blake256.Blake256.Final` | core/lib/blake/blake256.c:162-198 | the digest is the hash of the padded message, for BLAKE-256 and BLAKE-224 tail bits; byte 4 i + j of it is byte 3 - j of word i |
| `Blake256.HashPieces` | core/lib/blake/blake256.c:200-214 | the digest of what any pieces really absorb; of the message itself when the cutting is orderly, as careful ones are |
| `Blake256.HashWhole` | core/lib/blake/blake256.c:208-214 | the one-shot hash is always orderly |
| `ShortMessages.Blake256OneBlock` | core/lib/blake/blake256.c:162-188 | up to 55 bytes: one block, closed by the bit 1 and the length in eight bytes, with the bit count as counter, zero for the empty message |
| `ShortMessages.Blake256FullBlock` | core/lib/blake/blake256.c:162-188 | 56 to 63 bytes: a second block with no message bit and counter zero |
| `ShortMessages.Blake256TwoBlocks` | core/lib/blake/blake256.c:162-188 | 64 to 118 bytes: a block with counter 512, then the rest; counter zero if nothing is left |
| `ShortMessages.DigestCloses` | core/lib/blake/blake256.c:200-214 | digest byte 4 i + j is byte 3 - j of word i of the hash from the initial value with tail bit 1 |
| `HashConstants.InitialValueBlake256` | core/lib/blake/blake256.c:101-108 | each word of the initial value is the fraction of the square root of a prime in 32 bits |
| `HashWords.BigByte32` | core/lib/blake/blake256.c:190-197 | byte 4 i + j of the output is byte 3 - j of word i, by division and remainder |
| `Blake256.HmacBlake256.constructor` | core/lib/blake/blake256.c:224-252 | both hashes have absorbed their key block, made of the key or of its hash when it is longer than a block |
| `Blake256.HmacBlake256.Update` | core/lib/blake/blake256.c:284-288 | the inner hash absorbs what an update absorbs |
| `Blake256.HmacBlake256.Final` | core/lib/blake/blake256.c:296-302 | section 2 of RFC 2104 for the text absorbed after the key block |
| `Blake256.HmacPieces` | core/lib/blake/blake256.c:313-318 | key set-up, updates and final give the HMAC of RFC 2104 of what was absorbed, keys longer than a block included; of the message itself, written out as in section 2 of RFC 2104, when the cutting is orderly |
| `Blake256.MakePad` | core/lib/blake/blake256.c:236-250 | 64 bytes that equal combining the zero-extended key with the constant, and that give the key, then zeros, back when combined with the constant again |
| `Blake256.XorByteBits` | core/lib/blake/blake256.c:240-248 | a bit of the combined byte is set exactly when the bits of the two bytes differ |
| `Blake256.HmacIsRfc2104` | core/lib/blake/blake256.c:224-252 | the HMAC is H(K xor opad, H(K xor ipad, text)) with the pads 0x36 and 0x5c written out 64 times |
| `Sha512.HashPieces` | core/lib/sha512256/sha512_256.cpp:92-262 | init, updates and final of any pieces of a message under 2^61 bytes: FIPS 180-4 from the initial value of the output size |
| `Sha512.Sha512.Update` | core/lib/sha512256/sha512_256.cpp:92-115 | pos is the byte count modulo 128, total the bit count, and all complete blocks are in the chaining value, however the data is split |
| `Sha512.Sha512.TransformBlocks` | core/lib/sha512256/sha512_256.cpp:179-245 | several blocks in one call extend the chain block by block |
| `Sha512.PaddedBlocks` | core/lib/sha512256/sha512_256.cpp:247-259 | one or two final blocks are exactly the padding of section 5.1.2 of FIPS 180-4 |
| `Sha512.LengthField` | core/lib/sha512256/sha512_256.cpp:256-257 | the upper half of the 128-bit length is zero under 2^61 bytes |
| `Sha512.Sha512.Pad` | core/lib/sha512256/sha512_256.cpp:247-258 | the buffer holds the one bit, zeros and the length, in one block or two |
| `Sha512.Sha512.Final` | core/lib/sha512256/sha512_256.cpp:247-262 | the digest is the padded hash, cut to the output size; byte 8 i + j of it is byte 7 - j of word i |
| `Sha512.Sha512.Init` | core/lib/sha512256/sha512_256.cpp:117-177 | the initial value; without a table entry the generation of section 5.3.6 of FIPS 180-4 by this object's own update and final |
| `ShortMessages.Sha512OneBlock` | core/lib/sha512256/sha512_256.cpp:247-262 | up to 111 bytes: one block, closed by the length in sixteen bytes |
| `ShortMessages.Sha512FullBlock` | core/lib/sha512256/sha512_256.cpp:247-262 | 112 to 127 bytes: a second block of 112 zeros and the length |
| `ShortMessages.Sha512TwoBlocks` | core/lib/sha512256/sha512_256.cpp:92-115 | 128 to 239 bytes: a block of the message, then the rest and the padding |
| `HashConstants.InitialValue256` | core/lib/sha512256/sha512_256.cpp:133-142 | the 64 bytes of section 5.3.6.2 of FIPS 180-4 |
| `HashConstants.InitialValue224` | core/lib/sha512256/sha512_256.cpp:123-132 | the 64 bytes of section 5.3.6.1 of FIPS 180-4 |
| `HashConstants.InitialValue384` | core/lib/sha512256/sha512_256.cpp:143-152 | each word is the fraction of the square root of the ninth to sixteenth prime in 64 bits |
| `HashConstants.InitialValue512` | core/lib/sha512256/sha512_256.cpp:153-162 | each word is the fraction of the square root of the first to eighth prime in 64 bits |
| `HashConstants.MaskFlips` | core/lib/sha512256/sha512_256.cpp:166-167 | masking flips bits 0, 2, 5 and 7 of every byte, and masking again undoes it |
| `HashConstants.DecimalReads` | core/lib/sha512256/sha512_256.cpp:168-168 | the digits in the name read, most significant first, as the output size, without leading zeros |
| `HashWords.BigByte` | core/lib/sha512256/sha512_256.cpp:256-261 | byte 8 i + j of the output is byte 7 - j of word i, by division and remainder |
| `HashWords.StoredByte` | core/lib/blake/blake2b.cpp:327-343 | byte 8 i + j of the output is byte j of word i, by division and remainder |
| `Bits.XorIsBitwise` | core/lib/sha512256/sha512_256.cpp:166-167 | combining two numbers by halving combines their bits: set exactly where they differ |
| `HashWords.SwapTwice` | core/lib/sha512256/sha512_256.cpp:173-174 | swapping the words back after final restores them |
| `HashWords.SwapStores` | core/lib/sha512256/sha512_256.cpp:256-261 | storing a swapped word stores it most significant byte first |

## Left out

- Decompression.Decompressor.RefillTag: a region of 4 GiB or more would truncate the 32-bit `peeked_`; the model counts peeked bytes without a bound.
- SourceSink.Source.Peek: a region larger than `Available()`, which core/lib/snappy/snappy-sinksource.h:125-130 permits, is not modelled; the model cuts regions to what is available, as the compressor does and the decoder does not.
- SourceSink.Source.Peek: that a region may be read only until the next Skip is not modelled. Its size depends on the position alone; since no position is peeked at again without a Skip, unless nothing is left, this covers sources whose answer changes from call to call.
- IOVecWriters.IOVecWriter.Append: assumes that the buffers can hold the declared length; with less capacity the writer rejects later, which is not modelled.
- Compression.Compress: requires a source of fewer than 2^32 bytes, since the header truncates longer lengths silently.
- Sinks other than one over a flat array, `AppendAndTakeOwnership` with its deleters, and all allocation and deallocation.
- `Uncompress` from a source to a sink (core/lib/snappy/snappy.cc:1380-1407): the block-by-block branch decodes as `UncompressAsMuchAsPossible` does; the other, a flat writer at an offset inside the sink's own buffer, is not covered, since the model's flat writer starts at index 0 of its array.
- The 32-bit, big-endian and ARM variants of loads, copies and `FindMatchLength`, and the compiler intrinsics in place of the portable bit scans.
- `snappy-c`, `snappy-test` and the string growing helpers.
- Gregorian.DaysRoundTrip: years are unbounded, where the code stores a 16-bit year and a 32-bit day count.
- IsoWeeks.IsoFromRoundTrip: a week number of zero, which the code wraps to a huge unsigned number, is not modelled; valid dates have none.
- Month arithmetic, time-of-day types, formatting, parsing, literals and the other comparison operators of the date headers.
- The rounds of BLAKE2b, BLAKE-256 and SHA-512: the block function is a parameter, so nothing is said about it beyond the state, block, counter and flag it is given.
- Blake256.HmacPieces: the HMAC over BLAKE-224, which differs in constants and in the 28-byte key hash.
- The big-number library `core/lib/bigd`, whose kernels are not part of this model, the database back ends, and all generated bindings and constants.
