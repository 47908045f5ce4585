/** The decompression entry points, for every writer and every fragmentation of the source. */
module Uncompression {
  import opened Bytes
  import opened Format
  import opened ArrayWriters
  import opened IOVecWriters
  import opened ScatteredWriters
  import opened SourceSink
  import opened Runs
  import opened Writers
  import opened Decompression
  import Varint

  /** The length a compressed buffer declares, if its header is complete. */
  function Declared(s: seq<byte>): nat {
    match Varint.Parse(s)
    case None => 0
    case Some(h) => h.value
  }

  /** The tags of a compressed buffer. */
  function Body(s: seq<byte>): seq<byte> {
    match Varint.Parse(s)
    case None => []
    case Some(h) => s[h.size..]
  }

  lemma HeaderParts(s: seq<byte>)
    ensures Varint.Parse(s).None? ==> Uncompress(s) == None && Declared(s) == 0
    ensures Varint.Parse(s).Some? ==>
              Declared(s) == Varint.Parse(s).value.value && Body(s) == s[Varint.Parse(s).value.size..]
  {
  }

  /** How decoding a whole compressed buffer ends that src shows in regions; its first byte is the next to read. */
  ghost function Outcome(src: Source, s: seq<byte>, scattered: bool): (e: Ending)
    requires |s| <= |src.data|
    ensures |e.stop.out| <= Declared(s) && |e.out| <= Declared(s)
  {
    Decode(src, Body(s), [], Declared(s), 0, scattered)
  }

  /**
   Where decoding stops, and after which output, depends on the compressed bytes alone; so does all of the
   output, unless the stop is a literal too long and a rejected piece of it leaves room. The verdict is that of
   the reference decoder.
   */
  lemma OutcomeMeaning(src: Source, s: seq<byte>, scattered: bool)
    requires |s| <= |src.data| && Varint.Parse(s).Some?
    ensures var e := Outcome(src, s, scattered);
            && e.stop == StopWithin(Body(s), [], Declared(s))
            && e.stop.out <= e.out <= Deliver(Body(s), [])
            && (!DependsOnRegions(e.stop, Declared(s), scattered) ==> e.out == FixedOutput(e.stop, Declared(s)))
            && (Uncompress(s).Some? <==> e.stop.rest == [] && |e.out| == Declared(s))
            && (Uncompress(s).Some? ==> Uncompress(s).value == e.out)
            && (|Deliver(Body(s), [])| <= Declared(s) ==> e.out == Deliver(Body(s), []))
  {
    hide Expand, Deliver, Decode, StopWithin, ReadTag, HasTag;
    var body, n := Body(s), Declared(s);
    var e := Outcome(src, s, scattered);
    DecodeStops(src, body, [], n, 0, scattered);
    StopVerdict(body, [], n);
    StopMeaning(body, [], n);
    DeliversWithin(body, [], n);
    NothingOverruns(e.stop, n);
    if |Deliver(body, [])| <= n {
      LeftoverIsDelivered(e.stop, n);
    }
  }

  lemma OutcomeVerdict(src: Source, s: seq<byte>, scattered: bool, h: Varint.Header)
    requires |s| <= |src.data| && Varint.Parse(s) == Some(h)
    ensures var e := Outcome(src, s, scattered);
            && Decode(src, s[h.size..], [], h.value, 0, scattered) == e && Declared(s) == h.value
            && (Uncompress(s).Some? <==> e.stop.rest == [] && |e.out| == h.value)
            && (Uncompress(s).Some? ==> Uncompress(s) == Some(e.out))
  {
    hide Decode, Deliver, Overruns, Leftover, StopWithin;
    OutcomeMeaning(src, s, scattered);
  }

  lemma NothingOverruns(stop: Stop, limit: nat)
    ensures stop.rest == [] ==> !Overruns(stop, limit) && Leftover(stop) == stop.out
  {
  }

  lemma LeftoverIsDelivered(stop: Stop, limit: nat)
    requires |stop.out| <= limit && !Fits(stop.rest, stop.out, limit) && !Overruns(stop, limit)
    requires HasTag(stop.rest) && ReadTag(stop.rest).CopyTag? ==> !(1 <= ReadTag(stop.rest).offset <= |stop.out|)
    ensures Leftover(stop) == Deliver(stop.rest, stop.out)
  {
    hide ReadTag, HasTag, Deliver, Expand;
    if !HasTag(stop.rest) {
      NoTag(stop.rest, stop.out);
    } else {
      var t := ReadTag(stop.rest);
      if t.LiteralTag? {
        LiteralStep(stop.rest, stop.out, t.size, t.len);
      } else {
        CopyStep(stop.rest, stop.out, t.size, t.offset, t.len);
      }
    }
  }

  /** Any two ways of fragmenting the same compressed bytes stop alike, and deliver alike unless regions matter. */
  lemma AnyFragmentation(src: Source, other: Source, s: seq<byte>, scattered: bool, otherScattered: bool)
    requires |s| <= |src.data| && |s| <= |other.data| && Varint.Parse(s).Some?
    ensures var e, f, n := Outcome(src, s, scattered), Outcome(other, s, otherScattered), Declared(s);
            && e.stop == f.stop
            && (!DependsOnRegions(e.stop, n, scattered) && !DependsOnRegions(f.stop, n, otherScattered) ==>
                  e.out == f.out)
  {
    hide Outcome, Deliver, Uncompress, Overruns, StopWithin, FixedOutput, Body, Declared;
    OutcomeMeaning(src, s, scattered);
    OutcomeMeaning(other, s, otherScattered);
  }

  /** That condition is exact: one flat region and single bytes deliver differently exactly when regions matter. */
  lemma FragmentationMatters(whole: Source, bytes: Source, s: seq<byte>, scattered: bool)
    requires |s| <= |whole.data| && |s| <= |bytes.data| && Varint.Parse(s).Some?
    requires OneRegion(whole) && ByteRegions(bytes)
    ensures var e, f := Outcome(whole, s, scattered), Outcome(bytes, s, scattered);
            e.out != f.out <==> DependsOnRegions(e.stop, Declared(s), scattered)
  {
    hide Decode, DependsOnRegions, FixedOutput, Declared, OneRegion, ByteRegions;
    RegionsMatter(whole, bytes, Body(s), [], Declared(s), scattered);
  }

  /** Announces the length to the writer; the decompressor is not affected. */
  method SetLength(ghost decompressor: Decompressor, writer: Writer, declared: uint32)
    requires decompressor.Valid() && !decompressor.eof && decompressor.Apart(writer)
    requires writer.Unused() && declared <= writer.Capacity()
    modifies writer.Repr()
    ensures decompressor.Valid() && !decompressor.eof && decompressor.Apart(writer)
    ensures writer.Valid() && writer.Limit() == declared && writer.Repr() == old(writer.Repr())
    ensures writer.Flat? || writer.IOVec? ==>
              declared <= |old(writer.Buffers())| && writer.Beyond() == old(writer.Buffers())[declared..]
    ensures decompressor.Course(writer)
         == Decode(decompressor.reader, old(decompressor.Rest()), [], declared,
                   old(decompressor.ipLimit - decompressor.ip), writer.Scattered?)
  {
    hide Decode, Writer.Valid, Writer.Unused, Writer.Settled, Writer.Out, Writer.Limit, Writer.Beyond;
    hide Decompressor.Valid, Decompressor.Rest, Decompressor.Buffer, Decompressor.Course, Writer.Buffers;
    writer.SetExpectedLength(declared);
    decompressor.CourseIs(writer);
  }

  /** Decodes everything after the header into a new writer. */
  method InternalUncompressAllTags(decompressor: Decompressor, writer: Writer, declared: uint32) returns (ok: bool)
    requires decompressor.Valid() && !decompressor.eof && decompressor.Apart(writer)
    requires writer.Unused() && declared <= writer.Capacity()
    modifies decompressor, decompressor.reader`pos, decompressor.scratch, writer.Repr()
    ensures decompressor.Valid() && decompressor.Apart(writer) && fresh(writer.Repr() - old(writer.Repr()))
    ensures writer.Settled() && writer.Limit() == declared
    ensures writer.Flat? || writer.IOVec? ==>
              declared <= |writer.Buffers()| && writer.Buffers()[declared..] == old(writer.Buffers())[declared..]
    ensures var e := Decode(decompressor.reader, old(decompressor.Rest()), [], declared,
                            old(decompressor.ipLimit - decompressor.ip), writer.Scattered?);
            Finished(e, writer, decompressor.eof) && (ok <==> e.stop.rest == [] && |e.out| == declared)
    ensures ok ==> decompressor.reader.Rest() == []
  {
    hide Decode, Finished, Writer.Valid, Writer.Unused, Writer.Capacity, Writer.Buffers;
    hide Writer.Settled, Writer.Out, Writer.Limit, Writer.Beyond;
    hide Decompressor.Valid, Decompressor.Rest, Decompressor.Buffer, Decompressor.Course;
    writer.CapacityOfBuffers();
    SetLength(decompressor, writer, declared);
    ghost var e := decompressor.Course(writer);
    decompressor.DecompressAllTags(writer);
    FinishedMeans(e, writer, decompressor.eof);
    if writer.Flat? || writer.IOVec? {
      writer.BeyondLimit();
    }
    if !decompressor.eof {
      return false;
    }
    ok := writer.CheckLength();
  }

  /** Sets up a decompressor and reads the length header (GetUncompressedLength is no more than this). */
  method ReadHeader(r: Source, ghost writer: Writer) returns (decompressor: Decompressor, declared: Option<uint32>)
    requires r.Valid() && writer.Unused() && r !in writer.Repr()
    modifies r`pos
    ensures decompressor.Valid() && !decompressor.eof && decompressor.reader == r && decompressor.Apart(writer)
    ensures decompressor.ip == decompressor.ipLimit
    ensures fresh(decompressor) && fresh(decompressor.scratch) && writer.Unused() && writer.Repr() == old(writer.Repr())
    ensures match Varint.Parse(old(r.Rest()))
            case None => declared == None
            case Some(h) => declared == Some(h.value) && decompressor.Rest() == old(r.Rest())[h.size..]
  {
    hide Varint.Parse, Writer.Unused, Decompressor.Valid, Decompressor.Rest;
    decompressor := new Decompressor(r);
    declared := decompressor.ReadUncompressedLength();
  }

  /** InternalUncompressAllTags in terms of the whole compressed buffer s, whose header has been read. */
  method DecodeBody(decompressor: Decompressor, writer: Writer, declared: uint32, ghost s: seq<byte>)
    returns (ok: bool)
    requires decompressor.Valid() && !decompressor.eof && decompressor.ip == decompressor.ipLimit
    requires decompressor.Apart(writer) && writer.Unused() && declared <= writer.Capacity()
    requires |s| <= |decompressor.reader.data| && Varint.Parse(s).Some? && Varint.Parse(s).value.value == declared
    requires decompressor.Rest() == s[Varint.Parse(s).value.size..]
    modifies decompressor, decompressor.reader`pos, decompressor.scratch, writer.Repr()
    ensures decompressor.Valid() && decompressor.Apart(writer) && fresh(writer.Repr() - old(writer.Repr()))
    ensures writer.Settled() && writer.Limit() == declared == Declared(s)
    ensures writer.Flat? || writer.IOVec? ==>
              declared <= |writer.Buffers()| && writer.Buffers()[declared..] == old(writer.Buffers())[declared..]
    ensures var e := Outcome(decompressor.reader, s, writer.Scattered?); Finished(e, writer, e.stop.rest == [])
    ensures ok <==> Uncompress(s).Some?
    ensures ok ==> writer.Valid() && decompressor.reader.Rest() == [] && Uncompress(s) == Some(writer.Out())
  {
    hide Decode, Declared, Body, Uncompress, Varint.Parse, Outcome, Finished;
    hide Writer.Valid, Writer.Settled, Writer.Out, Writer.Limit, Writer.Unused, Writer.Capacity, Writer.Buffers;
    hide Decompressor.Valid, Decompressor.Rest, Decompressor.Buffer, Decompressor.Apart;
    OutcomeVerdict(decompressor.reader, s, writer.Scattered?, Varint.Parse(s).value);
    ok := InternalUncompressAllTags(decompressor, writer, declared);
    FinishedMeans(Outcome(decompressor.reader, s, writer.Scattered?), writer, decompressor.eof);
  }

  /** The destructor leaves the writer alone. */
  method CloseBehind(decompressor: Decompressor, ghost writer: Writer, ghost s: seq<byte>)
    requires decompressor.Valid() && decompressor.Apart(writer) && writer.Settled() && |s| <= |decompressor.reader.data|
    modifies decompressor.reader`pos
    ensures decompressor.reader.Valid() && decompressor.reader.pos == old(decompressor.reader.pos + decompressor.peeked)
    ensures writer.Repr() == old(writer.Repr()) && unchanged(writer.Repr())
    ensures writer.Settled() && writer.Out() == old(writer.Out()) && writer.Limit() == old(writer.Limit())
    ensures writer.Valid() == old(writer.Valid()) && writer.Buffers() == old(writer.Buffers())
    ensures var e := Outcome(decompressor.reader, s, writer.Scattered?);
            Finished(e, writer, e.stop.rest == []) == old(Finished(e, writer, e.stop.rest == []))
  {
    hide Outcome, Finished, Decode;
    hide Writer.Valid, Writer.Settled, Writer.Out, Writer.Limit, Writer.Unused, Writer.Capacity, Writer.Buffers;
    decompressor.Close();
  }

  /** Decodes a whole source: header, then tags. The source may be fragmented in any way. */
  method InternalUncompress(r: Source, writer: Writer) returns (ok: bool)
    requires r.Valid() && writer.Unused() && r !in writer.Repr() && Declared(r.Rest()) <= writer.Capacity()
    modifies r`pos, writer.Repr()
    ensures r.Valid() && fresh(writer.Repr() - old(writer.Repr()))
    ensures ok <==> Uncompress(old(r.Rest())).Some?
    ensures ok ==> writer.Valid() && r.Rest() == [] && Uncompress(old(r.Rest())) == Some(writer.Out())
    ensures Varint.Parse(old(r.Rest())).None? ==> writer.Unused()
    ensures Varint.Parse(old(r.Rest())).Some? ==>
              && writer.Settled() && writer.Limit() == Declared(old(r.Rest()))
              && var e := Outcome(r, old(r.Rest()), writer.Scattered?);
                 Finished(e, writer, e.stop.rest == [])
    ensures var n := Declared(old(r.Rest()));
            writer.Flat? || writer.IOVec? ==>
              n <= |writer.Buffers()| && writer.Buffers()[n..] == old(writer.Buffers())[n..]
  {
    hide Decode, Declared, Body, Uncompress, Varint.Parse, Outcome, Finished;
    hide Writer.Valid, Writer.Settled, Writer.Out, Writer.Limit, Writer.Unused, Writer.Capacity, Writer.Buffers;
    hide Decompressor.Valid, Decompressor.Rest, Decompressor.Buffer;
    ghost var s := r.Rest();
    HeaderParts(s);
    var decompressor, uncompressedLen := ReadHeader(r, writer);
    writer.CapacityOfBuffers();
    if uncompressedLen.None? {
      return false;
    }
    ok := DecodeBody(decompressor, writer, uncompressedLen.value, s);
    CloseBehind(decompressor, writer, s);
  }

  /** Decompression into a flat buffer: never a byte past the declared length, whatever the input is. */
  method RawUncompress(compressed: Source, uncompressed: array<byte>) returns (ok: bool)
    requires compressed.Valid() && Declared(compressed.Rest()) <= uncompressed.Length
    modifies compressed`pos, uncompressed
    ensures compressed.Valid() && (ok <==> Uncompress(old(compressed.Rest())).Some?)
    ensures var n := Declared(old(compressed.Rest()));
            && uncompressed[n..] == old(uncompressed[n..])
            && (ok ==> compressed.Rest() == [] && Uncompress(old(compressed.Rest())) == Some(uncompressed[..n]))
    ensures Varint.Parse(old(compressed.Rest())).Some? ==>
              Outcome(compressed, old(compressed.Rest()), false).out <= uncompressed[..]
  {
    hide Declared, Uncompress, Outcome, Varint.Parse;
    ghost var s := compressed.Rest();
    var output := new ArrayWriter(uncompressed);
    HeaderParts(s);
    UncompressedLength(s);
    assert Flat(output).Buffers() == uncompressed[..];
    ok := InternalUncompress(compressed, Flat(output));
    assert Flat(output).Buffers() == uncompressed[..];
  }

  lemma UncompressedLength(s: seq<byte>)
    ensures Uncompress(s).Some? ==> |Uncompress(s).value| == Declared(s)
  {
  }

  /** Decompression into separate buffers: gathered in order they are what the flat buffer would be. */
  method RawUncompressToIOVec(compressed: Source, iov: seq<array<byte>>) returns (ok: bool)
    requires compressed.Valid() && Declared(compressed.Rest()) <= BufferStart(iov, |iov|)
    requires iov != [] && forall i, j :: 0 <= i < j < |iov| ==> iov[i] != iov[j]
    modifies compressed`pos, iov
    ensures compressed.Valid() && (ok <==> Uncompress(old(compressed.Rest())).Some?)
    ensures var n, all := Declared(old(compressed.Rest())), Gathered(iov, |iov|);
            && all[n..] == old(Gathered(iov, |iov|))[n..]
            && (ok ==> compressed.Rest() == [] && Uncompress(old(compressed.Rest())) == Some(all[..n]))
    ensures Varint.Parse(old(compressed.Rest())).Some? ==>
              Outcome(compressed, old(compressed.Rest()), false).out <= Gathered(iov, |iov|)
  {
    hide Declared, Uncompress, Outcome, Varint.Parse, IOVecWriter.Shape, IOVecWriter.Holds, Gathered, BufferStart;
    ghost var s := compressed.Rest();
    var output := new IOVecWriter(iov);
    HeaderParts(s);
    UncompressedLength(s);
    ok := InternalUncompress(compressed, IOVec(output));
    if output.Valid() {
      output.BuffersHold();
      assert Gathered(iov, |iov|)[..|output.contents|] == output.contents;
    }
  }

  /** The validator predicts what every other entry point answers, although it stores nothing. */
  method IsValidCompressed(compressed: Source) returns (ok: bool)
    requires compressed.Valid()
    modifies compressed`pos
    ensures compressed.Valid() && (ok <==> Uncompress(old(compressed.Rest())).Some?)
  {
    hide Declared, Uncompress, Outcome, Varint.Parse;
    DeclaredBound(compressed.Rest());
    var writer := new ValidatingWriter();
    ok := InternalUncompress(compressed, Validating(writer));
  }

  lemma DeclaredBound(s: seq<byte>)
    ensures Declared(s) < 0x1_0000_0000
  {
  }

  /** A source that shows all of its bytes at once (ByteArraySource). */
  method ByteArraySource(data: seq<byte>) returns (source: Source)
    ensures fresh(source) && source.Valid() && source.data == data && source.pos == 0
    ensures source.Rest() == data && OneRegion(source)
  {
    source := new Source(data, (pos: nat) => |data|);
  }

  /** Decompression into a string, sized by the unrolled header parser. */
  method UncompressToString(compressed: seq<byte>) returns (r: Option<seq<byte>>)
    ensures r == Uncompress(compressed)
  {
    hide *;
    var header := Varint.Parse32WithLimit(compressed);
    HeaderParts(compressed);
    if header.None? {
      return None;
    }
    var uncompressed := new byte[header.value.value];
    var source := ByteArraySource(compressed);
    var ok := RawUncompress(source, uncompressed);
    if !ok {
      return None;
    }
    assert uncompressed[..Declared(compressed)] == uncompressed[..];
    return Some(uncompressed[..]);
  }

  /** Bytes counted twice in the number of bytes produced: the last block, when a literal too long was rejected. */
  ghost function Overcount(e: Ending, limit: nat): nat {
    if Overruns(e.stop, limit) && e.out != [] then LastBlock(|e.out|) else 0
  }

  lemma SizeAtTheEnd(writer: ScatteredWriter, e: Ending, eof: bool)
    requires Scattered(writer).Settled() && Finished(e, Scattered(writer), eof)
    ensures writer.contents == e.out && writer.Size() == |e.out| + Overcount(e, writer.expected)
  {
    hide Overruns, LastBlock, ScatteredWriter.Shape, ScatteredWriter.Overfull;
    if writer.Overfull() {
      writer.SizeWhenOverfull();
    }
    if writer.Valid() {
      writer.SizeIsLength();
    }
  }

  /**
   Block-by-block decompression to a sink, as far as the input allows. The bytes produced reach the sink; their
   number is reported with the last block counted twice when a literal runs over the declared length.
   */
  method UncompressAsMuchAsPossible(compressed: Source, uncompressed: ArraySink) returns (produced: nat)
    requires compressed.Valid() && uncompressed.Valid()
    requires uncompressed.pos + Declared(compressed.Rest()) <= uncompressed.dest.Length
    modifies compressed`pos, uncompressed`pos, uncompressed.dest
    ensures compressed.Valid() && uncompressed.Valid() && old(uncompressed.pos) <= uncompressed.pos
    ensures OnlyChanged(uncompressed.dest, old(uncompressed.pos), uncompressed.pos)
    ensures var s, out := old(compressed.Rest()), uncompressed.dest[old(uncompressed.pos)..uncompressed.pos];
            if Varint.Parse(s).None? then out == [] && produced == 0
            else
              var e := Outcome(compressed, s, true);
              out == e.out && produced == |out| + Overcount(e, Declared(s))
  {
    hide Declared, Uncompress, Outcome, Overcount, Finished, Varint.Parse;
    hide ScatteredWriter.Shape, ScatteredWriter.Overfull;
    ghost var s := compressed.Rest();
    DeclaredBound(compressed.Rest());
    var writer := new ScatteredWriter();
    var ok := InternalUncompress(compressed, Scattered(writer));
    if Varint.Parse(s).Some? {
      var e := Outcome(compressed, s, true);
      SizeAtTheEnd(writer, e, e.stop.rest == []);
    } else {
      writer.SizeIsLength();
    }
    writer.StatesAreStored();
    writer.Flush(uncompressed);
    produced := writer.Size();
  }

  /**
   The count is wrong exactly when decoding stops at a literal that is too long and something was stored:
   earlier output, or a first piece of the literal that is not the whole of it and fits.
   */
  lemma CountIsWrong(src: Source, s: seq<byte>)
    requires |s| <= |src.data| && Varint.Parse(s).Some?
    ensures var e, n := Outcome(src, s, true), Declared(s);
            Overcount(e, n) != 0 <==> Overruns(e.stop, n) && (e.stop.out != [] || FirstPieceFits(src, e, n))
  {
    hide Decode, FirstPieceFits, Overruns;
    EndsInCopy(src, Body(s), [], Declared(s), 0, true);
    var e := Outcome(src, s, true);
    if Overruns(e.stop, Declared(s)) {
      OutputAfterOverrun(src, e, Declared(s), true);
    }
  }

  /** From one flat region: exactly when the literal too long comes after some output. */
  lemma CountIsWrongInOneRegion(src: Source, s: seq<byte>)
    requires |s| <= |src.data| && Varint.Parse(s).Some? && OneRegion(src)
    ensures var e, n := Outcome(src, s, true), Declared(s);
            Overcount(e, n) != 0 <==> Overruns(e.stop, n) && e.stop.out != []
  {
    hide Decode, Overruns;
    OneRegionStops(src, Body(s), [], Declared(s), 0, true);
  }

  /** A compressed buffer that declares ten bytes, then has a literal of five and one of twenty. */
  function TooLong(five: seq<byte>, twenty: seq<byte>): seq<byte>
    requires |five| == 5 && |twenty| == 20
  {
    [10, 16] + five + [76] + twenty
  }

  /** A literal of n <= 60 bytes in front of more. */
  lemma LiteralInFront(n: nat, data: seq<byte>, more: seq<byte>, out: seq<byte>, limit: nat)
    requires 1 <= n <= 60 && |data| == n
    ensures var s: seq<byte> := [4 * (n - 1)] + data + more;
            && HasTag(s) && ReadTag(s) == LiteralTag(1, n)
            && (|out| + n <= limit ==> StopWithin(s, out, limit) == StopWithin(more, out + data, limit))
            && (|out| + n > limit ==> StopWithin(s, out, limit) == Stop(s, out) && Overruns(Stop(s, out), limit))
  {
    var s: seq<byte> := [4 * (n - 1)] + data + more;
    assert ReadTag(s) == LiteralTag(1, n);
    hide ReadTag, HasTag;
    assert s[1..1 + n] == data && s[1 + n..] == more;
  }

  lemma TooLongStops(five: seq<byte>, twenty: seq<byte>)
    requires |five| == 5 && |twenty| == 20
    ensures var s := TooLong(five, twenty);
            && Varint.Parse(s) == Some(Varint.Header(10, 1))
            && StopWithin(Body(s), [], 10) == Stop([76] + twenty, five)
            && Overruns(Stop([76] + twenty, five), 10) && ReadTag([76] + twenty).size == 1
  {
    hide StopWithin, ReadTag, HasTag, Overruns;
    var s, rest := TooLong(five, twenty), [76] + twenty;
    Varint.ParseUnfold(s, 0, 0);
    assert s[1..] == [16] + five + rest;
    LiteralInFront(5, five, rest, [], 10);
    assert [] + five == five && rest + [] == rest;
    LiteralInFront(20, twenty, [], five, 10);
  }

  lemma TooLongOutcome(src: Source, five: seq<byte>, twenty: seq<byte>)
    requires |five| == 5 && |twenty| == 20 && src.data == TooLong(five, twenty) && OneRegion(src)
    ensures var s := src.data;
            && Varint.Parse(s).Some? && Declared(s) == 10 && Outcome(src, s, true).out == five + twenty[..5]
            && Overcount(Outcome(src, s, true), 10) == 10
  {
    hide TooLong, Decode, StopWithin, Varint.Parse, Overruns, HasTag, ReadTag, Deliver, Leftover, Uncompress, Body;
    var s, rest := src.data, [76] + twenty;
    TooLongStops(five, twenty);
    HeaderParts(s);
    OutcomeMeaning(src, s, true);
    OneRegionStops(src, Body(s), [], 10, 0, true);
    assert rest[1..1 + 5] == twenty[..5] && BlockRoom(5, 10) == 5;
  }

  /** The count promises the bytes produced: here ten bytes reach the sink and twenty are reported. */
  method ProducedOverstates(five: seq<byte>, twenty: seq<byte>) returns (produced: nat, sink: ArraySink)
    requires |five| == 5 && |twenty| == 20
    ensures produced == 20 && sink.pos == 10 <= sink.dest.Length && sink.dest[..10] == five + twenty[..5]
  {
    hide Outcome, Overcount, Declared, Varint.Parse, TooLong, OneRegion;
    var source := ByteArraySource(TooLong(five, twenty));
    TooLongOutcome(source, five, twenty);
    var dest := new byte[10];
    sink := new ArraySink(dest, false);
    produced := UncompressAsMuchAsPossible(source, sink);
  }

  /** A source that shows one byte at a time. */
  method SingleBytes(data: seq<byte>) returns (source: Source)
    ensures fresh(source) && source.Valid() && source.data == data && source.pos == 0
    ensures source.Rest() == data && ByteRegions(source)
  {
    source := new Source(data, (pos: nat) => 1);
  }

  /** A compressed buffer that declares two bytes and has a literal of three. */
  function ThreeForTwo(three: seq<byte>): seq<byte>
    requires |three| == 3
  {
    [2, 8] + three
  }

  /** Whatever the writer, nothing arrives from one region and two bytes arrive from single bytes. */
  lemma ThreeForTwoDiffers(whole: Source, bytes: Source, three: seq<byte>, scattered: bool)
    requires |three| == 3 && whole.data == bytes.data == ThreeForTwo(three)
    requires OneRegion(whole) && ByteRegions(bytes)
    ensures var s := ThreeForTwo(three);
            && Varint.Parse(s).Some? && Declared(s) == 2
            && Outcome(whole, s, scattered).out == [] && Overcount(Outcome(whole, s, scattered), 2) == 0
            && Outcome(bytes, s, scattered).out == three[..2] && Overcount(Outcome(bytes, s, scattered), 2) == 2
  {
    hide Decode, StopWithin, Overruns, ReadTag, HasTag, OneRegion, ByteRegions, Deliver;
    var s := ThreeForTwo(three);
    Varint.ParseUnfold(s, 0, 0);
    HeaderParts(s);
    assert s[1..] == [8] + three + [] && [8] + three + [] == [8] + three;
    LiteralInFront(3, three, [], [], 2);
    OutcomeMeaning(whole, s, scattered);
    OutcomeMeaning(bytes, s, scattered);
    RegionsMatter(whole, bytes, s[1..], [], 2, scattered);
    OneRegionStops(whole, s[1..], [], 2, 0, scattered);
    assert ([8] + three)[1..1 + 2] == three[..2];
  }

  /** The same five bytes in two fragmentations: the sink receives nothing from one, two bytes from the other. */
  method SameBytesDifferentOutput(three: seq<byte>) returns (fromWhole: ArraySink, fromBytes: ArraySink)
    requires |three| == 3
    ensures fromWhole.pos == 0
    ensures fromBytes.pos == 2 <= fromBytes.dest.Length && fromBytes.dest[..2] == three[..2]
  {
    hide Outcome, Overcount, Declared, Varint.Parse, ThreeForTwo, OneRegion, ByteRegions;
    var whole := ByteArraySource(ThreeForTwo(three));
    var bytes := SingleBytes(ThreeForTwo(three));
    ThreeForTwoDiffers(whole, bytes, three, true);
    var dest, other := new byte[2], new byte[2];
    fromWhole := new ArraySink(dest, false);
    fromBytes := new ArraySink(other, false);
    var produced := UncompressAsMuchAsPossible(whole, fromWhole);
    produced := UncompressAsMuchAsPossible(bytes, fromBytes);
  }
}
