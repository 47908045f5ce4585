/** SnappyDecompressor: a resumable tag decoder over an arbitrarily fragmented source. */
module Decompression {
  import opened Arithmetic
  import opened Bytes
  import opened Stream
  import opened Format
  import opened ArrayWriters
  import opened SourceSink
  import opened Runs
  import opened Writers
  import CharTable
  import Varint

  /** The decoding has ended as e says: its output, its verdict on the input, and the state of the writer. */
  ghost predicate Finished(e: Ending, writer: Writer, eof: bool)
    requires writer.Settled()
    reads writer.Repr(), if writer.Scattered? then {writer.scattered} else {}
  {
    && writer.Out() == e.out && (eof <==> e.stop.rest == [])
    && (if Overruns(e.stop, writer.Limit()) then writer.Spilled() else writer.Intact())
    && (eof ==> writer.Valid())
  }

  /** The low two bits of a tag byte announce a literal. */
  predicate LiteralByte(c: byte) {
    c % 4 == 0
  }

  /** x & wordmask[k] */
  function MaskLow(x: uint32, k: nat): nat
    requires k <= 4
  {
    match k
    case 0 => 0
    case 1 => x % 0x100
    case 2 => x % 0x1_0000
    case 3 => x % 0x100_0000
    case 4 => x
  }

  /** Masking the 32-bit load after the tag byte yields the tag's trailer, whatever bytes follow it. */
  lemma MaskedLoadIsTrailer(buf: seq<byte>, i: nat, s: seq<byte>, k: nat)
    requires i + 4 <= |buf| && k <= 4 && k < |s|
    requires s[1..1 + k] == buf[i..i + k]
    ensures MaskLow(Load32(buf, i), k) == Trailer(s, k)
  {
    var b0, b1, b2, b3 := buf[i], buf[i + 1], buf[i + 2], buf[i + 3];
    var t, u := s[1..1 + k], buf[i..i + k];
    assert k >= 1 ==> s[1] == t[0] == u[0] == b0;
    assert k >= 2 ==> s[2] == t[1] == u[1] == b1;
    assert k >= 3 ==> s[3] == t[2] == u[2] == b2;
    assert k >= 4 ==> s[4] == t[3] == u[3] == b3;
    if k == 1 {
      DivWord(Word(b0, b1, b2, b3), 0x100, b0, Word(b1, b2, b3, 0));
    } else if k == 2 {
      DivWord(Word(b0, b1, b2, b3), 0x1_0000, Word(b0, b1, 0, 0), Word(b2, b3, 0, 0));
    } else if k == 3 {
      DivWord(Word(b0, b1, b2, b3), 0x100_0000, Word(b0, b1, b2, 0), b3);
    }
  }

  /** The fields of a table entry in terms of the format. */
  lemma EntryFields(c: byte)
    ensures CharTable.Entry(c) / 0x800 == ExtraBytes(c)
    ensures c % 4 != 0 ==> CharTable.Entry(c) % 0x100 == CopyLength(c)
    ensures c % 4 != 0 ==> CharTable.Entry(c) / 0x100 % 8 * 0x100 == OffsetHigh(c)
  {
    hide CharTable.Entry;
    CharTable.EntryIsLayout(c);
    if c % 4 == 0 && c / 4 < 60 {
      PackedFields(0, 0, c / 4 + 1);
    } else if c % 4 == 0 {
      PackedFields(c / 4 - 59, 0, 1);
    } else if c % 4 == 1 {
      PackedFields(1, c / 32, 4 + c / 4 % 8);
    } else {
      PackedFields(if c % 4 == 2 then 2 else 4, 0, c / 4 + 1);
    }
  }

  lemma PackedFields(extra: nat, high: nat, length: nat)
    requires extra <= 4 && high < 8 && length < 0x100
    ensures var e := 0x800 * extra + 0x100 * high + length;
            e / 0x800 == extra && e % 0x100 == length && e / 0x100 % 8 == high
  {
  }

  /** The two parts of an offset never overflow 32 bits, since the high bits only come with one trailer byte. */
  lemma OffsetBound(c: byte, s: seq<byte>)
    requires HasTag(s) && s[0] == c
    ensures OffsetHigh(c) + Trailer(s, ExtraBytes(c)) < 0x1_0000_0000
  {
  }

  lemma FinishedMeans(e: Ending, writer: Writer, eof: bool)
    requires writer.Settled() && Finished(e, writer, eof)
    ensures writer.Out() == e.out && (eof <==> e.stop.rest == []) && (eof ==> writer.Valid())
  {
  }

  /** A copy the writer refuses is where the decoding stops. */
  lemma CopyStops(s: seq<byte>, o: seq<byte>, writer: Writer)
    requires HasTag(s) && ReadTag(s).CopyTag? && writer.Settled() && writer.Out() == o && writer.Intact()
    ensures Finished(Ending(Stop(s, o), 0, o), writer, false)
  {
  }

  /** A literal whose header is buffered. */
  lemma LiteralCourse(src: Source, s: seq<byte>, o: seq<byte>, limit: nat, ahead: nat, scattered: bool)
    requires ahead <= |s| <= |src.data| && |o| <= limit
    requires HasTag(s) && ReadTag(s).LiteralTag? && ReadTag(s).size <= ahead
    ensures var t := ReadTag(s);
            var r := CopyRegions(src, s[t.size..], t.len, o, limit, ahead - t.size, scattered);
            && (r.Whole? ==>
                  && |r.rest| < |s|
                  && Decode(src, s, o, limit, ahead, scattered)
                     == Decode(src, r.rest, r.out, limit, r.ahead, scattered))
            && (r.Cut? ==>
                  && (r.over <==> Overruns(Stop(s, o), limit))
                  && Decode(src, s, o, limit, ahead, scattered) == Ending(Stop(s, o), ahead - t.size, r.out))
  {
    hide Decode, CopyRegions, HasTag, Overruns;
    LiteralIsCopied(src, s, o, limit, ahead, scattered);
    LiteralTaken(src, s, o, limit, ahead - ReadTag(s).size, scattered);
  }

  /** A copy whose tag is buffered. */
  lemma CopyTagCourse(src: Source, s: seq<byte>, o: seq<byte>, limit: nat, ahead: nat, scattered: bool)
    requires ahead <= |s| <= |src.data| && |o| <= limit
    requires HasTag(s) && ReadTag(s).CopyTag? && ReadTag(s).size <= ahead
    ensures var t := ReadTag(s);
            Decode(src, s, o, limit, ahead, scattered) ==
            if !CopyFits(o, limit, t.offset, t.len) then Ending(Stop(s, o), 0, o)
            else Decode(src, s[t.size..], CopyFromSelf(o, t.offset, t.len), limit, ahead - t.size, scattered)
  {
    hide Decode, HasTag;
    CopyIsApplied(src, s, o, limit, ahead, scattered);
  }

  lemma TooLongNow(src: Source, s: seq<byte>, len: nat, o: seq<byte>, limit: nat, ahead: nat, scattered: bool)
    requires ahead <= |s| <= |src.data| && |o| <= limit < |o| + ahead && ahead < len
    ensures CopyRegions(src, s, len, o, limit, ahead, scattered) == Cut(o + s[..Spill(scattered, |o|, limit)], true)
  {
  }

  lemma CutShortNow(src: Source, s: seq<byte>, len: nat, o: seq<byte>, limit: nat, scattered: bool)
    requires |s| <= |src.data| && |o| + |s| <= limit && |s| < len
    ensures CopyRegions(src, s, len, o, limit, |s|, scattered) == Cut(o + s, false)
  {
  }

  lemma LastPiece(src: Source, s: seq<byte>, len: nat, o: seq<byte>, limit: nat, ahead: nat, scattered: bool)
    requires len <= ahead <= |s| <= |src.data| && |o| <= limit
    ensures CopyRegions(src, s, len, o, limit, ahead, scattered)
         == if |o| + len <= limit then Whole(s[len..], o + s[..len], ahead - len)
            else Cut(o + s[..Spill(scattered, |o|, limit)], true)
  {
  }

  lemma PrefixOfPrefix(s: seq<byte>, chunk: seq<byte>, k: nat)
    requires k <= |chunk| && chunk <= s
    ensures s[..k] == chunk[..k]
  {
  }

  lemma ShortLiteral(s: seq<byte>)
    requires s != [] && LiteralByte(s[0]) && ShortLength(s[0]) <= 60
    ensures HasTag(s) && ReadTag(s) == LiteralTag(1, ShortLength(s[0]))
  {
  }

  lemma FastLiteral(src: Source, s: seq<byte>, o: seq<byte>, limit: nat, ahead: nat, data: seq<byte>, scattered: bool)
    requires 1 + |data| <= ahead <= |s| <= |src.data| && |o| + |data| <= limit
    requires LiteralByte(s[0]) && ShortLength(s[0]) == |data| <= 16 && s[1..1 + |data|] == data
    ensures Decode(src, s, o, limit, ahead, scattered)
         == Decode(src, s[1 + |data|..], o + data, limit, ahead - 1 - |data|, scattered)
  {
    hide Decode, CopyRegions, ReadTag, HasTag, LiteralByte, ShortLength;
    var len := |data|;
    ShortLiteral(s);
    LiteralIsCopied(src, s, o, limit, ahead, scattered);
    LastPiece(src, s[1..], len, o, limit, ahead - 1, scattered);
    assert s[1..][len..] == s[1 + len..];
    assert s[1..][..len] == data;
  }

  class Decompressor {
    const reader: Source
    const scratch: array<byte>  // up to one tag, stitched together from several regions
    var region: seq<byte>       // the last region shown by the reader
    var inScratch: bool         // the input position is in scratch rather than in region
    var ip: nat
    var ipLimit: nat
    var peeked: nat             // bytes of the region not yet skipped in the reader
    var eof: bool               // the end of the input was reached without an error

    function Buffer(): seq<byte>
      reads this, scratch
    {
      if inScratch then scratch[..] else region
    }

    ghost predicate Valid()
      reads this, reader, scratch
      ensures Valid() ==> ip <= ipLimit <= |Buffer()| && reader.Valid()
    {
      && reader.Valid() && scratch.Length == MAXIMUM_TAG_LENGTH
      && ip <= ipLimit <= |Buffer()|
      && (inScratch ==> peeked == 0 && ipLimit <= reader.pos)
      && (!inScratch ==> ipLimit == peeked == |region| && region <= reader.Rest())
    }

    /** The input not yet decoded: what is buffered, then what the reader has beyond it. */
    ghost function Rest(): (s: seq<byte>)
      requires Valid()
      reads this, reader, scratch
      ensures ipLimit - ip <= |s| <= |reader.data|
    {
      Buffer()[ip..ipLimit] + reader.Rest()[peeked..]
    }

    /** How the decoding will end from here. */
    ghost function Course(writer: Writer): Ending
      requires Valid() && writer.Settled()
      reads this, reader, scratch, writer.Repr(), if writer.Scattered? then {writer.scattered} else {}
    {
      Decode(reader, Rest(), writer.Out(), writer.Limit(), ipLimit - ip, writer.Scattered?)
    }

    lemma CourseIs(writer: Writer)
      requires Valid() && writer.Settled()
      ensures Course(writer)
           == Decode(reader, Rest(), writer.Out(), writer.Limit(), ipLimit - ip, writer.Scattered?)
    {
    }

    /** How the copying of a literal with len more bytes will end from here. */
    ghost function CopyCourse(writer: Writer, len: nat): Literal
      requires Valid() && writer.Settled()
      reads this, reader, scratch, writer.Repr(), if writer.Scattered? then {writer.scattered} else {}
    {
      CopyRegions(reader, Rest(), len, writer.Out(), writer.Limit(), ipLimit - ip, writer.Scattered?)
    }

    /** A whole tag is buffered, and five bytes can be loaded from its start. */
    ghost predicate Ready()
      reads this, scratch
    {
      && ip < ipLimit <= |Buffer()| && ip + MAXIMUM_TAG_LENGTH <= |Buffer()|
      && ip + ExtraBytes(Buffer()[ip]) < ipLimit
    }

    constructor (reader: Source)
      requires reader.Valid()
      ensures Valid() && this.reader == reader && fresh(scratch) && Rest() == reader.Rest() && Unread()
      ensures reader.pos == old(reader.pos)
    {
      this.reader := reader;
      scratch := new byte[MAXIMUM_TAG_LENGTH];
      region, inScratch := [], false;
      ip, ipLimit, peeked := 0, 0, 0;
      eof := false;
    }

    /** Nothing was read yet. */
    ghost predicate Unread()
      requires Valid()
      reads this, reader, scratch
    {
      !inScratch && region == [] && ip == ipLimit && !eof
    }

    /** One byte straight from the reader. */
    method ReadByte() returns (c: Option<byte>)
      requires Valid() && Unread()
      modifies reader`pos
      ensures Valid() && Unread()
      ensures old(Rest()) == [] ==> c == None && Rest() == []
      ensures old(Rest()) != [] ==> c == Some(old(Rest())[0]) && Rest() == old(Rest())[1..]
    {
      var ip := reader.Peek();
      if ip == [] {
        return None;
      }
      assert ip[0] == reader.Rest()[0];
      c := Some(ip[0]);
      reader.Skip(1);
    }

    /**
     Reads the length header a byte at a time, looking for bits that a 32-bit shift would lose. It accepts
     what the unrolled parser accepts and reads the same length.
     */
    method ReadUncompressedLength() returns (result: Option<uint32>)
      requires Valid() && Unread()
      modifies reader`pos
      ensures Valid() && Unread()
      ensures match Varint.Parse(old(Rest()))
              case None => result == None
              case Some(h) => result == Some(h.value) && Rest() == old(Rest())[h.size..]
    {
      hide Varint.ParseFrom, Varint.Parse, Valid, Unread, Rest;
      ghost var s := Rest();
      Varint.ParseStart(s);
      var value, i := 0, 0;
      while true
        invariant 0 <= i <= Varint.MAX_32 && 0 <= value < Varint.Shift7(1, i)
        invariant Valid() && Unread() && i <= |s| && Rest() == s[i..]
        invariant Varint.Parse(s) == Varint.ParseFrom(s, i, value)
        decreases Varint.MAX_32 - i
      {
        Varint.ParseUnfold(s, i, value);
        if 7 * i >= 32 {
          return None;
        }
        var next := ReadByte();
        if next.None? {
          return None;
        }
        var c: nat := next.value;
        var val: nat := c % 0x80;
        var shifted: nat := Varint.Shift7(val, i) % 0x1_0000_0000;
        Varint.LostBits(val, i);
        if shifted / Varint.Shift7(1, i) != val {
          return None;
        }
        value := value + shifted;  // the bits or-ed in are all above those already there
        if c < 0x80 {
          return Some(value);
        }
        i := i + 1;
      }
    }

    /** The destructor: skips the bytes still peeked at. */
    method Close()
      requires Valid()
      modifies reader`pos
      ensures reader.Valid() && reader.pos == old(reader.pos) + peeked
    {
      reader.Skip(peeked);
    }

    /** Skips all peeked bytes once the buffer is used up and shows the next region. */
    method FetchRegion()
      requires Valid() && ip == ipLimit
      modifies this, reader`pos
      ensures Valid() && Rest() == old(Rest()) && eof == old(eof)
      ensures ip == 0 && !inScratch && (ipLimit == 0 <==> Rest() == [])
      ensures ipLimit == reader.RegionAt(|reader.data| - |Rest()|)
    {
      hide Rest;
      AllBufferedUsed();
      reader.Skip(peeked);
      region := reader.Peek();
      inScratch := false;
      ip, ipLimit, peeked := 0, |region|, |region|;
      FreshRegion();
    }

    lemma AllBufferedUsed()
      requires Valid() && ip == ipLimit
      ensures peeked <= |reader.Rest()| && Rest() == reader.data[reader.pos + peeked..]
    {
    }

    lemma FreshRegion()
      requires Valid() && !inScratch && ip == 0
      ensures Rest() == reader.data[reader.pos..] && |reader.data| - |Rest()| == reader.pos
    {
    }

    /** Moves the buffered bytes to the front of scratch, from where all of them can be read safely. */
    method MoveToScratch()
      requires Valid() && ipLimit - ip < MAXIMUM_TAG_LENGTH
      modifies this, reader`pos, scratch
      ensures Valid() && Rest() == old(Rest()) && eof == old(eof)
      ensures inScratch && ip == 0 && ipLimit == old(ipLimit - ip)
    {
      var have := Buffer()[ip..ipLimit];
      Memcpy(scratch, 0, have);
      reader.Skip(peeked);
      inScratch, peeked := true, 0;
      ip, ipLimit := 0, |have|;
      assert scratch[..][0..|have|] == scratch[0..|have|] == have;
    }

    /** Reads on, over as many regions as it takes, until needed bytes are in scratch. */
    method Stitch(needed: nat) returns (ok: bool)
      requires Valid() && inScratch && ip == 0 && ipLimit < needed <= MAXIMUM_TAG_LENGTH
      modifies this, reader`pos, scratch
      ensures Valid() && inScratch && ip == 0 && eof == old(eof) && Rest() == old(Rest())
      ensures ok <==> |old(Rest())| >= needed
      ensures ok ==> ipLimit == needed
      ensures ipLimit >= old(ipLimit)
    {
      while ipLimit < needed
        invariant Valid() && inScratch && ip == 0 && old(ipLimit) <= ipLimit <= needed && eof == old(eof)
        invariant Rest() == old(Rest())
      {
        var src := reader.Peek();
        if src == [] {
          return false;
        }
        var toAdd := Min(needed - ipLimit, |src|);
        AddToScratch(src[..toAdd]);
      }
      return true;
    }

    method AddToScratch(more: seq<byte>)
      requires Valid() && inScratch && ip == 0 && ipLimit + |more| <= MAXIMUM_TAG_LENGTH && more <= reader.Rest()
      modifies this`ipLimit, reader`pos, scratch
      ensures Valid() && Rest() == old(Rest()) && ipLimit == old(ipLimit) + |more|
    {
      ghost var have, ahead := scratch[..][0..ipLimit], reader.Rest();
      Memcpy(scratch, ipLimit, more);
      assert scratch[..][0..ipLimit + |more|] == have + more;
      ipLimit := ipLimit + |more|;
      reader.Skip(|more|);
      assert ahead == more + reader.Rest();
    }

    lemma HeadOfRest()
      requires Valid() && ip < ipLimit
      ensures Rest() != [] && Rest()[0] == Buffer()[ip] && |Rest()| >= ipLimit - ip
    {
    }

    /** What is buffered after completing the tag, when ahead bytes were buffered before: no more than it takes. */
    ghost predicate Completed(ahead: nat)
      requires Valid()
      reads this, reader, scratch
    {
      && HasTag(Rest())
      && ipLimit - ip == Max(if ahead == 0 then reader.RegionAt(|reader.data| - |Rest()|) else ahead,
                             1 + ExtraBytes(Rest()[0]))
    }

    /** Makes a whole tag readable, or reports the end of the input or a tag that is cut short. */
    method RefillTag() returns (ok: bool)
      requires Valid() && !eof
      modifies this, reader`pos, scratch
      ensures Valid() && (ok ==> Rest() == old(Rest()) && Ready() && !eof && Completed(old(ipLimit - ip)))
      ensures !ok ==> !HasTag(old(Rest())) && (eof <==> old(Rest()) == []) && (eof ==> reader.Rest() == [])
    {
      hide Ready, Valid, Rest, Buffer, HasTag, ExtraBytes;
      if ip == ipLimit {
        FetchRegion();
        if ipLimit == 0 {
          MarkEnd();
          return false;
        }
      }
      ok := CompleteTag();
    }

    method MarkEnd()
      requires Valid() && !inScratch && ipLimit == 0 && Rest() == []
      modifies this`eof
      ensures Valid() && eof && reader.Rest() == [] && !HasTag(old(Rest()))
    {
      assert Rest() == reader.Rest();
      eof := true;
    }

    /** The second half of RefillTag: a tag byte is buffered, and the bytes it needs are brought next to it. */
    method CompleteTag() returns (ok: bool)
      requires Valid() && ip < ipLimit
      modifies this, reader`pos, scratch
      ensures Valid() && eof == old(eof)
      ensures ok ==> Rest() == old(Rest()) && Ready() && Completed(old(ipLimit - ip))
      ensures !ok ==> old(Rest()) != [] && !HasTag(old(Rest()))
    {
      HeadOfRest();
      var c := Buffer()[ip];
      EntryFields(c);
      hide CharTable.Entry, ExtraBytes;
      var needed := CharTable.Entry(c) / 0x800 + 1;
      var nbuf := ipLimit - ip;
      if nbuf >= MAXIMUM_TAG_LENGTH {
        return true;
      }
      MoveToScratch();
      ok := true;
      if nbuf < needed {
        ok := Stitch(needed);
      }
      HeadOfRest();
    }

    /** MAYBE_REFILL: with five bytes in the buffer any tag is complete. */
    method MaybeRefill() returns (ok: bool)
      requires Valid() && !eof
      modifies this, reader`pos, scratch
      ensures Valid() && (ok ==> Rest() == old(Rest()) && Ready() && !eof && Completed(old(ipLimit - ip)))
      ensures !ok ==> !HasTag(old(Rest())) && (eof <==> old(Rest()) == []) && (eof ==> reader.Rest() == [])
    {
      if ipLimit - ip < MAXIMUM_TAG_LENGTH {
        ok := RefillTag();
      } else {
        ok := true;
      }
    }

    /** The decoder's own state is not part of the writer's. */
    ghost predicate Apart(writer: Writer)
      reads if writer.Scattered? then {writer.scattered} else {}
    {
      this !in writer.Repr() && reader !in writer.Repr() && scratch !in writer.Repr()
    }

    lemma ReadyIsAhead()
      requires Valid() && Ready()
      ensures HasTag(Rest()) && ip + ReadTag(Rest()).size <= ipLimit
      ensures Rest()[0] == Buffer()[ip] && ReadTag(Rest()).LiteralTag? == LiteralByte(Buffer()[ip])
    {
      HeadOfRest();
    }

    /** A ready tag is the next tag of the input, and a masked load after the tag byte is its trailer. */
    lemma ReadyTag()
      requires Valid() && Ready()
      ensures HasTag(Rest()) && Rest()[0] == Buffer()[ip]
      ensures var k := ExtraBytes(Buffer()[ip]);
              MaskLow(Load32(Buffer(), ip + 1), k) == Trailer(Rest(), k)
    {
      HeadOfRest();
      var b, k := Buffer(), ExtraBytes(Buffer()[ip]);
      assert Rest()[1..1 + k] == b[ip..ipLimit][1..1 + k];
      SliceOfSlice(b, ip, ipLimit, 1, 1 + k);
      MaskedLoadIsTrailer(b, ip + 1, Rest(), k);
    }

    lemma NextInput(n: nat)
      requires Valid() && ip + n <= ipLimit
      ensures n <= |Rest()| && Rest()[..n] == Buffer()[ip..ip + n]
    {
    }

    lemma NextLiteral(src: seq<byte>, n: nat)
      requires Valid() && ip < ipLimit && src == Buffer()[ip + 1..ipLimit] && n <= |src|
      ensures 1 + n <= |Rest()| && Rest()[1..1 + n] == src[..n]
    {
      var b := Buffer()[ip..ipLimit];
      assert b[1..] == src;
      assert Rest()[1..1 + n] == b[1..1 + n] == b[1..][..n];
    }

    method Advance(n: nat)
      requires Valid() && ip + n <= ipLimit
      modifies this`ip
      ensures Valid() && ip == old(ip) + n && n <= |old(Rest())| && Rest() == old(Rest())[n..]
    {
      assert Buffer()[ip..ipLimit][n..] == Buffer()[ip + n..ipLimit];
      ip := ip + n;
    }

    /** Hands the next n buffered bytes to the writer. */
    method AppendBuffered(writer: Writer, n: nat) returns (ok: bool)
      requires Valid() && !eof && writer.Valid() && Apart(writer) && n <= ipLimit - ip
      modifies this`ip, writer.Repr()
      ensures Valid() && Apart(writer) && fresh(writer.Repr() - old(writer.Repr())) && writer.Settled()
      ensures writer.Limit() == old(writer.Limit()) && writer.Beyond() == old(writer.Beyond())
      ensures n <= |old(Rest())| && (ok <==> |old(writer.Out())| + n <= writer.Limit())
      ensures ok ==> writer.Valid() && ip == old(ip) + n && Rest() == old(Rest())[n..]
      ensures ok ==> writer.Out() == old(writer.Out()) + old(Rest())[..n]
      ensures !ok ==> writer.Spilled()
      ensures !ok ==> var k := Spill(writer.Scattered?, |old(writer.Out())|, writer.Limit());
                      writer.Out() == old(writer.Out()) + old(Rest())[..k]
    {
      hide Valid, Rest, Buffer, Spill;
      hide Writer.Valid, Writer.Settled, Writer.Out, Writer.Limit, Writer.Beyond, Writer.Spilled;
      ghost var s, o := Rest(), writer.Out();
      var chunk := Buffer()[ip..ip + n];
      NextInput(n);
      ok := writer.Append(chunk);
      if !ok {
        PrefixOfPrefix(s, chunk, Spill(writer.Scattered?, |o|, writer.Limit()));
        return;
      }
      Advance(n);
    }

    /** FetchRegion leaves the writer alone. */
    method NextRegion(ghost writer: Writer)
      requires Valid() && ip == ipLimit && writer.Valid() && Apart(writer)
      modifies this, reader`pos
      ensures Valid() && Rest() == old(Rest()) && eof == old(eof) && ip == 0 && (ipLimit == 0 <==> Rest() == [])
      ensures ipLimit == reader.RegionAt(|reader.data| - |Rest()|)
      ensures Apart(writer) && writer.Valid() && writer.Out() == old(writer.Out()) && unchanged(writer.Repr())
      ensures writer.Limit() == old(writer.Limit()) && writer.Beyond() == old(writer.Beyond())
      ensures writer.Repr() == old(writer.Repr())
    {
      hide Writer.Valid, Writer.Settled, Writer.Out, Writer.Limit, Writer.Beyond;
      FetchRegion();
    }

    /** The copying of a literal has ended as r says. */
    ghost predicate Copied(r: Literal, writer: Writer, ok: bool)
      requires Valid() && writer.Settled()
      reads this, reader, scratch, writer.Repr(), if writer.Scattered? then {writer.scattered} else {}
    {
      && (ok <==> r.Whole?) && writer.Out() == r.out
      && (ok ==> writer.Valid() && Rest() == r.rest && ipLimit - ip == r.ahead)
      && (!ok ==> if r.over then writer.Spilled() else writer.Intact())
    }

    /** Hands everything buffered to the writer and goes on to the next region, if there is one. */
    method CopyChunk(writer: Writer, len: nat) returns (ok: bool, left: nat)
      requires Valid() && !eof && writer.Valid() && Apart(writer) && ipLimit - ip < len
      modifies this, reader`pos, writer.Repr()
      ensures Valid() && !eof && Apart(writer) && fresh(writer.Repr() - old(writer.Repr())) && writer.Settled()
      ensures writer.Limit() == old(writer.Limit()) && writer.Beyond() == old(writer.Beyond())
      ensures ok ==> writer.Valid() && ip < ipLimit && left + old(ipLimit - ip) == len
      ensures ok ==> CopyCourse(writer, left) == old(CopyCourse(writer, len))
      ensures !ok ==> Copied(old(CopyCourse(writer, len)), writer, false)
    {
      hide CopyRegions, Valid, Rest, Buffer;
      hide Writer.Valid, Writer.Settled, Writer.Out, Writer.Limit, Writer.Beyond, Writer.Repr;
      ghost var s, o, a, limit := Rest(), writer.Out(), ipLimit - ip, writer.Limit();
      left := len - (ipLimit - ip);
      ok := AppendBuffered(writer, ipLimit - ip);
      if !ok {
        TooLongNow(reader, s, len, o, limit, a, writer.Scattered?);
        return;
      }
      NextRegion(writer);
      if ipLimit == 0 {
        CutShortNow(reader, s, len, o, limit, writer.Scattered?);
        writer.ValidIsIntact();
        ok := false;
      } else {
        CopyRegionsOn(reader, s, len, o, limit, a, writer.Scattered?);
      }
    }

    /** Copies the next len bytes of the input to the writer, region by region. */
    method CopyLiteral(writer: Writer, len: nat) returns (ok: bool)
      requires Valid() && !eof && writer.Valid() && Apart(writer)
      modifies this, reader`pos, writer.Repr()
      ensures Valid() && Apart(writer) && fresh(writer.Repr() - old(writer.Repr())) && writer.Settled() && !eof
      ensures writer.Limit() == old(writer.Limit()) && writer.Beyond() == old(writer.Beyond())
      ensures Copied(old(CopyCourse(writer, len)), writer, ok)
    {
      hide CopyRegions, Valid, Rest, Buffer, CopyCourse, Copied;
      hide Writer.Valid, Writer.Settled, Writer.Out, Writer.Limit, Writer.Beyond;
      var left: nat := len;
      while ipLimit - ip < left
        invariant Valid() && !eof && writer.Valid() && Apart(writer) && left <= len
        invariant fresh(writer.Repr() - old(writer.Repr())) && writer.Limit() == old(writer.Limit())
        invariant writer.Beyond() == old(writer.Beyond())
        invariant CopyCourse(writer, left) == old(CopyCourse(writer, len))
        decreases left, if ip == ipLimit then 1 else 0
      {
        ok, left := CopyChunk(writer, left);
        if !ok {
          return;
        }
      }
      ok := CopyLast(writer, left);
    }

    /** The last piece of a literal is all buffered. */
    method CopyLast(writer: Writer, len: nat) returns (ok: bool)
      requires Valid() && !eof && writer.Valid() && Apart(writer) && len <= ipLimit - ip
      modifies this`ip, writer.Repr()
      ensures Valid() && Apart(writer) && fresh(writer.Repr() - old(writer.Repr())) && writer.Settled()
      ensures writer.Limit() == old(writer.Limit()) && writer.Beyond() == old(writer.Beyond())
      ensures Copied(old(CopyCourse(writer, len)), writer, ok)
    {
      hide CopyRegions, Valid, Rest, Buffer;
      hide Writer.Valid, Writer.Settled, Writer.Out, Writer.Limit, Writer.Beyond, Writer.Repr;
      LastPiece(reader, Rest(), len, writer.Out(), writer.Limit(), ipLimit - ip, writer.Scattered?);
      ok := AppendBuffered(writer, len);
    }

    /** MAYBE_REFILL between two tags: goes on to a complete tag, or ends the decoding. */
    method NextTag(ghost writer: Writer) returns (more: bool)
      requires Valid() && !eof && writer.Valid() && Apart(writer)
      modifies this, reader`pos, scratch
      ensures Valid() && Apart(writer) && writer.Valid() && unchanged(writer.Repr())
      ensures writer.Repr() == old(writer.Repr()) && writer.Out() == old(writer.Out())
      ensures writer.Limit() == old(writer.Limit()) && writer.Beyond() == old(writer.Beyond())
      ensures more ==> Ready() && !eof && Rest() == old(Rest()) && Course(writer) == old(Course(writer))
      ensures !more ==> Finished(old(Course(writer)), writer, eof)
      ensures !more && eof ==> reader.Rest() == []
    {
      hide Decode, ExtraBytes, HasTag, Valid, Rest, Buffer;
      hide Writer.Valid, Writer.Settled, Writer.Out, Writer.Limit, Writer.Beyond;
      ghost var s, o, a, limit := Rest(), writer.Out(), ipLimit - ip, writer.Limit();
      more := MaybeRefill();
      if more {
        AheadOfTagOnly(reader, s, o, limit, a, ipLimit - ip, writer.Scattered?);
      } else {
        NoTagStops(reader, s, o, limit, a, writer.Scattered?);
        writer.ValidIsIntact();
      }
    }

    /** Reads a copy tag: the table entry holds the length, the size of the trailer and the top offset bits. */
    method ReadCopy() returns (offset: uint32, length: nat)
      requires Valid() && Ready() && !LiteralByte(Buffer()[ip])
      modifies this`ip
      ensures Valid() && HasTag(old(Rest())) && ReadTag(old(Rest())).CopyTag?
      ensures var t := ReadTag(old(Rest()));
              Rest() == old(Rest())[t.size..] && offset == t.offset && length == t.len && ip == old(ip) + t.size
    {
      hide CharTable.Entry, Trailer, ExtraBytes, Valid, Rest, Buffer;
      ReadyTag();
      var c := Buffer()[ip];
      EntryFields(c);
      var entry: nat := CharTable.Entry(c);
      var trailer: nat := MaskLow(Load32(Buffer(), ip + 1), entry / 0x800);
      length := entry % 0x100;
      var copyOffset: nat := entry / 0x100 % 8 * 0x100;
      OffsetBound(c, Rest());
      offset := copyOffset + trailer;
      Advance(1 + entry / 0x800);
    }

    /** Decodes the copy at the front of the input. */
    method DecodeCopy(writer: Writer) returns (more: bool)
      requires Valid() && Ready() && !eof && writer.Valid() && Apart(writer) && !LiteralByte(Buffer()[ip])
      modifies this, reader`pos, scratch, writer.Repr()
      ensures Valid() && Apart(writer) && fresh(writer.Repr() - old(writer.Repr())) && writer.Settled()
      ensures writer.Limit() == old(writer.Limit()) && writer.Beyond() == old(writer.Beyond())
      ensures more ==> Ready() && !eof && writer.Valid() && |Rest()| < |old(Rest())|
      ensures more ==> Course(writer) == old(Course(writer))
      ensures !more ==> Finished(old(Course(writer)), writer, eof)
      ensures !more && eof ==> reader.Rest() == []
    {
      hide Decode, Finished, LiteralByte, ReadTag, ExtraBytes, HasTag, Ready, Valid, Rest, Buffer;
      hide CopyFits, CopyFromSelf, Writer.Intact, Writer.Spilled;
      hide Writer.Valid, Writer.Settled, Writer.Out, Writer.Limit, Writer.Beyond;
      ghost var s, o, limit, scattered := Rest(), writer.Out(), writer.Limit(), writer.Scattered?;
      ReadyIsAhead();
      CopyTagCourse(reader, s, o, limit, ipLimit - ip, scattered);
      var offset, length := ReadCopy();
      more := writer.AppendFromSelf(offset, length);
      if !more {
        CopyStops(s, o, writer);
        return;
      }
      more := NextTag(writer);
    }

    lemma FiveAreEnough()
      requires Valid() && ip + MAXIMUM_TAG_LENGTH <= ipLimit
      ensures Ready()
    {
    }

    /** A short literal that is buffered in full and fits can be taken off the input. */
    lemma FastCourse(writer: Writer, src: seq<byte>, len: nat)
      requires Valid() && ip < ipLimit && writer.Valid()
      requires LiteralByte(Buffer()[ip]) && len == ShortLength(Buffer()[ip]) && src == Buffer()[ip + 1..ipLimit]
      requires len <= 16 && len <= |src| && |writer.Out()| + len <= writer.Limit()
      ensures 1 + len <= |Rest()|
      ensures Course(writer)
           == Decode(reader, Rest()[1 + len..], writer.Out() + src[..len], writer.Limit(), ipLimit - ip - 1 - len,
                     writer.Scattered?)
    {
      hide *;
      HeadOfRest();
      NextLiteral(src, len);
      CourseIs(writer);
      FastLiteral(reader, Rest(), writer.Out(), writer.Limit(), ipLimit - ip, src[..len], writer.Scattered?);
    }

    /** Advance leaves the writer alone. */
    method AdvanceOnly(ghost writer: Writer, n: nat)
      requires Valid() && ip + n <= ipLimit && writer.Valid() && Apart(writer)
      modifies this`ip
      ensures Valid() && ip == old(ip) + n && n <= |old(Rest())| && Rest() == old(Rest())[n..]
      ensures Apart(writer) && writer.Valid() && writer.Repr() == old(writer.Repr())
      ensures writer.Out() == old(writer.Out())
      ensures writer.Limit() == old(writer.Limit()) && writer.Beyond() == old(writer.Beyond())
    {
      hide Valid, Rest, Buffer, Writer.Valid, Writer.Settled, Writer.Out, Writer.Limit, Writer.Beyond;
      Advance(n);
    }

    /** TryFastAppend leaves the decoder alone. */
    method FastAppend(writer: Writer, src: seq<byte>, length: nat) returns (ok: bool)
      requires Valid() && Ready() && !eof && writer.Valid() && Apart(writer)
      modifies writer.Repr()
      ensures Valid() && Ready() && Apart(writer) && fresh(writer.Repr() - old(writer.Repr())) && writer.Valid()
      ensures unchanged(this) && Rest() == old(Rest()) && Buffer() == old(Buffer())
      ensures writer.Limit() == old(writer.Limit()) && writer.Beyond() == old(writer.Beyond())
      ensures ok ==> length <= 16 && length + MAXIMUM_TAG_LENGTH <= |src|
      ensures ok ==> |old(writer.Out())| + length <= writer.Limit()
      ensures writer.Out() == if ok then old(writer.Out()) + src[..length] else old(writer.Out())
    {
      hide Ready, Valid, Rest, Buffer;
      hide Writer.Valid, Writer.Settled, Writer.Out, Writer.Limit, Writer.Beyond;
      ok := writer.TryFastAppend(src, length);
    }

    /** The fast path: a short literal with a whole tag's room behind it, copied sixteen bytes at a time. */
    method TryFastLiteral(writer: Writer) returns (ok: bool)
      requires Valid() && Ready() && !eof && writer.Valid() && Apart(writer) && LiteralByte(Buffer()[ip])
      modifies this`ip, writer.Repr()
      ensures Valid() && Ready() && Apart(writer) && fresh(writer.Repr() - old(writer.Repr())) && writer.Valid()
      ensures writer.Limit() == old(writer.Limit()) && writer.Beyond() == old(writer.Beyond())
      ensures ok ==> |Rest()| < |old(Rest())|
      ensures !ok ==> ip == old(ip) && Rest() == old(Rest()) && writer.Out() == old(writer.Out())
      ensures Course(writer) == old(Course(writer))
    {
      hide Decode, Course, LiteralByte, ShortLength, ReadTag, Trailer, ExtraBytes, HasTag, Ready, Valid, Rest, Buffer;
      hide Apart, Writer.Repr, Writer.Valid, Writer.Settled, Writer.Out, Writer.Limit, Writer.Beyond;
      ReadyIsAhead();
      CourseIs(writer);
      var src := Buffer()[ip + 1..ipLimit];
      var length := ShortLength(Buffer()[ip]);
      if length <= 16 && length <= |src| && |writer.Out()| + length <= writer.Limit() {
        FastCourse(writer, src, length);
      }
      ok := FastAppend(writer, src, length);
      if ok {
        AdvanceOnly(writer, 1 + length);
        FiveAreEnough();
      }
      CourseIs(writer);
    }

    /** Reads the header of a literal, whose length follows the tag byte when it is over 60. */
    method ReadLiteralLength() returns (length: nat)
      requires Valid() && Ready() && LiteralByte(Buffer()[ip])
      modifies this`ip
      ensures Valid() && HasTag(old(Rest())) && ReadTag(old(Rest())).LiteralTag?
      ensures var t := ReadTag(old(Rest()));
              Rest() == old(Rest())[t.size..] && length == t.len && ip == old(ip) + t.size
    {
      hide Trailer;
      ReadyTag();
      var k: nat := 0;
      length := ShortLength(Buffer()[ip]);
      if length >= 61 {
        k := length - 60;
        length := Increment32(MaskLow(Load32(Buffer(), ip + 1), k));
      }
      Advance(1 + k);
    }

    lemma LiteralStops(s: seq<byte>, o: seq<byte>, r: Literal, behind: nat, writer: Writer)
      requires Valid() && writer.Settled() && Copied(r, writer, false) && HasTag(s)
      requires r.Cut? ==> (r.over <==> Overruns(Stop(s, o), writer.Limit()))
      ensures r.Cut? && Finished(Ending(Stop(s, o), behind, r.out), writer, false)
    {
    }

    lemma LiteralGoesOn(r: Literal, writer: Writer)
      requires Valid() && writer.Settled() && Copied(r, writer, true)
      ensures r.Whole? && writer.Valid() && Rest() == r.rest && writer.Out() == r.out && ipLimit - ip == r.ahead
    {
    }

    /** The header of a literal determines how the decoding goes on from how its data is copied. */
    method ReadLiteral(ghost writer: Writer) returns (length: nat)
      requires Valid() && Ready() && !eof && writer.Valid() && Apart(writer) && LiteralByte(Buffer()[ip])
      modifies this`ip
      ensures Valid() && Apart(writer) && writer.Valid() && unchanged(writer.Repr())
      ensures writer.Repr() == old(writer.Repr()) && writer.Out() == old(writer.Out())
      ensures writer.Limit() == old(writer.Limit()) && writer.Beyond() == old(writer.Beyond())
      ensures HasTag(old(Rest())) && |Rest()| < |old(Rest())|
      ensures var r, stop := CopyCourse(writer, length), Stop(old(Rest()), writer.Out());
              if r.Whole? then
                && |r.rest| <= |Rest()|
                && old(Course(writer))
                   == Decode(reader, r.rest, r.out, writer.Limit(), r.ahead, writer.Scattered?)
              else
                && (r.over <==> Overruns(stop, writer.Limit()))
                && old(Course(writer)) == Ending(stop, ipLimit - ip, r.out)
    {
      hide Decode, CopyRegions, LiteralByte, ReadTag, ExtraBytes, HasTag, Ready, Valid, Rest, Buffer, Overruns;
      hide Writer.Valid, Writer.Settled, Writer.Out, Writer.Limit, Writer.Beyond;
      ReadyIsAhead();
      LiteralCourse(reader, Rest(), writer.Out(), writer.Limit(), ipLimit - ip, writer.Scattered?);
      length := ReadLiteralLength();
    }

    /** Decodes the literal at the front of the input. */
    method DecodeLiteral(writer: Writer) returns (more: bool)
      requires Valid() && Ready() && !eof && writer.Valid() && Apart(writer) && LiteralByte(Buffer()[ip])
      modifies this, reader`pos, scratch, writer.Repr()
      ensures Valid() && Apart(writer) && fresh(writer.Repr() - old(writer.Repr())) && writer.Settled()
      ensures writer.Limit() == old(writer.Limit()) && writer.Beyond() == old(writer.Beyond())
      ensures more ==> Ready() && !eof && writer.Valid() && |Rest()| < |old(Rest())|
      ensures more ==> Course(writer) == old(Course(writer))
      ensures !more ==> Finished(old(Course(writer)), writer, eof)
      ensures !more && eof ==> reader.Rest() == []
    {
      hide Decode, CopyRegions, Copied, CopyCourse, Finished, ExtraBytes, HasTag, Ready, Valid, Rest, Buffer;
      hide Overruns, Writer.Intact, Writer.Spilled;
      hide Writer.Valid, Writer.Settled, Writer.Out, Writer.Limit, Writer.Beyond;
      ghost var s, o := Rest(), writer.Out();
      var length := ReadLiteral(writer);
      ghost var r, behind := CopyCourse(writer, length), ipLimit - ip;
      more := CopyLiteral(writer, length);
      if !more {
        LiteralStops(s, o, r, behind, writer);
        return;
      }
      LiteralGoesOn(r, writer);
      more := NextTag(writer);
    }

    /** Decodes one tag. */
    method DecodeTag(writer: Writer) returns (more: bool)
      requires Valid() && Ready() && !eof && writer.Valid() && Apart(writer)
      modifies this, reader`pos, scratch, writer.Repr()
      ensures Valid() && Apart(writer) && fresh(writer.Repr() - old(writer.Repr())) && writer.Settled()
      ensures writer.Limit() == old(writer.Limit()) && writer.Beyond() == old(writer.Beyond())
      ensures more ==> Ready() && !eof && writer.Valid() && |Rest()| < |old(Rest())|
      ensures more ==> Course(writer) == old(Course(writer))
      ensures !more ==> Finished(old(Course(writer)), writer, eof)
      ensures !more && eof ==> reader.Rest() == []
    {
      hide Course, Finished, LiteralByte, ExtraBytes;
      hide Valid, Rest, Buffer, Writer.Valid, Writer.Settled, Writer.Out, Writer.Limit, Writer.Beyond;
      if LiteralByte(Buffer()[ip]) {
        more := TryFastLiteral(writer);
        if !more {
          more := DecodeLiteral(writer);
        }
      } else {
        more := DecodeCopy(writer);
      }
    }

    /** Decodes the whole input, however it is fragmented, to the ending that Decode describes. */
    method DecompressAllTags(writer: Writer)
      requires Valid() && !eof && writer.Valid() && Apart(writer)
      modifies this, reader`pos, scratch, writer.Repr()
      ensures Valid() && Apart(writer) && fresh(writer.Repr() - old(writer.Repr())) && writer.Settled()
      ensures writer.Limit() == old(writer.Limit()) && writer.Beyond() == old(writer.Beyond())
      ensures Finished(old(Course(writer)), writer, eof)
      ensures eof ==> reader.Rest() == []
    {
      hide Course, Finished, ExtraBytes, Ready;
      hide Valid, Rest, Buffer, Writer.Valid, Writer.Settled, Writer.Out, Writer.Limit, Writer.Beyond;
      var more := NextTag(writer);
      while more
        invariant Valid() && Apart(writer) && fresh(writer.Repr() - old(writer.Repr())) && writer.Settled()
        invariant writer.Limit() == old(writer.Limit()) && writer.Beyond() == old(writer.Beyond())
        invariant more ==> Ready() && !eof && writer.Valid() && Course(writer) == old(Course(writer))
        invariant !more ==> Finished(old(Course(writer)), writer, eof)
        invariant !more && eof ==> reader.Rest() == []
        decreases more, |Rest()|
      {
        more := DecodeTag(writer);
      }
    }
  }
}
