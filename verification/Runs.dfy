/**
 What the decoder does with a fragmented source, as functions: a literal is handed over region by region, so
 how much of one that is too long arrives depends on where the regions end. Everything else does not.
 */
module Runs {
  import opened Bytes
  import opened Stream
  import opened Format
  import opened ArrayWriters
  import opened ScatteredWriters
  import opened SourceSink

  /** Bytes a writer stores of a piece it rejects: only the scattered writer first fills its block. */
  function Spill(scattered: bool, n: nat, limit: nat): (k: nat)
    requires n <= limit
    ensures n + k <= limit
  {
    if scattered then BlockRoom(n, limit) else 0
  }

  /** Bytes buffered behind a tag header, when ahead bytes are buffered at its start. */
  function AheadOfTag(src: Source, s: seq<byte>, ahead: nat, size: nat): (r: nat)
    requires |s| <= |src.data| && ahead <= |s|
    ensures size <= |s| ==> r <= |s| - size
  {
    Max((if ahead == 0 then src.RegionAt(|src.data| - |s|) else ahead) - size, 0)
  }

  /** A literal copied in full, with the input and the buffered bytes behind it, or one that ended the decoding. */
  datatype Literal =
    | Whole(rest: seq<byte>, out: seq<byte>, ahead: nat)
    | Cut(out: seq<byte>, over: bool)

  /** Copies len bytes from the front of s, first the ahead bytes already buffered, then region by region. */
  function CopyRegions(src: Source, s: seq<byte>, len: nat, out: seq<byte>, limit: nat, ahead: nat, scattered: bool)
    : (r: Literal)
    requires ahead <= |s| <= |src.data| && |out| <= limit
    ensures r.Whole? ==> |r.rest| + len == |s| && r.ahead <= |r.rest| && |r.out| <= limit
    ensures r.Cut? ==> |r.out| <= limit
    decreases |s|, if ahead == 0 then 1 else 0
  {
    if ahead >= len then
      if |out| + len <= limit then Whole(s[len..], out + s[..len], ahead - len)
      else Cut(out + s[..Spill(scattered, |out|, limit)], true)
    else if |out| + ahead > limit then Cut(out + s[..Spill(scattered, |out|, limit)], true)
    else if ahead == |s| then Cut(out + s, false)
    else
      var rest := s[ahead..];
      var region := src.RegionAt(|src.data| - |rest|);
      CopyRegions(src, rest, len - ahead, out + s[..ahead], limit, region, scattered)
  }

  /** A literal is copied in full exactly when it is there and fits; else what is stored is a prefix of it. */
  ghost predicate Settles(r: Literal, s: seq<byte>, len: nat, out: seq<byte>, limit: nat) {
    match r
    case Whole(rest, next, _) => len <= |s| && |out| + len <= limit && rest == s[len..] && next == out + s[..len]
    case Cut(next, over) =>
      && (over || |s| < len) && (over <==> |out| + Min(len, |s|) > limit)
      && out <= next <= out + s[..Min(len, |s|)] && (!over ==> next == out + s)
  }

  lemma PiecesJoin(out: seq<byte>, s: seq<byte>, a: nat, n: nat)
    requires a + n <= |s|
    ensures out + s[..a] + s[a..][..n] == out + s[..a + n]
    ensures s[a..][n..] == s[a + n..]
  {
    assert s[..a + n] == s[..a] + s[a..][..n];
  }

  lemma SettlesLater(r: Literal, s: seq<byte>, len: nat, out: seq<byte>, limit: nat, a: nat)
    requires a < len && a < |s| && Settles(r, s[a..], len - a, out + s[..a], limit)
    ensures Settles(r, s, len, out, limit)
  {
    PiecesJoin(out, s, a, Min(len, |s|) - a);
    if r.Cut? {
      assert out <= out + s[..a] <= r.out;
      assert s[a..][..|s| - a] == s[a..] && s[..|s|] == s;
    }
  }

  lemma SettlesNow(src: Source, s: seq<byte>, len: nat, out: seq<byte>, limit: nat, ahead: nat, scattered: bool)
    requires ahead <= |s| <= |src.data| && |out| <= limit
    requires ahead >= len || |out| + ahead > limit || ahead == |s|
    ensures Settles(CopyRegions(src, s, len, out, limit, ahead, scattered), s, len, out, limit)
  {
    var m := Min(len, |s|);
    var k := Spill(scattered, |out|, limit);
    if |out| + m > limit {
      assert s[..k] == s[..m][..k];
      assert out + s[..k] <= out + s[..m];
    } else if ahead < len {
      assert s[..m] == s;
    }
  }

  lemma CopyRegionsOn(src: Source, s: seq<byte>, len: nat, out: seq<byte>, limit: nat, ahead: nat, scattered: bool)
    requires ahead < |s| <= |src.data| && |out| + ahead <= limit && ahead < len
    ensures CopyRegions(src, s, len, out, limit, ahead, scattered)
         == CopyRegions(src, s[ahead..], len - ahead, out + s[..ahead], limit,
                        src.RegionAt(|src.data| - |s[ahead..]|), scattered)
  {
  }

  /** Wherever the regions end. */
  lemma {:induction false} CopySettles(src: Source, s: seq<byte>, len: nat, out: seq<byte>, limit: nat, ahead: nat,
                                       scattered: bool)
    requires ahead <= |s| <= |src.data| && |out| <= limit
    ensures Settles(CopyRegions(src, s, len, out, limit, ahead, scattered), s, len, out, limit)
    decreases |s|, if ahead == 0 then 1 else 0
  {
    hide CopyRegions, Settles;
    if ahead < len && |out| + ahead <= limit && ahead < |s| {
      var rest, next := s[ahead..], out + s[..ahead];
      var region := src.RegionAt(|src.data| - |rest|);
      CopyRegionsOn(src, s, len, out, limit, ahead, scattered);
      CopySettles(src, rest, len - ahead, next, limit, region, scattered);
      SettlesLater(CopyRegions(src, rest, len - ahead, next, limit, region, scattered), s, len, out, limit, ahead);
    } else {
      SettlesNow(src, s, len, out, limit, ahead, scattered);
    }
  }

  /**
   How the decoding of a stream ends: where its run of whole operations stops, the bytes buffered behind the
   header of a literal it stops at, and the bytes produced.
   */
  datatype Ending = Ending(stop: Stop, behind: nat, out: seq<byte>)

  /** Decodes s after out with ahead bytes of s buffered. */
  function Decode(src: Source, s: seq<byte>, out: seq<byte>, limit: nat, ahead: nat, scattered: bool): (e: Ending)
    requires ahead <= |s| <= |src.data| && |out| <= limit
    ensures |e.stop.out| <= limit && |e.out| <= limit
    decreases |s|
  {
    if !HasTag(s) then Ending(Stop(s, out), 0, out)
    else
      var t := ReadTag(s);
      var behind := AheadOfTag(src, s, ahead, t.size);
      match t
      case LiteralTag(size, len) =>
        var r := CopyRegions(src, s[size..], len, out, limit, behind, scattered);
        if r.Whole? then Decode(src, r.rest, r.out, limit, r.ahead, scattered)
        else Ending(Stop(s, out), behind, r.out)
      case CopyTag(size, offset, len) =>
        if !CopyFits(out, limit, offset, len) then Ending(Stop(s, out), 0, out)
        else Decode(src, s[size..], CopyFromSelf(out, offset, len), limit, behind, scattered)
  }

  lemma NoTagStops(src: Source, s: seq<byte>, out: seq<byte>, limit: nat, ahead: nat, scattered: bool)
    requires ahead <= |s| <= |src.data| && |out| <= limit && !HasTag(s)
    ensures Decode(src, s, out, limit, ahead, scattered) == Ending(Stop(s, out), 0, out)
  {
  }

  lemma LiteralIsCopied(src: Source, s: seq<byte>, out: seq<byte>, limit: nat, ahead: nat, scattered: bool)
    requires ahead <= |s| <= |src.data| && |out| <= limit && HasTag(s) && ReadTag(s).LiteralTag?
    ensures var t := ReadTag(s);
            var behind := AheadOfTag(src, s, ahead, t.size);
            var r := CopyRegions(src, s[t.size..], t.len, out, limit, behind, scattered);
            Decode(src, s, out, limit, ahead, scattered) ==
            if r.Whole? then Decode(src, r.rest, r.out, limit, r.ahead, scattered)
            else Ending(Stop(s, out), behind, r.out)
  {
  }

  lemma CopyIsApplied(src: Source, s: seq<byte>, out: seq<byte>, limit: nat, ahead: nat, scattered: bool)
    requires ahead <= |s| <= |src.data| && |out| <= limit && HasTag(s) && ReadTag(s).CopyTag?
    ensures var t := ReadTag(s);
            var behind := AheadOfTag(src, s, ahead, t.size);
            Decode(src, s, out, limit, ahead, scattered) ==
            if !CopyFits(out, limit, t.offset, t.len) then Ending(Stop(s, out), 0, out)
            else Decode(src, s[t.size..], CopyFromSelf(out, t.offset, t.len), limit, behind, scattered)
  {
  }

  /** Completing the tag in the buffer does not change what is decoded. */
  lemma AheadOfTagOnly(src: Source, s: seq<byte>, out: seq<byte>, limit: nat, ahead: nat, more: nat, scattered: bool)
    requires ahead <= |s| <= |src.data| && more <= |s| && |out| <= limit && HasTag(s)
    requires more == Max(if ahead == 0 then src.RegionAt(|src.data| - |s|) else ahead, 1 + ExtraBytes(s[0]))
    ensures Decode(src, s, out, limit, ahead, scattered) == Decode(src, s, out, limit, more, scattered)
  {
    hide Decode, CopyRegions, ExtraBytes;
    if ReadTag(s).LiteralTag? {
      LiteralIsCopied(src, s, out, limit, ahead, scattered);
      LiteralIsCopied(src, s, out, limit, more, scattered);
    } else {
      CopyIsApplied(src, s, out, limit, ahead, scattered);
      CopyIsApplied(src, s, out, limit, more, scattered);
    }
  }

  /** The output when the stop is not a literal too long: whole operations, then a literal that is cut short. */
  function Leftover(stop: Stop): seq<byte> {
    if HasTag(stop.rest) && ReadTag(stop.rest).LiteralTag? then stop.out + stop.rest[ReadTag(stop.rest).size..]
    else stop.out
  }

  /** A literal copied in full is the operation at the front of s. */
  lemma LiteralTaken(src: Source, s: seq<byte>, out: seq<byte>, limit: nat, behind: nat, scattered: bool)
    requires HasTag(s) && ReadTag(s).LiteralTag? && behind <= |s| - ReadTag(s).size
    requires |s| <= |src.data| && |out| <= limit
    ensures var t := ReadTag(s);
            var r := CopyRegions(src, s[t.size..], t.len, out, limit, behind, scattered);
            && (r.Whole? <==> Fits(s, out, limit))
            && (r.Whole? ==> Stop(r.rest, r.out) == After(s, out, limit))
            && (r.Cut? ==> (r.over <==> Overruns(Stop(s, out), limit)))
            && (r.Cut? ==> out <= r.out <= Deliver(s, out))
            && (r.Cut? && !r.over ==> r.out == Leftover(Stop(s, out)))
  {
    hide CopyRegions, Deliver, Expand, ReadTag, HasTag;
    var t := ReadTag(s);
    var data := s[t.size..];
    CopySettles(src, data, t.len, out, limit, behind, scattered);
    LiteralStep(s, out, t.size, t.len);
    if t.size + t.len <= |s| {
      assert data[t.len..] == s[t.size + t.len..];
      assert data[..t.len] == s[t.size..t.size + t.len];
      DeliverGrows(s[t.size + t.len..], out + s[t.size..t.size + t.len]);
    }
  }

  /** Whatever the fragmentation, decoding takes the longest run of whole operations and stops where it stops. */
  lemma {:induction false} RunIsDecoded(src: Source, s: seq<byte>, out: seq<byte>, limit: nat, ahead: nat,
                                        scattered: bool)
    requires ahead <= |s| <= |src.data| && |out| <= limit
    ensures var e := Decode(src, s, out, limit, ahead, scattered);
            && e.stop == StopWithin(s, out, limit) && e.stop.out <= e.out <= Deliver(s, out)
            && (!Overruns(e.stop, limit) ==> e.out == Leftover(e.stop))
    decreases |s|
  {
    hide Decode, CopyRegions, Deliver, Expand, ReadTag, HasTag, CopyFromSelf, AheadOfTag;
    if !HasTag(s) {
      NoTagStops(src, s, out, limit, ahead, scattered);
      NoTag(s, out);
    } else {
      var t := ReadTag(s);
      var behind := AheadOfTag(src, s, ahead, t.size);
      if t.LiteralTag? {
        LiteralIsCopied(src, s, out, limit, ahead, scattered);
        LiteralTaken(src, s, out, limit, behind, scattered);
        var r := CopyRegions(src, s[t.size..], t.len, out, limit, behind, scattered);
        if r.Whole? {
          AfterStep(s, out, limit);
          RunIsDecoded(src, r.rest, r.out, limit, r.ahead, scattered);
        }
      } else {
        CopyIsApplied(src, s, out, limit, ahead, scattered);
        if CopyFits(out, limit, t.offset, t.len) {
          AfterStep(s, out, limit);
          RunIsDecoded(src, s[t.size..], CopyFromSelf(out, t.offset, t.len), limit, behind, scattered);
        } else {
          DeliverGrows(s, out);
        }
      }
    }
  }

  /** The first piece of a literal handed over: what is buffered behind its header, else the next region. */
  function FirstPiece(src: Source, data: seq<byte>, behind: nat): (piece: nat)
    requires behind <= |data| <= |src.data|
    ensures piece <= |data| && (piece == 0 <==> data == [])
  {
    if behind == 0 then src.RegionAt(|src.data| - |data|) else behind
  }

  /** Decoding stops at a literal with a first piece that is not the whole of it and stays within limit. */
  ghost predicate FirstPieceFits(src: Source, e: Ending, limit: nat) {
    && HasTag(e.stop.rest) && ReadTag(e.stop.rest).LiteralTag?
    && var data, len := e.stop.rest[ReadTag(e.stop.rest).size..], ReadTag(e.stop.rest).len;
       && e.behind <= |data| <= |src.data|
       && FirstPiece(src, data, e.behind) < len && FirstPiece(src, data, e.behind) <= limit
  }

  lemma FromFirstPiece(src: Source, data: seq<byte>, len: nat, out: seq<byte>, limit: nat, behind: nat,
                       scattered: bool)
    requires behind <= |data| <= |src.data| && |out| <= limit && 0 < len && data != []
    ensures CopyRegions(src, data, len, out, limit, behind, scattered)
         == CopyRegions(src, data, len, out, limit, FirstPiece(src, data, behind), scattered)
  {
    if behind == 0 {
      CopyRegionsOn(src, data, len, out, limit, 0, scattered);
      assert data[0..] == data && out + data[..0] == out;
    }
  }

  /** Of a literal that is too long, something is kept exactly if there was output before or a first piece fits. */
  lemma SomethingKept(src: Source, data: seq<byte>, len: nat, out: seq<byte>, limit: nat, behind: nat,
                      scattered: bool)
    requires behind <= |data| <= |src.data| && |out| <= limit && |out| + Min(len, |data|) > limit
    ensures var r := CopyRegions(src, data, len, out, limit, behind, scattered);
            var piece := FirstPiece(src, data, behind);
            r.Cut? && (r.out != [] <==> out != [] || (piece < len && piece <= limit))
  {
    hide FirstPiece;
    var piece := FirstPiece(src, data, behind);
    FromFirstPiece(src, data, len, out, limit, behind, scattered);
    CopySettles(src, data, len, out, limit, behind, scattered);
    if out == [] && piece < len && piece <= limit {
      PieceKept(src, data, len, limit, piece, scattered);
    }
  }

  lemma PieceKept(src: Source, data: seq<byte>, len: nat, limit: nat, piece: nat, scattered: bool)
    requires 0 < piece < len && piece < |data| <= |src.data| && piece <= limit
    requires Min(len, |data|) > limit
    ensures var r := CopyRegions(src, data, len, [], limit, piece, scattered);
            r.Cut? && r.out != []
  {
    hide CopyRegions;
    var rest, first := data[piece..], data[..piece];
    var region := src.RegionAt(|src.data| - |rest|);
    assert [] + first == first;
    CopyRegionsOn(src, data, len, [], limit, piece, scattered);
    CopySettles(src, rest, len - piece, first, limit, region, scattered);
  }

  /** A source that shows all that is left at once. */
  ghost predicate OneRegion(src: Source) {
    forall p :: 0 <= p <= |src.data| ==> src.RegionAt(p) == |src.data| - p
  }

  lemma AllBuffered(src: Source, data: seq<byte>, len: nat, out: seq<byte>, limit: nat, scattered: bool)
    requires |data| <= |src.data| && |out| <= limit
    ensures var r := CopyRegions(src, data, len, out, limit, |data|, scattered);
            var n := Spill(scattered, |out|, limit);
            && (r.Whole? ==> r.ahead == |r.rest|)
            && (|out| + Min(len, |data|) > limit ==> n <= |data| && r.Cut? && r.out == out + data[..n])
  {
  }

  /** Nothing of a literal that is too long arrives, but what it leaves in a block. */
  ghost predicate DropsTooLong(e: Ending, limit: nat, scattered: bool)
    requires |e.stop.out| <= limit
  {
    Overruns(e.stop, limit) ==>
      var at, n := ReadTag(e.stop.rest).size, Spill(scattered, |e.stop.out|, limit);
      at + n <= |e.stop.rest| && e.out == e.stop.out + e.stop.rest[at..at + n]
  }

  lemma LiteralDropped(src: Source, s: seq<byte>, out: seq<byte>, limit: nat, scattered: bool)
    requires |s| <= |src.data| && |out| <= limit && HasTag(s) && ReadTag(s).LiteralTag?
    ensures var size, len := ReadTag(s).size, ReadTag(s).len;
            var r := CopyRegions(src, s[size..], len, out, limit, |s| - size, scattered);
            if r.Whole? then r.ahead == |r.rest|
            else DropsTooLong(Ending(Stop(s, out), |s| - size, r.out), limit, scattered)
  {
    hide ReadTag, HasTag, CopyRegions;
    var size, len := ReadTag(s).size, ReadTag(s).len;
    AllBuffered(src, s[size..], len, out, limit, scattered);
    if |out| + Min(len, |s| - size) > limit {
      SliceOfSlice(s, size, |s|, 0, Spill(scattered, |out|, limit));
    }
  }

  lemma NothingDropped(s: seq<byte>, out: seq<byte>, limit: nat, scattered: bool)
    requires |out| <= limit && !(HasTag(s) && ReadTag(s).LiteralTag?)
    ensures DropsTooLong(Ending(Stop(s, out), 0, out), limit, scattered)
  {
  }

  lemma AllAhead(src: Source, s: seq<byte>, ahead: nat, size: nat)
    requires OneRegion(src) && size <= |s| <= |src.data| && (ahead == 0 || ahead == |s|)
    ensures AheadOfTag(src, s, ahead, size) == |s| - size
  {
    assert src.RegionAt(|src.data| - |s|) == |s|;
  }

  lemma {:induction false} OneRegionStops(src: Source, s: seq<byte>, out: seq<byte>, limit: nat, ahead: nat,
                                          scattered: bool)
    requires OneRegion(src) && |s| <= |src.data| && (ahead == 0 || ahead == |s|) && |out| <= limit
    ensures DropsTooLong(Decode(src, s, out, limit, ahead, scattered), limit, scattered)
    decreases |s|
  {
    hide Decode, CopyRegions, ReadTag, HasTag, CopyFromSelf, DropsTooLong, OneRegion, AheadOfTag;
    if !HasTag(s) {
      NoTagStops(src, s, out, limit, ahead, scattered);
      NothingDropped(s, out, limit, scattered);
    } else {
      var t := ReadTag(s);
      AllAhead(src, s, ahead, t.size);
      if t.LiteralTag? {
        LiteralIsCopied(src, s, out, limit, ahead, scattered);
        LiteralDropped(src, s, out, limit, scattered);
        var r := CopyRegions(src, s[t.size..], t.len, out, limit, |s| - t.size, scattered);
        if r.Whole? {
          OneRegionStops(src, r.rest, r.out, limit, r.ahead, scattered);
        }
      } else {
        CopyIsApplied(src, s, out, limit, ahead, scattered);
        if CopyFits(out, limit, t.offset, t.len) {
          OneRegionStops(src, s[t.size..], CopyFromSelf(out, t.offset, t.len), limit, |s| - t.size, scattered);
        } else {
          NothingDropped(s, out, limit, scattered);
        }
      }
    }
  }

  /** Where decoding stops at a literal, the output is what copying that literal region by region leaves. */
  lemma {:induction false} EndsInCopy(src: Source, s: seq<byte>, out: seq<byte>, limit: nat, ahead: nat,
                                      scattered: bool)
    requires ahead <= |s| <= |src.data| && |out| <= limit
    ensures EndsCopying(src, Decode(src, s, out, limit, ahead, scattered), limit, scattered)
    decreases |s|
  {
    hide Decode, CopyRegions, ReadTag, HasTag, CopyFromSelf, EndsCopying, Overruns;
    if !HasTag(s) {
      NoTagStops(src, s, out, limit, ahead, scattered);
      NotCopying(src, s, out, limit, scattered);
    } else {
      var t := ReadTag(s);
      var behind := AheadOfTag(src, s, ahead, t.size);
      if t.LiteralTag? {
        LiteralIsCopied(src, s, out, limit, ahead, scattered);
        LiteralTaken(src, s, out, limit, behind, scattered);
        var r := CopyRegions(src, s[t.size..], t.len, out, limit, behind, scattered);
        if r.Whole? {
          EndsInCopy(src, r.rest, r.out, limit, r.ahead, scattered);
        } else {
          Copying(src, s, out, limit, behind, scattered);
        }
      } else {
        CopyIsApplied(src, s, out, limit, ahead, scattered);
        if CopyFits(out, limit, t.offset, t.len) {
          EndsInCopy(src, s[t.size..], CopyFromSelf(out, t.offset, t.len), limit, behind, scattered);
        } else {
          NotCopying(src, s, out, limit, scattered);
        }
      }
    }
  }

  ghost predicate EndsCopying(src: Source, e: Ending, limit: nat, scattered: bool)
    requires |e.stop.out| <= limit
  {
    && |e.stop.rest| <= |src.data|
    && (HasTag(e.stop.rest) && ReadTag(e.stop.rest).LiteralTag? ==>
          var data, len := e.stop.rest[ReadTag(e.stop.rest).size..], ReadTag(e.stop.rest).len;
          && e.behind <= |data|
          && CopyRegions(src, data, len, e.stop.out, limit, e.behind, scattered)
             == Cut(e.out, Overruns(e.stop, limit)))
  }

  lemma NotCopying(src: Source, s: seq<byte>, out: seq<byte>, limit: nat, scattered: bool)
    requires |s| <= |src.data| && |out| <= limit && !(HasTag(s) && ReadTag(s).LiteralTag?)
    ensures EndsCopying(src, Ending(Stop(s, out), 0, out), limit, scattered)
  {
  }

  lemma Copying(src: Source, s: seq<byte>, out: seq<byte>, limit: nat, behind: nat, scattered: bool)
    requires HasTag(s) && ReadTag(s).LiteralTag? && behind <= |s| - ReadTag(s).size
    requires |s| <= |src.data| && |out| <= limit
    ensures var t := ReadTag(s);
            var r := CopyRegions(src, s[t.size..], t.len, out, limit, behind, scattered);
            r.Cut? ==> EndsCopying(src, Ending(Stop(s, out), behind, r.out), limit, scattered)
  {
    hide CopyRegions, ReadTag, HasTag;
    LiteralTaken(src, s, out, limit, behind, scattered);
  }

  /** After a literal that is too long there is output exactly if there was some before or a first piece fits. */
  lemma OutputAfterOverrun(src: Source, e: Ending, limit: nat, scattered: bool)
    requires |e.stop.out| <= limit && EndsCopying(src, e, limit, scattered) && Overruns(e.stop, limit)
    ensures e.out != [] <==> e.stop.out != [] || FirstPieceFits(src, e, limit)
  {
    hide CopyRegions, ReadTag, HasTag, FirstPiece;
    var data, len := e.stop.rest[ReadTag(e.stop.rest).size..], ReadTag(e.stop.rest).len;
    SomethingKept(src, data, len, e.stop.out, limit, e.behind, scattered);
  }

  /** The stop is a literal too long, and a rejected piece of it leaves room below the limit. */
  predicate DependsOnRegions(stop: Stop, limit: nat, scattered: bool)
    requires |stop.out| <= limit
  {
    Overruns(stop, limit) && |stop.out| + Spill(scattered, |stop.out|, limit) < limit
  }

  /** The output that every fragmentation delivers otherwise: a literal too long fills it up to the limit. */
  function FixedOutput(stop: Stop, limit: nat): seq<byte>
    requires |stop.out| <= limit
  {
    if !Overruns(stop, limit) then Leftover(stop)
    else
      var at := ReadTag(stop.rest).size;
      stop.out + stop.rest[at..at + (limit - |stop.out|)]
  }

  /** If the current block reaches up to the limit, it still does after more bytes. */
  lemma SpillReachesLimit(scattered: bool, n: nat, k: nat, limit: nat)
    requires n <= k <= limit && n + Spill(scattered, n, limit) == limit
    ensures k + Spill(scattered, k, limit) == limit
  {
    if scattered && n > 0 {
      var m := (n - 1) / BLOCK_SIZE;
      assert (k - 1) / BLOCK_SIZE >= m;
    }
  }

  /** The regions are single bytes. */
  ghost predicate ByteRegions(src: Source) {
    forall p :: 0 <= p < |src.data| ==> src.RegionAt(p) == 1
  }

  /** Copying a literal too long fills the output, if a rejected piece does or if pieces are single bytes. */
  ghost predicate FillsOutput(src: Source, out: seq<byte>, limit: nat, ahead: nat, scattered: bool)
    requires |out| <= limit
  {
    |out| + Spill(scattered, |out|, limit) == limit || (ByteRegions(src) && ahead <= 1)
  }

  lemma FilledNow(src: Source, s: seq<byte>, len: nat, out: seq<byte>, limit: nat, ahead: nat, scattered: bool)
    requires ahead <= |s| <= |src.data| && |out| <= limit && |out| + Min(len, |s|) > limit
    requires FillsOutput(src, out, limit, ahead, scattered) && (ahead >= len || |out| + ahead > limit)
    ensures CopyRegions(src, s, len, out, limit, ahead, scattered) == Cut(out + s[..limit - |out|], true)
  {
    assert Spill(scattered, |out|, limit) == limit - |out|;
  }

  lemma FillsOutputOn(src: Source, s: seq<byte>, out: seq<byte>, limit: nat, ahead: nat, scattered: bool)
    requires ahead < |s| <= |src.data| && |out| + ahead <= limit && FillsOutput(src, out, limit, ahead, scattered)
    ensures FillsOutput(src, out + s[..ahead], limit, src.RegionAt(|src.data| - |s[ahead..]|), scattered)
  {
    if |out| + Spill(scattered, |out|, limit) == limit {
      SpillReachesLimit(scattered, |out|, |out| + ahead, limit);
    }
  }

  lemma {:induction false} CopyFills(src: Source, s: seq<byte>, len: nat, out: seq<byte>, limit: nat, ahead: nat,
                                     scattered: bool)
    requires ahead <= |s| <= |src.data| && |out| <= limit && |out| + Min(len, |s|) > limit
    requires FillsOutput(src, out, limit, ahead, scattered)
    ensures CopyRegions(src, s, len, out, limit, ahead, scattered) == Cut(out + s[..limit - |out|], true)
    decreases |s|, if ahead == 0 then 1 else 0
  {
    hide CopyRegions, FillsOutput;
    if ahead >= len || |out| + ahead > limit {
      FilledNow(src, s, len, out, limit, ahead, scattered);
    } else {
      var rest, next := s[ahead..], out + s[..ahead];
      CopyRegionsOn(src, s, len, out, limit, ahead, scattered);
      FillsOutputOn(src, s, out, limit, ahead, scattered);
      CopyFills(src, rest, len - ahead, next, limit, src.RegionAt(|src.data| - |rest|), scattered);
      PiecesJoin(out, s, ahead, limit - |next|);
    }
  }

  /** Decoding that stops at a literal too long delivers the fixed output if the copying fills it. */
  lemma FixedByFilling(src: Source, e: Ending, limit: nat, scattered: bool)
    requires |e.stop.out| <= limit && EndsCopying(src, e, limit, scattered) && Overruns(e.stop, limit)
    requires FillsOutput(src, e.stop.out, limit, e.behind, scattered)
    ensures e.out == FixedOutput(e.stop, limit)
  {
    hide CopyRegions, ReadTag, HasTag, FillsOutput;
    var size, len := ReadTag(e.stop.rest).size, ReadTag(e.stop.rest).len;
    var data := e.stop.rest[size..];
    CopyFills(src, data, len, e.stop.out, limit, e.behind, scattered);
    SliceOfSlice(e.stop.rest, size, |e.stop.rest|, 0, limit - |e.stop.out|);
  }

  /**
   Whatever the fragmentation, decoding stops at the same tag, after the same whole operations; what it then
   adds is a prefix of what could be delivered, and it is determined by the bytes and the limit alone unless
   the literal at that tag is too long and a rejected piece of it leaves room.
   */
  lemma DecodeStops(src: Source, s: seq<byte>, out: seq<byte>, limit: nat, ahead: nat, scattered: bool)
    requires ahead <= |s| <= |src.data| && |out| <= limit
    ensures var e := Decode(src, s, out, limit, ahead, scattered);
            && e.stop == StopWithin(s, out, limit) && e.stop.out <= e.out <= Deliver(s, out)
            && (!DependsOnRegions(e.stop, limit, scattered) ==> e.out == FixedOutput(e.stop, limit))
  {
    hide Decode, Deliver, StopWithin, Overruns, EndsCopying, Leftover;
    var e := Decode(src, s, out, limit, ahead, scattered);
    RunIsDecoded(src, s, out, limit, ahead, scattered);
    EndsInCopy(src, s, out, limit, ahead, scattered);
    if Overruns(e.stop, limit) && !DependsOnRegions(e.stop, limit, scattered) {
      FixedByFilling(src, e, limit, scattered);
    }
  }

  lemma {:induction false} BytesLeft(src: Source, s: seq<byte>, len: nat, out: seq<byte>, limit: nat, ahead: nat,
                                     scattered: bool)
    requires ByteRegions(src) && ahead <= |s| <= |src.data| && ahead <= 1 && |out| <= limit
    ensures var r := CopyRegions(src, s, len, out, limit, ahead, scattered); r.Whole? ==> r.ahead <= 1
    decreases |s|, if ahead == 0 then 1 else 0
  {
    if ahead < len && |out| + ahead <= limit && ahead < |s| {
      var rest := s[ahead..];
      BytesLeft(src, rest, len - ahead, out + s[..ahead], limit, src.RegionAt(|src.data| - |rest|), scattered);
    }
  }

  /** Single bytes are never buffered ahead of a literal's data. */
  lemma {:induction false} BytesBehind(src: Source, s: seq<byte>, out: seq<byte>, limit: nat, ahead: nat,
                                       scattered: bool)
    requires ByteRegions(src) && ahead <= |s| <= |src.data| && ahead <= 1 && |out| <= limit
    ensures Decode(src, s, out, limit, ahead, scattered).behind <= 1
    decreases |s|
  {
    hide Decode, CopyRegions, ReadTag, HasTag, CopyFromSelf, ByteRegions;
    if !HasTag(s) {
      NoTagStops(src, s, out, limit, ahead, scattered);
    } else {
      var t := ReadTag(s);
      var behind := AheadOfTag(src, s, ahead, t.size);
      NoneBehind(src, s, ahead, t.size);
      if t.LiteralTag? {
        LiteralIsCopied(src, s, out, limit, ahead, scattered);
        BytesLeft(src, s[t.size..], t.len, out, limit, behind, scattered);
        var r := CopyRegions(src, s[t.size..], t.len, out, limit, behind, scattered);
        if r.Whole? {
          BytesBehind(src, r.rest, r.out, limit, r.ahead, scattered);
        }
      } else {
        CopyIsApplied(src, s, out, limit, ahead, scattered);
        if CopyFits(out, limit, t.offset, t.len) {
          BytesBehind(src, s[t.size..], CopyFromSelf(out, t.offset, t.len), limit, behind, scattered);
        }
      }
    }
  }

  lemma NoneBehind(src: Source, s: seq<byte>, ahead: nat, size: nat)
    requires ByteRegions(src) && 1 <= size <= |s| <= |src.data| && ahead <= 1
    ensures AheadOfTag(src, s, ahead, size) == 0
  {
  }

  /** One region and single bytes deliver different output exactly when it depends on the regions at all. */
  lemma RegionsMatter(whole: Source, bytes: Source, s: seq<byte>, out: seq<byte>, limit: nat, scattered: bool)
    requires |s| <= |whole.data| && |s| <= |bytes.data| && |out| <= limit
    requires OneRegion(whole) && ByteRegions(bytes)
    ensures var e := Decode(whole, s, out, limit, 0, scattered);
            var f := Decode(bytes, s, out, limit, 0, scattered);
            && e.stop == f.stop && f.out == FixedOutput(f.stop, limit)
            && (e.out != f.out <==> DependsOnRegions(e.stop, limit, scattered))
  {
    hide Decode, StopWithin, Deliver, EndsCopying, Overruns, Leftover;
    DecodeStops(whole, s, out, limit, 0, scattered);
    DecodeStops(bytes, s, out, limit, 0, scattered);
    var e := Decode(whole, s, out, limit, 0, scattered);
    var f := Decode(bytes, s, out, limit, 0, scattered);
    if Overruns(f.stop, limit) {
      BytesBehind(bytes, s, out, limit, 0, scattered);
      EndsInCopy(bytes, s, out, limit, 0, scattered);
      FixedByFilling(bytes, f, limit, scattered);
      FixedSize(f.stop, limit);
    }
    if DependsOnRegions(e.stop, limit, scattered) {
      OneRegionStops(whole, s, out, limit, 0, scattered);
    }
  }

  lemma FixedSize(stop: Stop, limit: nat)
    requires |stop.out| <= limit && Overruns(stop, limit)
    ensures |FixedOutput(stop, limit)| == limit
  {
  }
}
