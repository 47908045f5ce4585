/** The byte source and the byte sink the codec talks to (snappy-sinksource). */
module SourceSink {
  import opened Bytes

  /**
   A source of the bytes in data. At position p, Peek shows a region of region(p) bytes, cut to what is
   left and never empty before the end: every way of fragmenting the data is some choice of region.
   */
  class Source {
    const data: seq<byte>
    const region: nat -> nat
    var pos: nat

    ghost predicate Valid()
      reads this
    {
      pos <= |data|
    }

    /** The bytes not yet skipped. */
    ghost function Rest(): seq<byte>
      requires Valid()
      reads this
    {
      data[pos..]
    }

    constructor (data: seq<byte>, region: nat -> nat)
      ensures this.data == data && this.region == region && pos == 0 && Valid() && Rest() == data
    {
      this.data := data;
      this.region := region;
      pos := 0;
    }

    method Available() returns (n: nat)
      requires Valid()
      ensures n == |Rest()|
    {
      n := |data| - pos;
    }

    /** Size of the region shown at position p. */
    function RegionAt(p: nat): (n: nat)
      requires p <= |data|
      ensures p + n <= |data| && (n == 0 <==> p == |data|)
    {
      Min(Max(1, region(p)), |data| - p)
    }

    /** Shows the next region without consuming it; the region is empty exactly at the end. */
    method Peek() returns (r: seq<byte>)
      requires Valid()
      ensures r == Rest()[..RegionAt(pos)] && (r == [] <==> Rest() == [])
    {
      var n := RegionAt(pos);
      r := data[pos..pos + n];
    }

    method Skip(n: nat)
      requires Valid() && n <= |Rest()|
      modifies this`pos
      ensures Valid() && pos == old(pos) + n
    {
      pos := pos + n;
    }
  }

  /**
   A sink over a flat array. A sink that hands out its own buffer lets the compressor write in place;
   any other sink copies from the caller's scratch space.
   */
  class ArraySink {
    const dest: array<byte>
    const inPlace: bool
    var pos: nat

    ghost predicate Valid()
      reads this
    {
      pos <= dest.Length
    }

    constructor (dest: array<byte>, inPlace: bool)
      ensures this.dest == dest && this.inPlace == inPlace && pos == 0 && Valid()
    {
      this.dest := dest;
      this.inPlace := inPlace;
      pos := 0;
    }

    /** Where the caller may build the next append: this sink's own buffer, or scratch. */
    method GetAppendBuffer(scratch: array<byte>) returns (buffer: array<byte>, at: nat)
      requires Valid()
      ensures if inPlace then buffer == dest && at == pos else buffer == scratch && at == 0
    {
      if inPlace {
        return dest, pos;
      }
      return scratch, 0;
    }

    /** Appends buffer[at..at + n]; nothing is copied when the bytes are already in place. */
    method Append(buffer: array<byte>, at: nat, n: nat)
      requires Valid() && pos + n <= dest.Length && at + n <= buffer.Length
      requires buffer == dest ==> at == pos
      modifies this`pos, dest
      ensures Valid() && pos == old(pos) + n
      ensures dest[old(pos)..pos] == old(buffer[at..at + n])
      ensures OnlyChanged(dest, old(pos), pos)
    {
      if buffer != dest {
        Memcpy(dest, pos, buffer[at..at + n]);
      }
      pos := pos + n;
    }
  }
}
