/** The string-level interface and the round trip it promises. */
module Snappy {
  import opened Bytes
  import opened Format
  import opened SourceSink
  import opened Compression
  import opened Repetition
  import opened Runs
  import opened Uncompression

  /**
   Compresses into a caller's buffer of MaxCompressedLength bytes, in place and from one flat region. One
   byte repeated shrinks to a twentieth, and 22 bytes.
   */
  method RawCompress(input: seq<byte>, compressed: array<byte>) returns (compressedLength: nat)
    requires |input| < 0x1_0000_0000 && 32 + |input| + |input| / 6 <= compressed.Length
    modifies compressed
    ensures compressedLength <= 32 + |input| + |input| / 6
    ensures IsCompressed(compressed[..compressedLength], input)
    ensures compressed[..compressedLength] == CompressedForm(input)
    ensures AllEqual(input) ==> compressedLength <= |input| / 20 + 22
    ensures var room := 32 + |input| + |input| / 6; compressed[room..] == old(compressed[room..])
  {
    hide IsCompressed, CompressedForm, OneRegion, AllEqual;
    var reader := ByteArraySource(input);
    var writer := new ArraySink(compressed, true);
    compressedLength := Compress(reader, writer);
    assert compressed[0..compressedLength] == compressed[..compressedLength];
    if AllEqual(input) {
      RunFormSize(input);
    }
  }

  method CompressString(input: seq<byte>) returns (compressed: seq<byte>)
    requires |input| < 0x1_0000_0000
    ensures IsCompressed(compressed, input) && |compressed| <= 32 + |input| + |input| / 6
    ensures compressed == CompressedForm(input)
    ensures AllEqual(input) ==> |compressed| <= |input| / 20 + 22
  {
    hide IsCompressed, CompressedForm, AllEqual;
    var buffer := new byte[MaxCompressedLength(|input|)];
    var compressedLength := RawCompress(input, buffer);
    return buffer[..compressedLength];
  }

  /**
   Compressing and decompressing gives the input back, however the two sources are fragmented and whether
   or not the sink lets the compressor write in place.
   */
  method RoundTrip(input: seq<byte>, regions: nat -> nat, inPlace: bool, compressedRegions: nat -> nat)
    returns (ok: bool, output: array<byte>)
    requires |input| < 0x1_0000_0000
    ensures ok && output[..] == input
  {
    hide *;
    var reader := new Source(input, regions);
    var buffer := new byte[32 + |input| + |input| / 6];
    var writer := new ArraySink(buffer, inPlace);
    var written := Compress(reader, writer);
    var compressed := new Source(buffer[..written], compressedRegions);
    CompressedMeans(compressed.Rest(), input);
    output := new byte[|input|];
    ok := RawUncompress(compressed, output);
    assert output[..|input|] == output[..];
  }

  lemma CompressedMeans(s: seq<byte>, data: seq<byte>)
    requires IsCompressed(s, data)
    ensures Declared(s) == |data| && Uncompress(s) == Some(data)
  {
  }
}
