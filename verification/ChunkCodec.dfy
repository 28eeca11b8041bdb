/** One chunk through the four stages, and back. */
module ChunkCodec {
  import opened Bytes
  import opened ChunkHeader
  import Bwt
  import Mtf
  import Rle
  import HuffmanCodec
  import HuffmanRoundTrip

  /** A compressed chunk as it goes to disk. */
  datatype Packed = Packed(header: Header, payload: seq<byte>)

  /** The Huffman part of a packed chunk. */
  function HuffmanPart(c: Packed): HuffmanCodec.Chunk
  {
    HuffmanCodec.Chunk(c.header.lengths, c.header.origSize, c.header.encodedSize, c.payload)
  }

  /** c is a compression of x: ties between equal rotations leave several primary indices possible. */
  ghost predicate IsPacked(x: seq<byte>, c: Packed)
  {
    exists col :: IsPackedBy(x, c, col)
  }

  ghost predicate IsPackedBy(x: seq<byte>, c: Packed, col: seq<byte>)
  {
    && Bwt.IsBwt(x, col, c.header.primaryIndex)
    && |Rle.Encoded(Mtf.Encoded(col))| < 0x2000_0000
    && HuffmanCodec.Encoded(Rle.Encoded(Mtf.Encoded(col))) == Bytes.Some(HuffmanPart(c))
  }

  method ToArray(s: seq<byte>) returns (a: array<byte>)
    ensures fresh(a) && a[..] == s
  {
    a := new byte[|s|](i requires 0 <= i < |s| => s[i]);
  }

  /** The run-length coding of one chunk fits the limits of the Huffman stage. */
  lemma RleFits(codes: seq<byte>)
    requires |codes| <= MAX_CHUNK_SIZE
    ensures |Rle.Encoded(codes)| <= 264192
  {
    Rle.Expansion(codes);
  }

  method CompressChunk(x: seq<byte>) returns (c: Packed)
    requires 0 < |x| <= MAX_CHUNK_SIZE
    ensures IsPacked(x, c)
  {
    hide Mtf.Encoded, Rle.Encoded, HuffmanCodec.Encoded, Bwt.IsBwt;
    var buf := ToArray(x);
    var buf2 := new byte[|x|];
    var primary := Bwt.Encode(buf, buf2);
    ghost var col := buf2[..];
    Mtf.Encode(buf2, buf);
    RleFits(buf[..]);
    Rle.EncodedEmpty(buf[..]);
    var rle := Rle.Encode(buf);
    assert rle != null;
    HuffmanRoundTrip.EncodedFields(rle[..]);
    var chunk := HuffmanCodec.HuffmanEncode(rle);
    var h := chunk.value;
    c := Packed(Header(primary, h.lengths, h.origSize, h.encodedSize), h.data);
    assert IsPackedBy(x, c, col);
  }

  /** What the reader makes of a header and the bytes behind it. */
  function Unpacked(c: Packed): Option<seq<byte>>
    requires WellFormed(c.header)
  {
    match HuffmanCodec.Decoded(HuffmanPart(c))
    case None => None
    case Some(rle) =>
      match Rle.Decoded(rle)
      case None => None
      case Some(codes) =>
        if c.header.primaryIndex >= |codes| then None
        else Some(Bwt.Decoded(Mtf.Decoded(codes), c.header.primaryIndex))
  }

  /** The size of the chunk as found without the last two stages. */
  function UnpackedSize(c: Packed): Option<nat>
    requires WellFormed(c.header)
  {
    match HuffmanCodec.Decoded(HuffmanPart(c))
    case None => None
    case Some(rle) => Some(if Rle.Decoded(rle).Some? then |Rle.Decoded(rle).value| else 0)
  }

  method DecodeHuffman(c: Packed) returns (rle: Option<seq<byte>>)
    requires WellFormed(c.header) && |c.payload| == c.header.encodedSize
    requires HuffmanCodec.StaysInBuffer(HuffmanPart(c))
    ensures rle == HuffmanCodec.Decoded(HuffmanPart(c))
  {
    hide HuffmanCodec.Decoded, HuffmanCodec.StaysInBuffer;
    var lengths := ToArray(c.header.lengths);
    var data := ToArray(c.payload);
    rle := HuffmanCodec.HuffmanDecode(lengths, c.header.origSize, data, HuffmanPart(c));
  }

  method DecompressChunk(c: Packed) returns (x: Option<seq<byte>>)
    requires WellFormed(c.header) && |c.payload| == c.header.encodedSize
    requires HuffmanCodec.StaysInBuffer(HuffmanPart(c))
    ensures x == Unpacked(c)
  {
    hide HuffmanCodec.Decoded, Rle.Decoded, HuffmanCodec.StaysInBuffer, Bwt.Decoded, Mtf.Decoded;
    var rle := DecodeHuffman(c);
    if rle == None { return None; }
    var input := ToArray(rle.value);
    var codes := Rle.Decode(input);
    if codes == null || c.header.primaryIndex >= codes.Length { return None; }
    var buf, buf2, transform := new byte[codes.Length], new byte[codes.Length], new nat[codes.Length];
    Mtf.Decode(codes, buf2);
    Bwt.Decode(buf2, c.header.primaryIndex, transform, buf);
    x := Some(buf[..]);
  }

  method ComputeChunkSize(c: Packed) returns (size: Option<nat>)
    requires WellFormed(c.header) && |c.payload| == c.header.encodedSize
    requires HuffmanCodec.StaysInBuffer(HuffmanPart(c))
    ensures size == UnpackedSize(c)
  {
    hide HuffmanCodec.Decoded, Rle.Decoded, HuffmanCodec.StaysInBuffer;
    var rle := DecodeHuffman(c);
    if rle == None { return None; }
    var input := ToArray(rle.value);
    var s := Rle.DecodeComputeSize(input);
    size := Some(s);
  }

  // ----- the round trip of a chunk -------------------------------------------------------------------------------

  lemma PackedFields(x: seq<byte>, c: Packed)
    requires 0 < |x| <= MAX_CHUNK_SIZE && IsPacked(x, c)
    ensures WellFormed(c.header) && |c.payload| == c.header.encodedSize
    ensures c.header.primaryIndex < |x|
    ensures 0 < c.header.encodedSize <= c.header.origSize <= 264192
  {
    hide Mtf.Encoded, Rle.Encoded, HuffmanCodec.Encoded, Bwt.IsBwt, Bwt.Decoded;
    var col :| IsPackedBy(x, c, col);
    var codes := Mtf.Encoded(col);
    Bwt.RoundTrip(x, col, c.header.primaryIndex);
    RleFits(codes);
    Rle.EncodedEmpty(codes);
    HuffmanRoundTrip.EncodedFields(Rle.Encoded(codes));
  }

  /** Whatever the encoder produced for a chunk, the decoder returns the chunk and stays inside its buffers. */
  lemma ChunkRoundTrip(x: seq<byte>, c: Packed)
    requires 0 < |x| <= MAX_CHUNK_SIZE && IsPacked(x, c)
    ensures WellFormed(c.header) && HuffmanCodec.StaysInBuffer(HuffmanPart(c))
    ensures Unpacked(c) == Some(x) && UnpackedSize(c) == Some(|x|)
  {
    hide Mtf.Encoded, Rle.Encoded, HuffmanCodec.Encoded, Bwt.IsBwt, Bwt.Decoded, Mtf.Decoded, Rle.Decoded;
    hide HuffmanCodec.Decoded, HuffmanCodec.StaysInBuffer;
    PackedFields(x, c);
    var col :| IsPackedBy(x, c, col);
    var codes := Mtf.Encoded(col);
    Bwt.RoundTrip(x, col, c.header.primaryIndex);
    RleFits(codes);
    Rle.EncodedEmpty(codes);
    HuffmanRoundTrip.RoundTripUpTo(Rle.Encoded(codes));
    Rle.DecodeEncode(codes);
    Mtf.DecodeEncode(col);
  }

  /** The reader accepts the header exactly when the run-length coding did not outgrow the chunk size. */
  lemma AcceptedIff(x: seq<byte>, c: Packed)
    requires 0 < |x| <= MAX_CHUNK_SIZE && IsPacked(x, c)
    ensures Validate(c.header) <==> c.header.origSize <= MAX_CHUNK_SIZE
    ensures exists col :: IsPackedBy(x, c, col) && c.header.origSize == |Rle.Encoded(Mtf.Encoded(col))|
  {
    hide Mtf.Encoded, Rle.Encoded, HuffmanCodec.Encoded, Bwt.IsBwt;
    PackedFields(x, c);
    var col :| IsPackedBy(x, c, col);
    var codes := Mtf.Encoded(col);
    Bwt.RoundTrip(x, col, c.header.primaryIndex);
    Rle.EncodedEmpty(codes);
    HuffmanRoundTrip.EncodedFields(Rle.Encoded(codes));
  }

  /** Every chunk of at most 260111 bytes gets a header the reader accepts. */
  lemma SmallChunkAccepted(x: seq<byte>, c: Packed)
    requires 0 < |x| <= 260111 && IsPacked(x, c)
    ensures Validate(c.header)
  {
    hide Mtf.Encoded, Rle.Encoded, HuffmanCodec.Encoded, Bwt.IsBwt, Bwt.Decoded;
    AcceptedIff(x, c);
    var col :| IsPackedBy(x, c, col) && c.header.origSize == |Rle.Encoded(Mtf.Encoded(col))|;
    Bwt.RoundTrip(x, col, c.header.primaryIndex);
    Rle.Expansion(Mtf.Encoded(col));
  }
}
