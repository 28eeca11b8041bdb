/** The header in front of every compressed chunk. */
module ChunkHeader {
  import opened Bytes
  import opened LittleEndian
  import opened Streams

  /** Most bytes of a file in one chunk. */
  const MAX_CHUNK_SIZE: nat := 262144

  /** Bytes of the primary index on disk. */
  const BWT_INDEX_BYTES: nat := 3

  /** Size of a header on disk, and in memory where the primary index takes four bytes. */
  const HEADER_SIZE: nat := 267
  const MEMORY_HEADER_SIZE: nat := 268

  datatype Header = Header(primaryIndex: u32, lengths: seq<byte>, origSize: u32, encodedSize: u32)

  predicate WellFormed(h: Header) { |h.lengths| == ALPHABET_SIZE }

  function HuffmanFields(h: Header): (s: seq<byte>)
    ensures |s| == |h.lengths| + 8
  {
    h.lengths + LE(h.origSize, 4) + LE(h.encodedSize, 4)
  }

  function OnDisk(h: Header): (s: seq<byte>)
    ensures |s| == |h.lengths| + 11
  {
    LE(h.primaryIndex, 4)[..BWT_INDEX_BYTES] + HuffmanFields(h)
  }

  function InMemory(h: Header): (s: seq<byte>)
    ensures |s| == |h.lengths| + 12
  {
    LE(h.primaryIndex, 4) + HuffmanFields(h)
  }

  function Parsed(s: seq<byte>): (h: Header)
    requires |s| == HEADER_SIZE
    ensures WellFormed(h)
  {
    var index, orig, encoded := s[..3] + [0], s[259..263], s[263..267];
    Widths();
    ValueBound(index);
    ValueBound(orig);
    ValueBound(encoded);
    Header(FromLE(index), s[3..259], FromLE(orig), FromLE(encoded))
  }

  lemma ParsedFields(s: seq<byte>)
    requires |s| == HEADER_SIZE
    ensures var h := Parsed(s);
            && h.primaryIndex == FromLE(s[..3]) && h.lengths == s[3..259]
            && h.origSize == FromLE(s[259..263]) && h.encodedSize == FromLE(s[263..267])
  {
    hide FromLE;
    TopByte(s[..3], 0);
  }

  predicate Validate(h: Header)
  {
    && h.primaryIndex < MAX_CHUNK_SIZE
    && h.encodedSize <= MAX_CHUNK_SIZE
    && h.origSize <= MAX_CHUNK_SIZE
    && h.encodedSize != 0
    && h.origSize != 0
  }

  lemma IndexBack(p: u32)
    ensures FromLE(LE(p, 4)[..3] + [0]) == p <==> p < 0x100_0000
  {
    Widths();
    ShorterPrefix(p, 3, 4);
    TopByte(LE(p, 3), 0);
    if p < 0x100_0000 {
      ReadBack(p, 3);
    } else {
      ValueBound(LE(p, 3));
    }
  }

  lemma FieldBack(v: u32)
    ensures FromLE(LE(v, 4)) == v
  {
    Widths();
    ReadBack(v, 4);
  }

  /** A header survives the disk exactly when its primary index fits in three bytes. */
  lemma ParseOnDisk(h: Header)
    requires WellFormed(h)
    ensures Parsed(OnDisk(h)) == h <==> h.primaryIndex < 0x100_0000
  {
    hide LE, FromLE;
    var s := OnDisk(h);
    IndexBack(h.primaryIndex);
    FieldBack(h.origSize);
    FieldBack(h.encodedSize);
    assert s[..3] == LE(h.primaryIndex, 4)[..3];
    assert s[3..259] == h.lengths;
    assert s[259..263] == LE(h.origSize, 4) && s[263..267] == LE(h.encodedSize, 4);
  }

  /** The header in memory: index, lengths, original size, encoded size, each in its place. */
  lemma MemoryLayout(h: Header)
    requires WellFormed(h)
    ensures var s := InMemory(h);
            && |s| == 268 && FromLE(s[..4]) == h.primaryIndex && s[4..260] == h.lengths
            && FromLE(s[260..264]) == h.origSize && FromLE(s[264..268]) == h.encodedSize
  {
    hide LE, FromLE;
    var s := InMemory(h);
    FieldBack(h.primaryIndex);
    FieldBack(h.origSize);
    FieldBack(h.encodedSize);
    assert s[..4] == LE(h.primaryIndex, 4);
    assert s[260..264] == LE(h.origSize, 4) && s[264..268] == LE(h.encodedSize, 4);
  }

  /** On disk the header is the one in memory without the highest byte of the index. */
  lemma DiskIsMemory(h: Header)
    requires WellFormed(h)
    ensures OnDisk(h) == InMemory(h)[..3] + InMemory(h)[4..]
  {
    hide LE;
    assert InMemory(h)[..3] == LE(h.primaryIndex, 4)[..3];
    assert InMemory(h)[4..] == HuffmanFields(h);
  }

  /** Different headers have different bytes. */
  lemma MemoryInjective(g: Header, h: Header)
    requires WellFormed(g) && WellFormed(h) && InMemory(g) == InMemory(h)
    ensures g == h
  {
    hide InMemory;
    MemoryLayout(g);
    MemoryLayout(h);
  }

  method WriteHeader(dst: Stream, h: Header)
    requires WellFormed(h) && dst.pos <= |dst.data|
    modifies dst
    ensures dst.data == Overwritten(old(dst.data), old(dst.pos), OnDisk(h))
    ensures dst.pos == old(dst.pos) + HEADER_SIZE
  {
    hide Overwritten, LE, HuffmanFields;
    var index := LE(h.primaryIndex, 4)[..BWT_INDEX_BYTES];
    OverwrittenTwice(dst.data, dst.pos, index, HuffmanFields(h));
    dst.Write(index);
    dst.Write(HuffmanFields(h));
  }

  method ReadHeader(src: Stream) returns (h: Option<Header>)
    modifies src`pos
    ensures h == if old(src.pos) + HEADER_SIZE <= |src.data|
                 then Some(Parsed(src.data[old(src.pos)..old(src.pos) + HEADER_SIZE])) else None
    ensures h.Some? ==> src.pos == old(src.pos) + HEADER_SIZE && WellFormed(h.value)
  {
    hide FromLE;
    ghost var start := src.pos;
    var index := src.Read(BWT_INDEX_BYTES);
    if index == None { return None; }
    var fields := src.Read(HEADER_SIZE - BWT_INDEX_BYTES);
    if fields == None { return None; }
    var s := index.value + fields.value;
    assert s == src.data[start..start + HEADER_SIZE];
    h := Some(Parsed(s));
  }
}
