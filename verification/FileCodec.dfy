/** Whole files in chunks: copying, compressing through a temporary file, and decompressing. */
module FileCodec {
  import opened Bytes
  import opened LittleEndian
  import opened Streams
  import opened ChunkHeader
  import opened ChunkCodec
  import opened MetaEntry
  import opened Crc32c
  import opened CrcCombine
  import CrcPeriod
  import HuffmanCodec

  // ----- the chunks of a file ------------------------------------------------------------------------------------

  /** The first k chunks' worth of bytes. */
  function Front(x: seq<byte>, k: nat): (s: seq<byte>)
    ensures |s| == Min(k * MAX_CHUNK_SIZE, |x|)
  {
    x[..Min(k * MAX_CHUNK_SIZE, |x|)]
  }

  /** The bytes of chunk k: all chunks but the last are full. */
  function Piece(x: seq<byte>, k: nat): (s: seq<byte>)
  {
    var lo, hi := Min(k * MAX_CHUNK_SIZE, |x|), Min((k + 1) * MAX_CHUNK_SIZE, |x|);
    x[lo..hi]
  }

  function NumChunks(n: nat): nat
  {
    n / MAX_CHUNK_SIZE + if n % MAX_CHUNK_SIZE > 0 then 1 else 0
  }

  lemma FrontNext(x: seq<byte>, k: nat)
    ensures Front(x, k) + Piece(x, k) == Front(x, k + 1)
  {
  }

  lemma ChunkBounds(n: nat, k: nat)
    ensures k < NumChunks(n) <==> k * MAX_CHUNK_SIZE < n
  {
  }

  lemma PieceSize(x: seq<byte>, k: nat)
    requires k < NumChunks(|x|)
    ensures 0 < |Piece(x, k)| <= MAX_CHUNK_SIZE
    ensures |Piece(x, k)| == Min(MAX_CHUNK_SIZE, |x| - k * MAX_CHUNK_SIZE)
  {
    ChunkBounds(|x|, k);
  }

  lemma AllPieces(x: seq<byte>)
    ensures Front(x, NumChunks(|x|)) == x && Front(x, 0) == []
  {
    ChunkBounds(|x|, NumChunks(|x|));
  }

  // ----- what is written, and what is checked --------------------------------------------------------------------

  /** cs are compressions of the chunks of x, in order. */
  ghost predicate Compressed(x: seq<byte>, cs: seq<Packed>)
  {
    |cs| == NumChunks(|x|) && CompressedPart(x, cs)
  }

  ghost predicate CompressedPart(x: seq<byte>, cs: seq<Packed>)
  {
    |cs| <= NumChunks(|x|) && forall k :: 0 <= k < |cs| ==> IsPacked(Piece(x, k), cs[k])
  }

  /** The bytes of the chunks on disk. */
  function Written(cs: seq<Packed>): seq<byte>
  {
    if cs == [] then []
    else Written(cs[..|cs| - 1]) + OnDisk(cs[|cs| - 1].header) + cs[|cs| - 1].payload
  }

  /** The bytes the checksum covers: each header as in memory, then the chunk before compression. */
  function Checked(x: seq<byte>, cs: seq<Packed>): seq<byte>
  {
    if cs == [] then []
    else Checked(x, cs[..|cs| - 1]) + InMemory(cs[|cs| - 1].header) + Piece(x, |cs| - 1)
  }

  ghost predicate AllAccepted(cs: seq<Packed>)
  {
    forall k :: 0 <= k < |cs| ==> Validate(cs[k].header)
  }

  lemma WrittenNext(cs: seq<Packed>, c: Packed)
    ensures Written(cs + [c]) == Written(cs) + OnDisk(c.header) + c.payload
  {
    assert (cs + [c])[..|cs|] == cs;
  }

  lemma CheckedNext(x: seq<byte>, cs: seq<Packed>, c: Packed)
    ensures Checked(x, cs + [c]) == Checked(x, cs) + InMemory(c.header) + Piece(x, |cs|)
  {
    assert (cs + [c])[..|cs|] == cs;
  }

  lemma {:induction false} CheckedSize(x: seq<byte>, cs: seq<Packed>)
    requires CompressedPart(x, cs)
    ensures |Checked(x, cs)| == |Front(x, |cs|)| + MEMORY_HEADER_SIZE * |cs|
  {
    hide IsPacked, InMemory;
    if cs != [] {
      var k := |cs| - 1;
      CheckedSize(x, cs[..k]);
      PieceSize(x, k);
      PackedFields(Piece(x, k), cs[k]);
      FrontNext(x, k);
      HeaderSizes(cs[k].header);
    }
  }

  lemma HeaderSizes(h: Header)
    requires WellFormed(h)
    ensures |InMemory(h)| == MEMORY_HEADER_SIZE && |OnDisk(h)| == HEADER_SIZE
  {
  }

  // ----- copying -------------------------------------------------------------------------------------------------

  /** Copies dataSize bytes in chunks, adding them to the checksum if asked; without dst only reads.
      False when src is too short. */
  method CopyFile(dst: Stream?, src: Stream, dataSize: u64, me: Entry, computeCrc: bool) returns (ok: bool)
    requires dst != src && src.pos <= |src.data| && (dst != null ==> dst.pos <= |dst.data|)
    modifies dst, src`pos, me`crc32
    ensures ok == (old(src.pos) + dataSize <= |src.data|)
    ensures ok ==> src.pos == old(src.pos) + dataSize
    ensures ok ==> me.crc32 == if computeCrc then Crc(src.data[old(src.pos)..src.pos], old(me.crc32)) else old(me.crc32)
    ensures ok && dst != null ==>
              dst.data == Overwritten(old(dst.data), old(dst.pos), src.data[old(src.pos)..src.pos])
              && dst.pos == old(dst.pos) + dataSize
  {
    hide Crc, Overwritten;
    var i: nat := 0;
    ghost var start, all := src.pos, src.data;
    NoBytesYet(me.crc32);
    assert all[start..start] == [];
    if dst != null { OverwrittenNothing(dst.data, dst.pos); }
    while i < dataSize
      invariant i <= dataSize && src.pos == start + i <= |all| && src.data == all
      invariant me.crc32 == if computeCrc then Crc(all[start..start + i], old(me.crc32)) else old(me.crc32)
      invariant dst != null ==> dst.pos == old(dst.pos) + i <= |dst.data|
      invariant dst != null ==> dst.data == Overwritten(old(dst.data), old(dst.pos), all[start..start + i])
    {
      var s := Min(MAX_CHUNK_SIZE, dataSize - i);
      var buf := src.Read(s);
      if buf == None {
        return false;
      }
      assert all[start..start + i] + all[start + i..start + i + s] == all[start..start + i + s];
      if computeCrc {
        CrcChain(all[start..start + i], buf.value, old(me.crc32));
        me.crc32 := CrcOf(buf.value, me.crc32);
      }
      if dst != null {
        OverwrittenTwice(old(dst.data), old(dst.pos), all[start..start + i], buf.value);
        dst.Write(buf.value);
      }
      i := i + s;
    }
    ok := true;
  }

  lemma NoBytesYet(c: bv32)
    ensures Crc([], c) == c
  {
  }

  method CrcOf(data: seq<byte>, previous: bv32) returns (r: bv32)
    ensures r == Crc(data, previous)
  {
    hide Crc;
    var a := ToArray(data);
    r := CrcByTable(a, a.Length, previous);
    assert a[..a.Length] == data;
  }

  // ----- compressing ---------------------------------------------------------------------------------------------

  /** Compresses one chunk, extends the running checksum by its header and its bytes, and writes it out. */
  method AppendChunk(tmp: Stream, x: seq<byte>, crc: bv32) returns (c: Packed, next: bv32)
    requires 0 < |x| <= MAX_CHUNK_SIZE && tmp.pos == |tmp.data|
    modifies tmp
    ensures IsPacked(x, c)
    ensures tmp.data == old(tmp.data) + OnDisk(c.header) + c.payload && tmp.pos == |tmp.data|
    ensures next == Combined(Crc(InMemory(c.header), crc), Crc(x, 0), |x|)
  {
    hide IsPacked, Crc, Combined, OnDisk, InMemory;
    var crcSource := CrcOf(x, 0);
    c := CompressChunk(x);
    PackedFields(x, c);
    next := CrcOf(InMemory(c.header), crc);
    next := Combine(next, crcSource, |x|);
    HeaderSizes(c.header);
    WriteHeader(tmp, c.header);
    tmp.Write(c.payload);
  }

  /** The checksum after one more chunk. */
  lemma CheckedCrc(x: seq<byte>, cs: seq<Packed>, c: Packed)
    ensures Combined(Crc(InMemory(c.header), Crc(Checked(x, cs), 0)), Crc(Piece(x, |cs|), 0), |Piece(x, |cs|)|)
            == Crc(Checked(x, cs + [c]), 0)
  {
    hide Crc, Combined, Piece, InMemory, Checked;
    CheckedNext(x, cs, c);
    CrcChain(Checked(x, cs), InMemory(c.header), 0);
    CombineAppends(Checked(x, cs) + InMemory(c.header), Piece(x, |cs|), 0);
  }

  lemma CompressedOneMore(x: seq<byte>, cs: seq<Packed>, c: Packed)
    requires CompressedPart(x, cs) && |cs| < NumChunks(|x|) && IsPacked(Piece(x, |cs|), c)
    ensures CompressedPart(x, cs + [c])
  {
    hide IsPacked, Piece;
  }

  lemma NothingYet(x: seq<byte>)
    ensures CompressedPart(x, []) && Written([]) == [] && Crc(Checked(x, []), 0) == 0
  {
    NoBytesYet(0);
  }

  /** The chunk loop: every chunk of the file in the temporary stream. */
  method CompressChunks(tmp: Stream, src: Stream, dataSize: u64) returns (ok: bool, crc: bv32, ghost cs: seq<Packed>)
    requires tmp != src && tmp.data == [] && tmp.pos == 0 && src.pos <= |src.data|
    modifies tmp, src`pos
    ensures ok == (old(src.pos) + dataSize <= |src.data|)
    ensures ok ==> var x := src.data[old(src.pos)..old(src.pos) + dataSize];
                   Compressed(x, cs) && tmp.data == Written(cs) && crc == Crc(Checked(x, cs), 0)
  {
    hide CompressedPart, Crc, Combined, Piece, Checked, Written, NumChunks, IsPacked;
    ghost var start, all := src.pos, src.data;
    ghost var x := if start + dataSize <= |all| then all[start..start + dataSize] else [];
    var i: nat := 0;
    crc, cs := 0, [];
    NothingYet(x);
    ChunkBounds(dataSize, 0);
    while i < dataSize
      invariant i <= dataSize && src.data == all && src.pos == start + i <= |all|
      invariant i == Min(|cs| * MAX_CHUNK_SIZE, dataSize)
      invariant tmp.pos == |tmp.data|
      invariant start + dataSize <= |all| ==>
                  CompressedPart(x, cs) && tmp.data == Written(cs) && crc == Crc(Checked(x, cs), 0)
    {
      var s := Min(MAX_CHUNK_SIZE, dataSize - i);
      var buf := src.Read(s);
      if buf == None {
        return false, crc, cs;
      }
      var c;
      c, crc := AppendChunk(tmp, buf.value, crc);
      ghost var k := |cs|;
      if start + dataSize <= |all| {
        PieceBytes(all, start, dataSize, k);
        ChunkBounds(dataSize, k);
        CheckedCrc(x, cs, c);
        WrittenNext(cs, c);
        CompressedOneMore(x, cs, c);
      }
      cs := cs + [c];
      i := i + s;
    }
    ok := true;
    AllChunks(x, cs);
  }

  lemma PieceBytes(all: seq<byte>, start: nat, size: nat, k: nat)
    requires start + size <= |all| && k * MAX_CHUNK_SIZE < size
    ensures var i := k * MAX_CHUNK_SIZE; var s := Min(MAX_CHUNK_SIZE, size - i);
            Piece(all[start..start + size], k) == all[start + i..start + i + s]
  {
    var x, i := all[start..start + size], k * MAX_CHUNK_SIZE;
    var hi := i + Min(MAX_CHUNK_SIZE, size - i);
    assert (k + 1) * MAX_CHUNK_SIZE == i + MAX_CHUNK_SIZE;
    assert Piece(x, k) == x[i..hi];
    SliceOfPart(all, start, size, i, hi);
  }

  lemma SliceOfPart(all: seq<byte>, start: nat, size: nat, lo: nat, hi: nat)
    requires start + size <= |all| && lo <= hi <= size
    ensures all[start..start + size][lo..hi] == all[start + lo..start + hi]
  {
    var x, y := all[start..start + size][lo..hi], all[start + lo..start + hi];
    assert |x| == |y| && forall i :: 0 <= i < |x| ==> x[i] == y[i];
  }

  lemma AllChunks(x: seq<byte>, cs: seq<Packed>)
    requires CompressedPart(x, cs) && |cs| * MAX_CHUNK_SIZE >= |x|
    ensures |cs| == NumChunks(|x|)
  {
    ChunkBounds(|x|, |cs|);
  }

  /** The length the writer passes with the checksum of all chunks, cut to 32 bits. */
  function CombinedLength(dataSize: nat, numChunks: nat): u32
  {
    (dataSize + numChunks * MEMORY_HEADER_SIZE) % 0x1_0000_0000
  }

  /** Compresses a file of dataSize bytes behind the entry's common header. When the result is not
      smaller nothing is written and the entry is marked as stored. */
  method CompressFile(dst: Stream, src: Stream, dataSize: u64, me: Entry) returns (ok: bool, ghost cs: seq<Packed>)
    requires dst != src && src.pos <= |src.data| && dst.pos <= |dst.data|
    requires TypeOf(me.attributes) == TYPE_FILE
    modifies dst, src`pos, me
    ensures old(src.pos) + dataSize > |src.data| ==> !ok && me.attributes == old(me.attributes)
    ensures !ok ==> dst.data == old(dst.data)
    ensures old(src.pos) + dataSize <= |src.data| ==>
              Compressed(src.data[old(src.pos)..old(src.pos) + dataSize], cs)
              && (ok <==> |Written(cs)| < dataSize)
              && (!ok ==> me.attributes == SetComp(old(me.attributes), COMP_STORED)
                          && me.dataSize == old(me.dataSize))
    ensures me.name == old(me.name)
    ensures ok ==> old(src.pos) + dataSize <= |src.data| && me.attributes == old(me.attributes)
                   && me.dataSize == |Written(cs)|
    ensures ok ==> dst.data == Overwritten(old(dst.data), old(dst.pos), LE(me.dataSize, 8) + Written(cs))
                   && dst.pos == old(dst.pos) + 8 + |Written(cs)|
    ensures ok ==> me.crc32 == Combined(Crc(LE(me.dataSize, 8), old(me.crc32)),
                                        Crc(Checked(src.data[old(src.pos)..old(src.pos) + dataSize], cs), 0),
                                        CombinedLength(dataSize, NumChunks(dataSize)))
  {
    hide Compressed, Crc, Combined, Checked, Written, NumChunks, Overwritten, LE;
    var tmp := new Stream();
    var read, crc;
    read, crc, cs := CompressChunks(tmp, src, dataSize);
    if !read {
      return false, cs;
    }
    var size := |tmp.data|;
    if size >= dataSize {
      me.attributes := SetComp(me.attributes, COMP_STORED);
      return false, cs;
    }
    tmp.Seek(0);
    var numChunks := NumChunks(dataSize);
    me.dataSize := size;
    me.crc32 := CrcOf(LE(size, 8), me.crc32);
    me.crc32 := Combine(me.crc32, crc, CombinedLength(dataSize, numChunks));
    OverwrittenTwice(dst.data, dst.pos, LE(size, 8), Written(cs));
    ok := WriteFileEntry(dst, me);
    if !ok {
      return false, cs;
    }
    ok := CopyFile(dst, tmp, size, me, false);
    assert tmp.data[0..size] == tmp.data;
  }

  // ----- decompressing -------------------------------------------------------------------------------------------

  /** Where chunk k lies among the bytes written. */
  lemma {:induction false} WrittenAt(cs: seq<Packed>, k: nat)
    requires k < |cs|
    ensures var w, h, p := Written(cs[..k]), OnDisk(cs[k].header), cs[k].payload;
            Written(cs[..k + 1]) == w + h + p && w + h + p <= Written(cs)
    decreases |cs|
  {
    hide OnDisk;
    assert cs[..k + 1] == cs[..k] + [cs[k]];
    WrittenNext(cs[..k], cs[k]);
    if k + 1 == |cs| {
      assert cs[..k + 1] == cs;
    } else {
      var front := cs[..|cs| - 1];
      WrittenAt(front, k);
      assert front[..k] == cs[..k] && front[..k + 1] == cs[..k + 1];
    }
  }

  /** The chunk at the front of s; None when s is too short or the header is not acceptable. */
  function ChunkAt(s: seq<byte>): Option<Packed>
  {
    if |s| < HEADER_SIZE then Bytes.None
    else
      var h := Parsed(s[..HEADER_SIZE]);
      if !Validate(h) || |s| < HEADER_SIZE + h.encodedSize then Bytes.None
      else Bytes.Some(Packed(h, s[HEADER_SIZE..HEADER_SIZE + h.encodedSize]))
  }

  lemma SubHeader(s: seq<byte>)
    requires |s| >= HEADER_SIZE
    ensures var t := s[..HEADER_SIZE]; t[..3] == s[..3] && t[259..263] == s[259..263] && t[263..267] == s[263..267]
  {
  }

  /** A chunk as written is read back exactly when its header is acceptable. */
  lemma ChunkBack(c: Packed, s: seq<byte>)
    requires WellFormed(c.header) && |c.payload| == c.header.encodedSize && c.header.primaryIndex < MAX_CHUNK_SIZE
    requires OnDisk(c.header) + c.payload <= s
    ensures ChunkAt(s) == if Validate(c.header) then Bytes.Some(c) else Bytes.None
  {
    hide OnDisk, Parsed, Validate;
    HeaderSizes(c.header);
    ParseOnDisk(c.header);
    var n := HEADER_SIZE + |c.payload|;
    assert s[..n] == OnDisk(c.header) + c.payload;
    assert s[..HEADER_SIZE] == s[..n][..HEADER_SIZE] == OnDisk(c.header);
    assert s[HEADER_SIZE..n] == s[..n][HEADER_SIZE..] == c.payload;
  }

  /** Reads one chunk, whatever the stream holds. */
  method ReadChunk(src: Stream) returns (r: Option<Packed>)
    requires src.pos <= |src.data|
    modifies src`pos
    ensures r == ChunkAt(src.data[old(src.pos)..])
    ensures r.Some? ==> src.pos == old(src.pos) + HEADER_SIZE + |r.value.payload| <= |src.data|
    ensures r.Some? ==> WellFormed(r.value.header) && |r.value.payload| == r.value.header.encodedSize
    ensures var s := src.data[old(src.pos)..];
            r.Some? <==> |s| >= 267 && FromLE(s[..3]) < 262144 && 0 < FromLE(s[259..263]) <= 262144
                         && 0 < FromLE(s[263..267]) <= 262144 && |s| - 267 >= FromLE(s[263..267])
  {
    hide Parsed, FromLE;
    ghost var s := src.data[src.pos..];
    if |s| >= HEADER_SIZE { ParsedFields(s[..HEADER_SIZE]); SubHeader(s); }
    assert |s| >= HEADER_SIZE ==> src.data[src.pos..src.pos + HEADER_SIZE] == s[..HEADER_SIZE];
    var h := ReadHeader(src);
    if h == Bytes.None || !Validate(h.value) {
      return Bytes.None;
    }
    var payload := src.Read(h.value.encodedSize);
    if payload == Bytes.None {
      return Bytes.None;
    }
    assert payload.value == s[HEADER_SIZE..HEADER_SIZE + h.value.encodedSize];
    r := Bytes.Some(Packed(h.value, payload.value));
  }

  /** Reads chunk k of a file as written. */
  method ReadPiece(src: Stream, ghost x: seq<byte>, ghost cs: seq<Packed>, ghost k: nat, ghost start: nat)
    returns (r: Option<Packed>)
    requires Compressed(x, cs) && k < |cs| && start <= |src.data| && Written(cs) <= src.data[start..]
    requires src.pos == start + |Written(cs[..k])| <= |src.data|
    modifies src`pos
    ensures r == if Validate(cs[k].header) then Bytes.Some(cs[k]) else Bytes.None
    ensures r.Some? ==> src.pos == start + |Written(cs[..k + 1])| <= |src.data|
    ensures |Written(cs[..k + 1])| == |Written(cs[..k])| + HEADER_SIZE + cs[k].header.encodedSize
    ensures WellFormed(cs[k].header) && |cs[k].payload| == cs[k].header.encodedSize
  {
    hide Written, IsPacked, Piece, OnDisk, Validate, NumChunks, ChunkAt;
    ghost var rest := src.data[start..];
    WrittenAt(cs, k);
    PieceSize(x, k);
    PackedFields(Piece(x, k), cs[k]);
    HeaderSizes(cs[k].header);
    NextRest(rest, Written(cs[..k]), OnDisk(cs[k].header) + cs[k].payload, Written(cs));
    assert src.data[src.pos..] == rest[|Written(cs[..k])|..];
    ChunkBack(cs[k], src.data[src.pos..]);
    r := ReadChunk(src);
  }

  /** Decompresses dataSize bytes written by CompressFile, here the chunks cs of the file x. Without
      decode only the original size is computed. False when a chunk header is not acceptable, or when
      the file is not larger than its compressed form. */
  method DecompressFile(dst: Stream?, src: Stream, dataSize: u64, me: Entry, decode: bool,
                        ghost x: seq<byte>, ghost cs: seq<Packed>) returns (ok: bool)
    requires dst != src && src.pos <= |src.data| && (dst != null ==> dst.pos <= |dst.data|)
    requires Compressed(x, cs) && dataSize == |Written(cs)| && Written(cs) <= src.data[src.pos..]
    modifies dst, src`pos, me`crc32
    ensures ok <==> AllAccepted(cs) && |x| > dataSize
    ensures ok ==> src.pos == old(src.pos) + dataSize
    ensures ok ==> me.crc32 == if decode then Crc(Checked(x, cs), old(me.crc32)) else old(me.crc32)
    ensures ok && dst != null ==>
              dst.data == Overwritten(old(dst.data), old(dst.pos), if decode then x else [])
              && dst.pos == old(dst.pos) + if decode then |x| else 0
  {
    hide Written, Checked, Crc, Overwritten, IsPacked, Piece, OnDisk, InMemory, Validate, NumChunks;
    hide Unpacked, UnpackedSize, WellFormed, HuffmanCodec.StaysInBuffer, ChunkAt;
    var i: nat, origSize: nat := 0, 0;
    ghost var start, rest, k: nat, crc0 := src.pos, src.data[src.pos..], 0, me.crc32;
    ghost var data0, pos0 := if dst != null then dst.data else [], if dst != null then dst.pos else 0;
    StartOfFile(x, cs, me.crc32);
    if dst != null { OverwrittenNothing(data0, pos0); }
    while i < dataSize
      invariant k <= |cs| && i == |Written(cs[..k])| && src.pos == start + i && src.data == old(src.data)
      invariant AllAccepted(cs[..k]) && origSize == |Front(x, k)|
      invariant me.crc32 == if decode then Crc(Checked(x, cs[..k]), crc0) else crc0
      invariant dst != null ==> dst.data == Overwritten(data0, pos0, if decode then Front(x, k) else [])
      invariant dst != null ==> dst.pos == pos0 + if decode then |Front(x, k)| else 0
      decreases |cs| - k
    {
      assert cs[..|cs|] == cs;
      assert k < |cs|;
      PieceSize(x, k);
      ChunkRoundTrip(Piece(x, k), cs[k]);
      FrontNext(x, k);
      var chunk := ReadPiece(src, x, cs, k, start);
      assert chunk == Bytes.None ==> !AllAccepted(cs);
      if chunk == Bytes.None {
        return false;
      }
      var c := chunk.value;
      if !decode {
        var s := ComputeChunkSize(c);
        if s == Bytes.None {
          return false;
        }
        origSize := origSize + s.value;
      } else {
        var data := DecompressChunk(c);
        if data == Bytes.None {
          return false;
        }
        origSize := origSize + |data.value|;
        me.crc32 := CrcOf(InMemory(c.header), me.crc32);
        me.crc32 := CrcOf(data.value, me.crc32);
        CheckedChain(x, cs, k, crc0);
        if dst != null {
          OverwrittenTwice(data0, pos0, Front(x, k), data.value);
          dst.Write(data.value);
        }
      }
      AcceptedNext(cs, k);
      i := i + c.header.encodedSize + HEADER_SIZE;
      k := k + 1;
    }
    AllRead(cs, k);
    AllPieces(x);
    assert cs[..|cs|] == cs;
    ok := origSize > dataSize;
  }

  lemma StartOfFile(x: seq<byte>, cs: seq<Packed>, c: bv32)
    ensures Written(cs[..0]) == [] && Checked(x, cs[..0]) == [] && Front(x, 0) == [] && Crc([], c) == c
  {
    NoBytesYet(c);
  }

  lemma NextRest(rest: seq<byte>, a: seq<byte>, b: seq<byte>, all: seq<byte>)
    requires a + b <= all <= rest
    ensures b <= rest[|a|..]
  {
  }

  lemma AcceptedNext(cs: seq<Packed>, k: nat)
    requires k < |cs| && AllAccepted(cs[..k]) && Validate(cs[k].header)
    ensures AllAccepted(cs[..k + 1])
  {
    hide Validate;
  }

  lemma CheckedChain(x: seq<byte>, cs: seq<Packed>, k: nat, c: bv32)
    requires k < |cs|
    ensures Crc(Piece(x, k), Crc(InMemory(cs[k].header), Crc(Checked(x, cs[..k]), c))) == Crc(Checked(x, cs[..k + 1]), c)
  {
    hide Crc, Piece, InMemory, Checked;
    assert cs[..k + 1] == cs[..k] + [cs[k]];
    CheckedNext(x, cs[..k], cs[k]);
    CrcChain(Checked(x, cs[..k]), InMemory(cs[k].header), c);
    CrcChain(Checked(x, cs[..k]) + InMemory(cs[k].header), Piece(x, k), c);
  }

  /** No chunk is empty on disk, so all bytes read means all chunks read. */
  lemma AllRead(cs: seq<Packed>, k: nat)
    requires k <= |cs| && |Written(cs[..k])| >= |Written(cs)|
    ensures k == |cs|
  {
    hide Written;
    if k < |cs| { WrittenAt(cs, k); }
  }

  // ----- the two checksums, and which files come back ------------------------------------------------------------

  /** Combining with the true length gives the checksum the reader computes byte by byte. */
  lemma FullCombination(x: seq<byte>, cs: seq<Packed>, size: seq<byte>, header: bv32)
    requires Compressed(x, cs)
    ensures Combined(Crc(size, header), Crc(Checked(x, cs), 0), |x| + MEMORY_HEADER_SIZE * NumChunks(|x|))
            == Crc(Checked(x, cs), Crc(size, header))
  {
    hide Crc, Combined, Checked, NumChunks, IsPacked;
    CheckedSize(x, cs);
    AllPieces(x);
    CombineAppends(size, Checked(x, cs), header);
    CrcChain(size, Checked(x, cs), header);
  }

  /** The writer's combined checksum is the one the reader computes, as long as the length handed to the
      combination fits in 32 bits. */
  lemma FileCrcAgrees(x: seq<byte>, cs: seq<Packed>, size: seq<byte>, header: bv32)
    requires Compressed(x, cs) && |x| + MEMORY_HEADER_SIZE * NumChunks(|x|) < 0x1_0000_0000
    ensures Combined(Crc(size, header), Crc(Checked(x, cs), 0), CombinedLength(|x|, NumChunks(|x|)))
            == Crc(Checked(x, cs), Crc(size, header))
  {
    hide Crc, Combined, Checked, NumChunks, Compressed;
    FullCombination(x, cs, size, header);
  }

  /** For files of every size: the two checksums agree exactly when cutting the length does no harm. */
  lemma FileCrcIff(x: seq<byte>, cs: seq<Packed>, size: seq<byte>, header: bv32)
    requires Compressed(x, cs)
    ensures Combined(Crc(size, header), Crc(Checked(x, cs), 0), CombinedLength(|x|, NumChunks(|x|)))
            == Crc(Checked(x, cs), Crc(size, header))
       <==> CrcPeriod.CutHarmless(Crc(size, header), Crc(Checked(x, cs), 0),
                                  |x| + MEMORY_HEADER_SIZE * NumChunks(|x|))
  {
    hide Crc, Combined, Checked, NumChunks, Compressed, CrcPeriod.CutHarmless;
    FullCombination(x, cs, size, header);
    CrcPeriod.CutLength(Crc(size, header), Crc(Checked(x, cs), 0), |x| + MEMORY_HEADER_SIZE * NumChunks(|x|));
  }

  /** Every header of a file is accepted exactly when no chunk outgrew the chunk size in run-length coding. */
  lemma AcceptedFile(x: seq<byte>, cs: seq<Packed>)
    requires Compressed(x, cs)
    ensures AllAccepted(cs) <==> forall k :: 0 <= k < |cs| ==> cs[k].header.origSize <= MAX_CHUNK_SIZE
  {
    hide IsPacked, Piece, NumChunks, Validate;
    forall k | 0 <= k < |cs|
      ensures Validate(cs[k].header) <==> cs[k].header.origSize <= MAX_CHUNK_SIZE
    {
      PieceSize(x, k);
      AcceptedIff(Piece(x, k), cs[k]);
    }
  }

  /** A file of at most 260111 bytes is a single chunk, and its header is always accepted. */
  lemma SmallFileAccepted(x: seq<byte>, cs: seq<Packed>)
    requires Compressed(x, cs) && |x| <= 260111
    ensures AllAccepted(cs)
  {
    hide IsPacked, Validate;
    if cs != [] {
      PieceSize(x, 0);
      SmallChunkAccepted(Piece(x, 0), cs[0]);
    }
  }

  /** Compresses a file and decompresses the result, both starting from the checksum of the same header.
      A file accepted by the writer comes back if and only if every chunk header is acceptable, and then the two
      checksums agree if and only if cutting the length combined does no harm. */
  method CompressAndBack(x: seq<byte>, header: bv32)
    returns (written: bool, read: bool, y: seq<byte>, writerCrc: bv32, readerCrc: bv32, ghost cs: seq<Packed>)
    requires |x| < 0x1_0000_0000_0000_0000
    ensures Compressed(x, cs) && (written <==> |Written(cs)| < |x|)
    ensures read <==> written && AllAccepted(cs)
    ensures read ==> y == x
    ensures read ==> (writerCrc == readerCrc <==>
                      CrcPeriod.CutHarmless(Crc(LE(|Written(cs)|, 8), header), Crc(Checked(x, cs), 0),
                                            |x| + MEMORY_HEADER_SIZE * NumChunks(|x|)))
  {
    hide Compressed, Written, Checked, AllAccepted, Overwritten, LE, Crc, Combined, NumChunks, CombinedLength;
    hide SetComp, TypeOf, CompOf, CrcPeriod.CutHarmless;
    var src := new Stream();
    var dst := new Stream();
    src.Write(x);
    src.Seek(0);
    WrittenFresh(x);
    assert src.data[0..|x|] == x;
    FileType();
    var me := new Entry(SetComp(TYPE_FILE, COMP_COMPRESSED), []);
    me.crc32 := header;
    written, cs := CompressFile(dst, src, |x|, me);
    y, read, writerCrc, readerCrc := [], false, me.crc32, header;
    if written {
      var size := LE(me.dataSize, 8);
      WrittenFresh(size + Written(cs));
      var back := new Entry(me.attributes, []);
      back.crc32 := CrcOf(size, header);
      dst.Seek(8);
      assert dst.data[8..] == Written(cs);
      var out := new Stream();
      read := DecompressFile(out, dst, me.dataSize, back, true, x, cs);
      WrittenFresh(x);
      y, readerCrc := out.data, back.crc32;
      FileCrcIff(x, cs, size, header);
    }
  }

  lemma FileType()
    ensures TypeOf(SetComp(TYPE_FILE, COMP_COMPRESSED)) == TYPE_FILE
  {
  }

  lemma WrittenFresh(b: seq<byte>)
    ensures Overwritten([], 0, b) == b
  {
  }
}
