/** Writing a file entry: compressed if that is smaller, else rewritten as it is from the same position. */
module EntryFile {
  import opened Bytes
  import opened LittleEndian
  import opened Streams
  import opened MetaEntry
  import opened DirPaths
  import opened ChunkHeader
  import opened FileCodec
  import opened Crc32c
  import opened CrcCombine
  import CrcPeriod
  import opened EntryRecords

  /** The 32-bit length handed to the checksum combination is the true one. */
  predicate LengthFits(r: Record)
  {
    r.PackedRecord? ==> |r.content| + MEMORY_HEADER_SIZE * NumChunks(|r.content|) < 0x1_0000_0000
  }

  /** Compressing does not make the file smaller. */
  ghost predicate Incompressible(content: seq<byte>)
  {
    exists cs :: Compressed(content, cs) && |Written(cs)| >= |content|
  }

  /** r is an entry for this file: compressed if asked for and smaller. */
  ghost predicate IsFileRecord(r: Record, a: byte, name: Name, path: seq<byte>, content: seq<byte>)
  {
    && !r.DirRecord? && r.name == name && r.path == path && r.content == content
    && (r.StoredRecord? ==> r.attributes == SetComp(a, COMP_STORED)
                            && (CompOf(a) == COMP_COMPRESSED ==> Incompressible(content)))
    && (r.PackedRecord? ==> r.attributes == a && CompOf(a) == COMP_COMPRESSED
                            && Compressed(content, r.chunks) && |Written(r.chunks)| < |content|)
  }

  method FlushStored(f: Stream, me: Entry, content: seq<byte>, ghost path: seq<byte>) returns (ghost r: Record)
    requires f.pos <= |f.data| && |me.name| <= MAX_NAME && me.dataSize == |content|
    requires TypeOf(me.attributes) == TYPE_FILE && CompOf(me.attributes) == COMP_STORED
    requires me.crc32 == Crc(PathHeader(me.attributes, path), 0)
    modifies f, me`crc32
    ensures r == StoredRecord(me.attributes, me.name, path, content) && me.crc32 == Checksum(r)
    ensures f.data == Overwritten(old(f.data), old(f.pos), Body(r)) && f.pos == old(f.pos) + |Body(r)|
  {
    hide Crc, LE, Overwritten, PathHeader;
    r := StoredRecord(me.attributes, me.name, path, content);
    var size := LE(me.dataSize, 8);
    var f2 := new Stream();
    f2.Write(content);
    f2.Seek(0);
    assert f2.data == content && f2.data[0..|content|] == content by { WrittenFresh(content); }
    OverwrittenTwice(f.data, f.pos, size, content);
    CrcChain(PathHeader(me.attributes, path), size, 0);
    CrcChain(PathHeader(me.attributes, path) + size, content, 0);
    assert PathHeader(me.attributes, path) + size + content == PathHeader(me.attributes, path) + (size + content);
    me.crc32 := CrcOf(size, me.crc32);
    var ok := WriteFileEntry(f, me);
    ok := CopyFile(f, f2, me.dataSize, me, true);
  }

  /** The checksum of header and size, the first part of what is combined. */
  function FrontChecksum(r: Record): bv32
    requires r.PackedRecord?
  {
    Crc(PathHeader(r.attributes, r.path) + LE(DataSize(r), 8), 0)
  }

  /** Stored checksums are sound exactly when cutting the length to 32 bits does no harm; for stored files and
      directories always. */
  lemma SoundIff(r: Record)
    requires r.PackedRecord? ==> Compressed(r.content, r.chunks)
    ensures Sound(r) <==> (r.PackedRecord? ==>
                             CrcPeriod.CutHarmless(FrontChecksum(r), Crc(Checked(r.content, r.chunks), 0),
                                                   |r.content| + MEMORY_HEADER_SIZE * NumChunks(|r.content|)))
  {
    hide Crc, Combined, Checked, Written, LE, PathHeader, Compressed, NumChunks, CombinedLength, CrcPeriod.CutHarmless;
    if r.PackedRecord? {
      var p, size, checked := PathHeader(r.attributes, r.path), LE(DataSize(r), 8), Checked(r.content, r.chunks);
      FileCrcIff(r.content, r.chunks, size, Crc(p, 0));
      CrcChain(p, size, 0);
      CrcChain(p + size, checked, 0);
      assert p + size + checked == p + (size + checked);
    }
  }

  /** In particular when the length fits. */
  lemma FittingIsSound(r: Record)
    requires LengthFits(r) && (r.PackedRecord? ==> Compressed(r.content, r.chunks))
    ensures Sound(r)
  {
    hide Sound, Compressed, NumChunks, Crc, Checked, FrontChecksum;
    SoundIff(r);
  }

  /** Writes a file entry up to its checksum. */
  method FlushEntryFile(f: Stream, me: Entry, path: seq<byte>, content: seq<byte>) returns (ok: bool, ghost r: Record)
    requires f.pos <= |f.data| && |me.name| <= MAX_NAME && me.dataSize == |content|
    modifies f, me
    ensures me.name == old(me.name)
    ensures ok <==> TypeOf(old(me.attributes)) == TYPE_FILE && CompOf(old(me.attributes)) <= COMP_COMPRESSED
                    && 0 < |path| <= 65535 && old(f.pos) > 0
    ensures ok ==> IsFileRecord(r, old(me.attributes), me.name, path, content)
    ensures ok ==> me.crc32 == WriterChecksum(r)
    ensures ok ==> f.data == Overwritten(old(f.data), old(f.pos), Unsealed(r)) && f.pos == old(f.pos) + |Unsealed(r)|
    decreases CompOf(me.attributes)
  {
    hide Crc, Combined, LE, Overwritten, PathHeader, Checked, Written, Compressed, NumChunks, CombinedLength, Checksum;
    r := StoredRecord(me.attributes, me.name, path, content);
    if TypeOf(me.attributes) != TYPE_FILE {
      return false, r;
    }
    ok := ComputeHeaderCrc(me, path);
    if !ok {
      return false, r;
    }
    var original, start := me.attributes, f.pos;
    ghost var before, header := f.data, CommonHeader(me.attributes, me.name);
    if start <= 0 {
      return false, r;
    }
    WriteCommonHeader(f, me);
    if CompOf(me.attributes) == COMP_STORED {
      r := FlushStored(f, me, content, path);
      SameComp(original);
      OverwrittenTwice(before, start, header, Body(r));
      ok := true;
    } else if CompOf(me.attributes) == COMP_COMPRESSED {
      var f2 := new Stream();
      f2.Write(content);
      f2.Seek(0);
      assert f2.data == content && f2.data[0..|content|] == content by { WrittenFresh(content); }
      ghost var cs := [];
      ok, cs := CompressFile(f, f2, me.dataSize, me);
      if !ok {
        if me.attributes == original {
          return false, r;
        }
        f.Seek(start);
        ok, r := FlushEntryFile(f, me, path, content);
        HeaderFirst(r);
        OverwrittenAgain(before, start, header, Unsealed(r));
      } else {
        r := PackedRecord(original, me.name, path, content, cs);
        OverwrittenTwice(before, start, header, Body(r));
      }
    } else {
      ok := false;
    }
  }

  lemma SameComp(a: byte)
    requires CompOf(a) == COMP_STORED
    ensures SetComp(a, COMP_STORED) == a
  {
  }

  lemma HeaderFirst(r: Record)
    requires |r.name| <= MAX_NAME
    ensures |Unsealed(r)| >= 2 + |r.name|
  {
  }
}
