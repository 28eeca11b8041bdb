/** The bytes of one archive entry, and the bytes its checksum covers. */
module EntryRecords {
  import opened Bytes
  import opened LittleEndian
  import opened Streams
  import opened MetaEntry
  import opened DirPaths
  import opened ChunkCodec
  import opened FileCodec
  import opened Crc32c
  import opened CrcCombine

  /** Longest entry name and longest path. */
  const MAX_NAME: nat := 255
  const MAX_PATH: nat := 0xFFFF

  /** An entry as written: a directory, a file as it is, or a file as compressed chunks. */
  datatype Record =
    | DirRecord(attributes: byte, name: Name, path: seq<byte>, parent: u32)
    | StoredRecord(attributes: byte, name: Name, path: seq<byte>, content: seq<byte>)
    | PackedRecord(attributes: byte, name: Name, path: seq<byte>, content: seq<byte>, chunks: seq<Packed>)

  /** Attribute byte, name size, name: the front of every entry. */
  function CommonHeader(a: byte, name: Name): (s: seq<byte>)
    requires |name| <= MAX_NAME
    ensures |s| == 2 + |name|
  {
    [a, |name|] + name
  }

  /** What comes between the common header and the checksum. */
  function Body(r: Record): seq<byte>
  {
    match r
    case DirRecord(a, name, path, parent) => if TypeOf(a) == TYPE_SUBDIR then LE(parent, 4) else []
    case StoredRecord(a, name, path, content) => LE(|content|, 8) + content
    case PackedRecord(a, name, path, content, cs) => LE(|Written(cs)|, 8) + Written(cs)
  }

  /** What the reader's checksum covers first: the full path instead of the entry name. */
  function PathHeader(a: byte, path: seq<byte>): seq<byte>
  {
    [a] + LE(|path|, 2) + path
  }

  /** What the reader's checksum covers after that: for compressed files the contents before compression. */
  function CheckedBody(r: Record): seq<byte>
  {
    match r
    case DirRecord(a, name, path, parent) => Body(r)
    case StoredRecord(a, name, path, content) => Body(r)
    case PackedRecord(a, name, path, content, cs) => LE(|Written(cs)|, 8) + Checked(content, cs)
  }

  /** The checksum the reader computes. */
  function Checksum(r: Record): bv32
  {
    Crc(PathHeader(r.attributes, r.path) + CheckedBody(r), 0)
  }

  /** The checksum the writer stores: for compressed files put together from three parts, with the length of
      the last cut to 32 bits. */
  function WriterChecksum(r: Record): bv32
  {
    if r.PackedRecord? then
      Combined(Crc(LE(|Written(r.chunks)|, 8), Crc(PathHeader(r.attributes, r.path), 0)),
               Crc(Checked(r.content, r.chunks), 0), CombinedLength(|r.content|, NumChunks(|r.content|)))
    else Checksum(r)
  }

  /** The checksum stored is the one the reader computes. */
  predicate Sound(r: Record)
  {
    WriterChecksum(r) == Checksum(r)
  }

  /** Only compressed files are at risk. */
  lemma OthersAreSound(r: Record)
    requires !r.PackedRecord?
    ensures Sound(r)
  {
  }

  /** The part of an entry in front of its checksum. */
  function Unsealed(r: Record): seq<byte>
    requires |r.name| <= MAX_NAME
  {
    CommonHeader(r.attributes, r.name) + Body(r)
  }

  /** The whole entry as written; the checksum comes last. */
  function RecordBytes(r: Record): seq<byte>
    requires |r.name| <= MAX_NAME
  {
    Unsealed(r) + WordBytes(WriterChecksum(r))
  }

  /** Entries a writer produces. */
  ghost predicate WellFormedRecord(r: Record)
  {
    && 0 < |r.name| <= MAX_NAME && 0 < |r.path| <= MAX_PATH
    && match r
       case DirRecord(a, _, _, parent) =>
         TypeOf(a) == TYPE_SUBDIR || (TypeOf(a) == TYPE_DIR && parent == 0)
       case StoredRecord(a, _, _, content) =>
         TypeOf(a) == TYPE_FILE && CompOf(a) == COMP_STORED && |content| < 0x1_0000_0000_0000_0000
       case PackedRecord(a, _, _, content, cs) =>
         && TypeOf(a) == TYPE_FILE && CompOf(a) == COMP_COMPRESSED && |content| < 0x1_0000_0000_0000_0000
         && Compressed(content, cs) && |Written(cs)| < |content|
  }

  /** The size field of a file entry. */
  function DataSize(r: Record): nat
    requires !r.DirRecord?
  {
    if r.PackedRecord? then |Written(r.chunks)| else |r.content|
  }

  /** The first part of the checksum: attributes, length of the path, path. */
  method ComputeHeaderCrc(me: Entry, path: seq<byte>) returns (ok: bool)
    modifies me`crc32
    ensures ok <==> 0 < |path| <= 65535
    ensures ok ==> me.crc32 == Crc(PathHeader(me.attributes, path), 0)
    ensures !ok ==> me.crc32 == old(me.crc32)
  {
    hide Crc, LE;
    if |path| > MAX_PATH || |path| == 0 {
      return false;
    }
    me.crc32 := CrcOf([me.attributes], 0);
    me.crc32 := CrcOf(LE(|path|, 2), me.crc32);
    me.crc32 := CrcOf(path, me.crc32);
    CrcChain([me.attributes], LE(|path|, 2), 0);
    CrcChain([me.attributes] + LE(|path|, 2), path, 0);
    ok := true;
  }

  method WriteCommonHeader(f: Stream, me: Entry)
    requires f.pos <= |f.data| && |me.name| <= MAX_NAME
    modifies f
    ensures f.data == Overwritten(old(f.data), old(f.pos), CommonHeader(me.attributes, me.name))
    ensures f.pos == old(f.pos) + 2 + |me.name|
  {
    hide Overwritten;
    var a: seq<byte>, n: seq<byte> := [me.attributes], [|me.name|];
    OverwrittenTwice(f.data, f.pos, a, n);
    OverwrittenTwice(f.data, f.pos, a + n, me.name);
    assert a + n == [me.attributes, |me.name|];
    f.Write(a);
    f.Write(n);
    f.Write(me.name);
  }

  /** The name in the common header at the front of s; None when s is too short or the name is empty. */
  function HeaderAt(s: seq<byte>): Option<Name>
  {
    if |s| < 2 then None
    else
      var n: nat := s[1];
      if n == 0 || |s| < 2 + n then None else Some(s[2..2 + n])
  }

  /** Reads the common header, whatever the stream holds. */
  method ReadCommonHeader(f: Stream) returns (me: Entry?)
    requires f.pos <= |f.data|
    modifies f`pos
    ensures var s := f.data[old(f.pos)..];
            && (me == null <==> HeaderAt(s) == None)
            && (me != null ==> fresh(me) && me.attributes == s[0] && me.name == HeaderAt(s).value
                               && me.crc32 == 0 && me.dataSize == 0 && me.parentIndex == 0
                               && f.pos == old(f.pos) + 2 + |me.name| <= |f.data|)
  {
    var attr := f.Read(1);
    if attr == None {
      return null;
    }
    var size := f.Read(1);
    if size == None || size.value[0] == 0 {
      return null;
    }
    var name := f.Read(size.value[0]);
    if name == None {
      return null;
    }
    me := new Entry(attr.value[0], name.value);
  }
}
