/** Reading entries back: extracting, skipping, listing and testing. */
module EntryReader {
  import opened Bytes
  import opened LittleEndian
  import opened Streams
  import opened MetaEntry
  import opened DirPaths
  import opened Directories
  import opened DirTree
  import opened DirLockstep
  import opened Crc32c
  import opened FileCodec
  import opened EntryRecords
  import opened EntryWriter
  import opened SafePaths

  /** What extracting an entry does to the file system. */
  datatype Outcome =
    | Failed
    | MadeDir(path: seq<byte>)
    | Wrote(path: seq<byte>, content: seq<byte>)
    | Skipped(path: seq<byte>)

  lemma Carve(data: seq<byte>, pos: nat, a: seq<byte>, b: seq<byte>)
    requires pos <= |data| && a + b <= data[pos..]
    ensures pos + |a| <= |data| && data[pos..pos + |a|] == a && b <= data[pos + |a|..]
  {
    assert data[pos..][..|a|] == a && data[pos..][|a|..] == data[pos + |a|..];
    assert (a + b)[|a|..] == b;
  }

  // ----- paths ---------------------------------------------------------------------------------------------------

  /** Directory and file name as one path; files of the root have no directory part. */
  function Inside(dir: seq<byte>, name: Name): seq<byte>
  {
    if dir == [] then name else dir + [DELIM] + name
  }

  /** The path of an entry in the reader's tree, with the directory at index at current. */
  function PathIn(a: Added, isFile: bool, name: Name): seq<byte>
    requires IsTree(a.dirs) && a.at < |a.dirs|
  {
    if isFile then Inside(Joined(PathOf(a.dirs, a.at)), name) else Joined(PathOf(a.dirs, a.at))
  }

  /** The reader's tree and current directory after it has read an entry's fields. */
  function After(before: Added, r: Record): (a: Option<Added>)
    requires before.at < |before.dirs|
    ensures a.Some? ==> a.value.at < |a.value.dirs|
  {
    if r.DirRecord? then ReaderStep(before.dirs, Link(r.parent, r.name)) else Bytes.Some(before)
  }

  // ----- the fields of an entry ----------------------------------------------------------------------------------

  /** Bytes of the fields after the common header and before the contents. */
  function FieldBytes(r: Record): (s: seq<byte>)
    ensures r.DirRecord? ==> s == Body(r)
    ensures !r.DirRecord? ==> |s| == 8
  {
    if r.DirRecord? then Body(r) else LE(DataSize(r), 8)
  }

  /** The contents of an entry as stored. */
  function Stored(r: Record): seq<byte>
  {
    match r
    case DirRecord(_, _, _, _) => []
    case StoredRecord(_, _, _, content) => content
    case PackedRecord(_, _, _, _, cs) => Written(cs)
  }

  lemma RecordParts(r: Record)
    requires |r.name| <= MAX_NAME
    ensures RecordBytes(r) == CommonHeader(r.attributes, r.name) + (FieldBytes(r) + (Stored(r) + WordBytes(WriterChecksum(r))))
  {
    hide WriterChecksum, LE, Written;
  }

  lemma SizeBack(n: nat)
    requires n < 0x1_0000_0000_0000_0000
    ensures FromLE(LE(n, 8)) == n
  {
    Widths();
    ReadBack(n, 8);
  }

  lemma WordSizeBack(n: u32)
    ensures FromLE(LE(n, 4)) == n
  {
    Widths();
    ReadBack(n, 4);
  }

  /** The fields in front of an entry's contents. */
  datatype Fields = Fields(attributes: byte, name: Name, dataSize: u64, parentIndex: u32)

  /** Width of the field behind the common header. */
  function Width(t: nat): nat
  {
    if t == TYPE_FILE then 8 else if t == TYPE_SUBDIR then 4 else 0
  }

  /** The fields at the front of s; None when s is too short, the name is empty or the entry is a link. */
  function FieldsAt(s: seq<byte>): Option<Fields>
  {
    match HeaderAt(s)
    case None => Bytes.None
    case Some(name) =>
      var t, rest := TypeOf(s[0]), s[2 + |name|..];
      if t == TYPE_SYM || |rest| < Width(t) then Bytes.None
      else if t == TYPE_FILE then Bytes.Some(Fields(s[0], name, SizeOf(rest[..8]), 0))
      else if t == TYPE_SUBDIR then Bytes.Some(Fields(s[0], name, 0, IndexOf(rest[..4])))
      else Bytes.Some(Fields(s[0], name, 0, 0))
  }

  function SizeOf(s: seq<byte>): u64
    requires |s| == 8
  {
    Widths();
    ValueBound(s);
    FromLE(s)
  }

  function IndexOf(s: seq<byte>): u32
    requires |s| == 4
  {
    Widths();
    ValueBound(s);
    FromLE(s)
  }

  /** Bytes up to the contents. */
  function FrontSize(x: Fields): nat
  {
    2 + |x.name| + Width(TypeOf(x.attributes))
  }

  function FieldsOf(r: Record): Fields
    requires WellFormedRecord(r)
  {
    Fields(r.attributes, r.name, if r.DirRecord? then 0 else DataSize(r), if r.DirRecord? then r.parent else 0)
  }

  lemma HeaderBack(a: byte, name: Name, s: seq<byte>)
    requires 0 < |name| <= MAX_NAME && CommonHeader(a, name) <= s
    ensures s[0] == a && HeaderAt(s) == Bytes.Some(name)
  {
    assert s[..2 + |name|] == CommonHeader(a, name);
    assert s[1] == s[..2 + |name|][1];
    assert s[2..2 + |name|] == s[..2 + |name|][2..] == name;
  }

  /** The fields of an entry come back, with contents and checksum behind them. */
  lemma FieldsBack(r: Record, s: seq<byte>)
    requires WellFormedRecord(r) && RecordBytes(r) <= s
    ensures FieldsAt(s) == Bytes.Some(FieldsOf(r)) && FrontSize(FieldsOf(r)) <= |s|
    ensures Stored(r) + WordBytes(WriterChecksum(r)) <= s[FrontSize(FieldsOf(r))..]
  {
    hide WriterChecksum, LE, FromLE, Written, Compressed, RecordBytes, Stored, WordBytes;
    var header, tail := CommonHeader(r.attributes, r.name), Stored(r) + WordBytes(WriterChecksum(r));
    RecordParts(r);
    assert s[0..] == s;
    Carve(s, 0, header, FieldBytes(r) + tail);
    assert header <= s;
    HeaderBack(r.attributes, r.name, s);
    Carve(s, 2 + |r.name|, FieldBytes(r), tail);
    assert s[2 + |r.name|..][..|FieldBytes(r)|] == FieldBytes(r);
    if r.DirRecord? {
      WordSizeBack(r.parent);
    } else {
      SizeBack(DataSize(r));
    }
  }

  /** The fields of an entry, as read. */
  ghost predicate HasFields(me: Entry, x: Fields)
    reads me
  {
    && me.attributes == x.attributes && me.name == x.name && me.crc32 == 0
    && me.dataSize == x.dataSize && me.parentIndex == x.parentIndex
  }

  /** Reads the common header and the size or parent index, whatever the stream holds. */
  method ReadFields(f: Stream) returns (me: Entry?)
    requires f.pos <= |f.data|
    modifies f`pos
    ensures var x := FieldsAt(f.data[old(f.pos)..]);
            && (me == null <==> x == Bytes.None)
            && (me != null ==> fresh(me) && HasFields(me, x.value)
                               && f.pos == old(f.pos) + FrontSize(x.value) <= |f.data|)
  {
    hide FromLE, HeaderAt;
    ghost var s := f.data[f.pos..];
    me := ReadCommonHeader(f);
    if me == null {
      return null;
    }
    ghost var rest := s[2 + |me.name|..];
    assert f.data[f.pos..] == rest;
    if TypeOf(me.attributes) == TYPE_SUBDIR {
      var b := f.Read(4);
      if b == Bytes.None {
        return null;
      }
      assert b.value == rest[..4];
      me.parentIndex := IndexOf(b.value);
    } else if TypeOf(me.attributes) == TYPE_FILE {
      var b := f.Read(8);
      if b == Bytes.None {
        return null;
      }
      assert b.value == rest[..8];
      me.dataSize := SizeOf(b.value);
    } else if TypeOf(me.attributes) == TYPE_SYM {
      return null;
    }
  }

  /** The reader's tree and current directory after it has read these fields. */
  function Moved(before: Added, x: Fields): (a: Option<Added>)
    requires before.at < |before.dirs|
    ensures a.Some? ==> a.value.at < |a.value.dirs|
  {
    if TypeOf(x.attributes) == TYPE_FILE then Bytes.Some(before)
    else ReaderStep(before.dirs, Link(x.parentIndex, x.name))
  }

  lemma MovedByRecord(before: Added, r: Record)
    requires before.at < |before.dirs| && WellFormedRecord(r)
    ensures Moved(before, FieldsOf(r)) == After(before, r)
  {
    hide ReaderStep, Compressed, Written;
  }

  /** The tree does not outgrow its 32-bit node counter. */
  predicate RoomFor(a: Option<Added>)
  {
    a.Some? ==> |a.value.dirs| <= MAX_NODES
  }

  /** Where the fields at the front of s take the reader; None when it stops. */
  function NextState(before: Added, s: seq<byte>): (a: Option<Added>)
    requires before.at < |before.dirs|
    ensures a.Some? ==> a.value.at < |a.value.dirs| && FieldsAt(s).Some?
  {
    match FieldsAt(s)
    case None => Bytes.None
    case Some(x) => Moved(before, x)
  }

  /** Reads an entry's fields, whatever the stream holds, and for a directory adds it to the tree and makes it
      current. */
  method ReadMetaEntry(ctx: Context) returns (me: Entry?)
    requires ctx.Valid() && ctx.f.pos <= |ctx.f.data|
    requires RoomFor(NextState(Added(ctx.tree.dirs, ctx.lastAt), ctx.f.data[ctx.f.pos..]))
    modifies ctx, ctx.f`pos, ctx.tree, ctx.tree.nodes
    ensures ctx.Valid() && old(ctx.tree.nodes) <= ctx.tree.nodes
    ensures forall k :: |old(ctx.tree.nodes)| <= k < |ctx.tree.nodes| ==> fresh(ctx.tree.nodes[k])
    ensures var s, before := ctx.f.data[old(ctx.f.pos)..], Added(old(ctx.tree.dirs), old(ctx.lastAt));
            && (me == null <==> NextState(before, s) == Bytes.None)
            && (me == null ==> Added(ctx.tree.dirs, ctx.lastAt) == before)
            && (me != null ==> fresh(me) && HasFields(me, FieldsAt(s).value)
                               && Added(ctx.tree.dirs, ctx.lastAt) == NextState(before, s).value
                               && ctx.f.pos == old(ctx.f.pos) + FrontSize(FieldsAt(s).value) <= |ctx.f.data|)
  {
    hide Insert, Parts, TypeOf, FieldsAt;
    ghost var s := ctx.f.data[ctx.f.pos..];
    me := ReadFields(ctx.f);
    if me == null {
      return null;
    }
    NoLinks(s);
    ghost var ds := ctx.tree.dirs;
    if TypeOf(me.attributes) == TYPE_SUBDIR || TypeOf(me.attributes) == TYPE_DIR {
      var parent := if TypeOf(me.attributes) == TYPE_SUBDIR then me.parentIndex else ROOT;
      var node := ctx.tree.InsertAtParent(parent, me.name);
      if node == null {
        return null;
      }
      ctx.lastDirNode, ctx.lastAt := node, Insert(ds, parent, Parts(me.name)).at;
    }
  }

  lemma NoLinks(s: seq<byte>)
    requires FieldsAt(s).Some?
    ensures TypeOf(FieldsAt(s).value.attributes) != TYPE_SYM && FieldsAt(s).value.name != []
    ensures TypeOf(FieldsAt(s).value.attributes) == TYPE_DIR ==> FieldsAt(s).value.parentIndex == ROOT
  {
  }

  /** Reads the fields of an entry the writer produced. */
  method ReadEntry(ctx: Context, ghost r: Record) returns (me: Entry?)
    requires ctx.Valid() && ctx.f.pos <= |ctx.f.data| && WellFormedRecord(r)
    requires RecordBytes(r) <= ctx.f.data[ctx.f.pos..] && RoomFor(After(Added(ctx.tree.dirs, ctx.lastAt), r))
    modifies ctx, ctx.f`pos, ctx.tree, ctx.tree.nodes
    ensures ctx.Valid() && old(ctx.tree.nodes) <= ctx.tree.nodes
    ensures forall k :: |old(ctx.tree.nodes)| <= k < |ctx.tree.nodes| ==> fresh(ctx.tree.nodes[k])
    ensures var a := After(Added(old(ctx.tree.dirs), old(ctx.lastAt)), r);
            && (me == null <==> a == Bytes.None)
            && (me != null ==> fresh(me) && HasFields(me, FieldsOf(r))
                               && Added(ctx.tree.dirs, ctx.lastAt) == a.value)
    ensures me != null ==> ctx.f.pos == old(ctx.f.pos) + FrontSize(FieldsOf(r)) <= |ctx.f.data|
    ensures me != null ==> Stored(r) + WordBytes(WriterChecksum(r)) <= ctx.f.data[ctx.f.pos..]
  {
    hide WriterChecksum, RecordBytes, Stored, Moved, After, FieldsAt, FieldsOf, WellFormedRecord, WordBytes;
    ghost var data, start := ctx.f.data, ctx.f.pos;
    FieldsBack(r, data[start..]);
    MovedByRecord(Added(ctx.tree.dirs, ctx.lastAt), r);
    me := ReadMetaEntry(ctx);
    assert data[start..][FrontSize(FieldsOf(r))..] == data[start + FrontSize(FieldsOf(r))..];
  }

  /** The full path of the entry just read. */
  method ReconstructName(ctx: Context, me: Entry) returns (path: seq<byte>)
    requires ctx.Valid() && TypeOf(me.attributes) != TYPE_SYM
    ensures path == PathIn(Added(ctx.tree.dirs, ctx.lastAt), TypeOf(me.attributes) == TYPE_FILE, me.name)
  {
    hide Joined, PathOf;
    var dir := ctx.tree.ReconstructPath(ctx.lastDirNode, ctx.lastAt);
    path := if TypeOf(me.attributes) != TYPE_FILE then dir
            else if |dir| > 0 then dir + [DELIM] + me.name else me.name;
  }

  // ----- contents and checksum -----------------------------------------------------------------------------------

  /** The reader can decompress the entry: every chunk header is acceptable. */
  ghost predicate Readable(r: Record)
  {
    r.PackedRecord? ==> AllAccepted(r.chunks)
  }

  /** Reads the stored checksum and compares. */
  method CompareChecksum(f: Stream, crc: bv32, ghost stored: bv32) returns (ok: bool)
    requires f.pos <= |f.data| && WordBytes(stored) <= f.data[f.pos..]
    modifies f`pos
    ensures ok == (crc == stored) && f.pos == old(f.pos) + 4
  {
    hide WordBytes;
    assert WordBytes(stored) + [] == WordBytes(stored);
    Carve(f.data, f.pos, WordBytes(stored), []);
    WordBack(stored);
    var b := f.Read(4);
    ok := WordOf(b.value) == crc;
  }

  /** Reads the contents of a file entry into dst, if there is one; with the checksum if asked. */
  method ReadContent(dst: Stream?, f: Stream, me: Entry, withCrc: bool, ghost r: Record) returns (ok: bool)
    requires dst != f && f.pos <= |f.data| && (dst != null ==> dst.data == [] && dst.pos == 0 && withCrc)
    requires WellFormedRecord(r) && !r.DirRecord? && me.attributes == r.attributes && me.dataSize == DataSize(r)
    requires Stored(r) + WordBytes(WriterChecksum(r)) <= f.data[f.pos..]
    requires withCrc ==> me.crc32 == Crc(PathHeader(r.attributes, r.path), 0)
    modifies dst, f`pos, me`crc32
    ensures ok <==> Readable(r)
    ensures ok ==> f.pos == old(f.pos) + |Stored(r)| <= |f.data| && WordBytes(WriterChecksum(r)) <= f.data[f.pos..]
    ensures ok && withCrc ==> me.crc32 == Checksum(r)
    ensures ok && dst != null ==> dst.data == r.content
  {
    hide WriterChecksum, Checked, Written, Crc, LE, PathHeader, WordBytes, Overwritten, Compressed, AllAccepted;
    Carve(f.data, f.pos, Stored(r), WordBytes(WriterChecksum(r)));
    ghost var h, size := PathHeader(r.attributes, r.path), LE(DataSize(r), 8);
    ChecksumParts(r);
    if withCrc {
      me.crc32 := CrcOf(LE(me.dataSize, 8), me.crc32);
      CrcChain(h, size, 0);
    }
    WrittenFresh(r.content);
    if CompOf(me.attributes) == COMP_STORED {
      CrcChain(h + size, Stored(r), 0);
      ok := CopyFile(dst, f, me.dataSize, me, withCrc);
    } else if CompOf(me.attributes) == COMP_COMPRESSED {
      CrcChain(h + size, Checked(r.content, r.chunks), 0);
      assert Written(r.chunks) <= f.data[f.pos..];
      ok := DecompressFile(dst, f, me.dataSize, me, withCrc, r.content, r.chunks);
    } else {
      ok := false;
    }
  }

  /** What a file's checksum covers, in the order it is read. */
  lemma ChecksumParts(r: Record)
    requires !r.DirRecord?
    ensures var h := PathHeader(r.attributes, r.path);
            Checksum(r) == Crc(h + LE(DataSize(r), 8) + (if r.PackedRecord? then Checked(r.content, r.chunks) else r.content), 0)
  {
    hide Crc, LE, PathHeader, Checked, Written;
    var h, size := PathHeader(r.attributes, r.path), LE(DataSize(r), 8);
    var c := if r.PackedRecord? then Checked(r.content, r.chunks) else r.content;
    assert h + size + c == h + (size + c);
  }

  /** The checksum of a directory entry; its fields are all there is. */
  method AddDirFields(me: Entry, ghost r: Record)
    requires r.DirRecord? && HasTypeAndParent(me, r) && me.crc32 == Crc(PathHeader(r.attributes, r.path), 0)
    modifies me`crc32
    ensures me.crc32 == Checksum(r)
  {
    hide Crc, LE, PathHeader;
    ghost var h := PathHeader(r.attributes, r.path);
    assert h + [] == h;
    if TypeOf(me.attributes) == TYPE_SUBDIR {
      CrcChain(h, LE(me.parentIndex, 4), 0);
      me.crc32 := CrcOf(LE(me.parentIndex, 4), me.crc32);
    }
  }

  ghost predicate HasTypeAndParent(me: Entry, r: Record)
    requires r.DirRecord?
    reads me
  {
    me.attributes == r.attributes && (TypeOf(r.attributes) == TYPE_SUBDIR ==> me.parentIndex == r.parent)
  }

  // ----- extracting ----------------------------------------------------------------------------------------------

  /** What extracting an entry should do. */
  function Expected(r: Record, overwrite: bool): Outcome
  {
    if r.DirRecord? then MadeDir(r.path)
    else if overwrite then Wrote(r.path, r.content)
    else Skipped(r.path)
  }

  /** The reader sees the entry under the path it was archived with. */
  ghost predicate SamePath(before: Added, r: Record)
    requires before.at < |before.dirs|
  {
    After(before, r).Some? && IsTree(After(before, r).value.dirs)
    && PathIn(After(before, r).value, !r.DirRecord?, r.name) == r.path
  }

  lemma RecordSize(r: Record)
    requires WellFormedRecord(r)
    ensures |RecordBytes(r)| == FrontSize(FieldsOf(r)) + |Stored(r)| + 4
  {
    hide Compressed, Written, WordBytes, WriterChecksum;
    RecordParts(r);
  }

  /** Extracts one entry; a file that exists and may not be overwritten is skipped. */
  method Extract(ctx: Context, overwrite: bool, ghost r: Record) returns (o: Outcome)
    requires ctx.Valid() && ctx.f.pos <= |ctx.f.data| && WellFormedRecord(r)
    requires RecordBytes(r) <= ctx.f.data[ctx.f.pos..] && RoomFor(After(Added(ctx.tree.dirs, ctx.lastAt), r))
    requires SamePath(Added(ctx.tree.dirs, ctx.lastAt), r)
    modifies ctx, ctx.f`pos, ctx.tree, ctx.tree.nodes
    ensures ctx.Valid() && old(ctx.tree.nodes) <= ctx.tree.nodes
    ensures forall k :: |old(ctx.tree.nodes)| <= k < |ctx.tree.nodes| ==> fresh(ctx.tree.nodes[k])
    ensures Added(ctx.tree.dirs, ctx.lastAt) == After(Added(old(ctx.tree.dirs), old(ctx.lastAt)), r).value
    ensures o == if SafePath(r.path) && (overwrite ==> Readable(r) && Sound(r)) then Expected(r, overwrite) else Failed
    ensures o != Failed ==> ctx.f.pos == old(ctx.f.pos) + |RecordBytes(r)| <= |ctx.f.data|
  {
    hide Checksum, WriterChecksum, RecordBytes, Stored, FieldBytes, Parts, Compressed, Written, SafePath, PathIn, ReaderStep;
    hide AllAccepted, PathHeader, WordBytes, IsTree, Crc, RoomFor;
    RecordSize(r);
    var me := ReadEntry(ctx, r);
    if me == null {
      return Failed;
    }
    var path := ReconstructName(ctx, me);
    assert path == r.path;
    if !SafePath(path) {
      return Failed;
    }
    var ok := ComputeHeaderCrc(me, path);
    if !ok {
      return Failed;
    }
    if TypeOf(me.attributes) == TYPE_FILE {
      if !overwrite {
        ctx.f.Skip(me.dataSize + 4);
        StoredSize(r);
        return Skipped(path);
      }
      var f2 := new Stream();
      ok := ReadContent(f2, ctx.f, me, true, r);
      if !ok {
        return Failed;
      }
      o := Wrote(path, f2.data);
    } else {
      NothingStored(r);
      OthersAreSound(r);
      AddDirFields(me, r);
      o := MadeDir(path);
    }
    ok := CompareChecksum(ctx.f, me.crc32, WriterChecksum(r));
    o := if ok then o else Failed;
  }

  lemma StoredSize(r: Record)
    requires !r.DirRecord?
    ensures |Stored(r)| == DataSize(r)
  {
  }

  lemma NothingStored(r: Record)
    requires r.DirRecord?
    ensures Stored(r) == [] && forall s: seq<byte> :: [] + s == s
  {
  }

  // ----- listing and testing -------------------------------------------------------------------------------------

  /** Lists one entry; in test mode the path and the checksum are verified too. */
  method PrintEntry(ctx: Context, testMode: bool, ghost r: Record) returns (ok: bool)
    requires ctx.Valid() && ctx.f.pos <= |ctx.f.data| && WellFormedRecord(r)
    requires RecordBytes(r) <= ctx.f.data[ctx.f.pos..] && RoomFor(After(Added(ctx.tree.dirs, ctx.lastAt), r))
    requires SamePath(Added(ctx.tree.dirs, ctx.lastAt), r)
    modifies ctx, ctx.f`pos, ctx.tree, ctx.tree.nodes
    ensures ctx.Valid() && old(ctx.tree.nodes) <= ctx.tree.nodes
    ensures forall k :: |old(ctx.tree.nodes)| <= k < |ctx.tree.nodes| ==> fresh(ctx.tree.nodes[k])
    ensures Added(ctx.tree.dirs, ctx.lastAt) == After(Added(old(ctx.tree.dirs), old(ctx.lastAt)), r).value
    ensures ok <==> Readable(r) && (testMode ==> SafePath(r.path) && Sound(r))
    ensures ok ==> ctx.f.pos == old(ctx.f.pos) + |RecordBytes(r)| <= |ctx.f.data|
  {
    hide Checksum, WriterChecksum, RecordBytes, Stored, FieldBytes, Parts, Compressed, Written, SafePath, PathIn, ReaderStep;
    hide AllAccepted, PathHeader, WordBytes, IsTree, Crc, RoomFor;
    RecordSize(r);
    var me := ReadEntry(ctx, r);
    if me == null {
      return false;
    }
    var path := ReconstructName(ctx, me);
    assert path == r.path;
    if testMode {
      if !SafePath(path) {
        return false;
      }
      ok := ComputeHeaderCrc(me, path);
      if !ok {
        return false;
      }
    }
    if TypeOf(me.attributes) == TYPE_FILE {
      ok := ReadContent(null, ctx.f, me, testMode, r);
      if !ok {
        return false;
      }
    } else {
      NothingStored(r);
      OthersAreSound(r);
      if testMode {
        AddDirFields(me, r);
      }
    }
    ok := CompareChecksum(ctx.f, me.crc32, WriterChecksum(r));
    ok := !testMode || ok;
  }
}
