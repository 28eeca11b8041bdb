/** The archive context, and writing entries into it. */
module EntryWriter {
  import opened Bytes
  import opened LittleEndian
  import opened Streams
  import opened MetaEntry
  import opened DirPaths
  import opened Directories
  import opened DirTree
  import opened DirLockstep
  import opened Crc32c
  import opened EntryRecords
  import opened EntryFile
  import opened FileCodec

  /** An open archive: its stream, its directory tree, and the directory the next files belong to. */
  class Context {
    const f: Stream
    const tree: Tree
    var lastDir: seq<byte>
    var lastDirNode: Node
    ghost var lastAt: nat

    ghost predicate Valid()
      reads this, tree, tree.nodes
    {
      tree.Valid() && lastAt < |tree.nodes| && tree.nodes[lastAt] == lastDirNode
    }

    constructor (stream: Stream)
      ensures Valid() && f == stream && fresh(tree) && fresh(tree.nodes)
      ensures tree.dirs == EmptyTree() && lastAt == ROOT && lastDir == []
    {
      var t := new Tree();
      f, lastDir, tree := stream, [], t;
      lastDirNode, lastAt := t.root, ROOT;
    }
  }

  /** The name of a file inside the directory: what follows the directory and its delimiter. None when the
      file does not lie there or the name is too long. */
  function NameInside(dir: seq<byte>, filename: seq<byte>): Option<Name>
  {
    var l := |dir|;
    if l > |filename| || dir != filename[..l] then None
    else if l < |filename| && filename[l] == DELIM then ShortName(filename[l + 1..])
    else if l > 0 then None
    else ShortName(filename)
  }

  function ShortName(name: Name): Option<Name>
  {
    if |name| > MAX_NAME then None else Some(name)
  }

  /** The name is what stands behind the directory and the delimiter, a single '/', or the whole name in the root
      unless it begins with the delimiter. */
  lemma NameInsideIff(dir: seq<byte>, filename: seq<byte>, n: Name)
    ensures NameInside(dir, filename) == Some(n) <==>
            |n| <= 255 && (filename == dir + [47] + n || (dir == [] && filename == n && (n != [] ==> n[0] != 47)))
  {
    var l := |dir|;
    if l < |filename| && dir == filename[..l] {
      assert filename == dir + [filename[l]] + filename[l + 1..];
      assert (dir + [47] + n)[l + 1..] == n;
    }
    if filename == dir + [47] + n {
      assert filename[..l] == dir && filename[l] == 47 && filename[l + 1..] == n;
    }
  }

  /** Writes a file entry into the current directory. */
  method WriteFile(ctx: Context, attributes: byte, filename: seq<byte>, content: seq<byte>)
    returns (ok: bool, ghost r: Record)
    requires ctx.Valid() && ctx.f.pos == |ctx.f.data| && |content| < 0x1_0000_0000_0000_0000
    requires TypeOf(attributes) == TYPE_FILE && CompOf(attributes) <= COMP_COMPRESSED
    modifies ctx.f
    ensures ctx.Valid()
    ensures ok <==> NameInside(ctx.lastDir, filename).Some? && 0 < |filename| <= 65535 && |old(ctx.f.data)| > 0
    ensures ok ==> IsFileRecord(r, attributes, NameInside(ctx.lastDir, filename).value, filename, content)
    ensures ok ==> ctx.f.pos == |ctx.f.data| > 0
    ensures ok ==> ctx.f.data == old(ctx.f.data) + RecordBytes(r)
  {
    hide Overwritten, Checksum, WriterChecksum, Unsealed, RecordBytes, Compressed, Written, WordBytes;
    r := StoredRecord(attributes, [], filename, content);
    var name := NameInside(ctx.lastDir, filename);
    if name == Bytes.None {
      return false, r;
    }
    var me := new Entry(attributes, name.value);
    me.dataSize := |content|;
    ghost var before := ctx.f.data;
    ok, r := FlushEntryFile(ctx.f, me, filename, content);
    if ok {
      SealedAtEnd(before, r);
      AtEnd(before, Unsealed(r));
      AtEnd(before + Unsealed(r), WordBytes(me.crc32));
      ctx.f.Write(WordBytes(me.crc32));
    }
  }

  lemma SealedAtEnd(before: seq<byte>, r: Record)
    requires |r.name| <= MAX_NAME
    ensures before + Unsealed(r) + WordBytes(WriterChecksum(r)) == before + RecordBytes(r)
  {
    hide WriterChecksum, Unsealed, WordBytes;
  }

  lemma AtEnd(d: seq<byte>, b: seq<byte>)
    ensures Overwritten(d, |d|, b) == d + b
  {
  }

  /** The entry of the directory a tree has just received. */
  function DirEntry(a: byte, w: Added, path: seq<byte>): Record
    requires w.at < |w.dirs| && w.dirs[w.at].parent < 0x1_0000_0000
  {
    var link := LinkOf(w);
    DirRecord(SetType(SetComp(a, COMP_STORED), if link.parent == 0 then TYPE_DIR else TYPE_SUBDIR),
              link.name, path, link.parent)
  }

  lemma ParentIsWord(w: Added)
    requires IsTree(w.dirs) && 1 <= w.at < |w.dirs| <= MAX_NODES
    ensures w.dirs[w.at].parent < w.at
  {
  }

  /** Adds a directory to the tree: the new node carries the link the archive needs. */
  method AddDir(tree: Tree, dirname: seq<byte>) returns (node: Node?)
    requires tree.Valid() && |Insert(tree.dirs, ROOT, Tokens(dirname)).dirs| <= MAX_NODES
    modifies tree, tree.nodes
    ensures tree.Valid() && old(tree.nodes) <= tree.nodes
    ensures forall k :: |old(tree.nodes)| <= k < |tree.nodes| ==> fresh(tree.nodes[k])
    ensures var w := WriterStep(old(tree.dirs), Tokens(dirname));
            && (node == null <==> w == Bytes.None)
            && (node == null ==> tree.dirs == old(tree.dirs) && tree.nodes == old(tree.nodes))
            && (node != null ==> tree.dirs == w.value.dirs && node == tree.nodes[w.value.at]
                                 && node.dirname == LinkOf(w.value).name && node.parent != null
                                 && node.parent.index == LinkOf(w.value).parent)
  {
    hide Insert, Lookup, Tokens, IsTree;
    ghost var ds := tree.dirs;
    TreeHasRoot(ds);
    node := tree.Add(dirname);
    if node != null {
      ghost var w := WriterStep(ds, Tokens(dirname)).value;
      NewIsNotRoot(ds, Tokens(dirname));
      assert Linked(tree.nodes, tree.dirs, w.at);
      ParentIsWord(w);
      assert Linked(tree.nodes, tree.dirs, w.dirs[w.at].parent);
    }
  }

  /** Fills in the entry of a directory; null when the path is too long. */
  method DirFields(attributes: byte, dirname: seq<byte>, name: Name, parentIndex: u32) returns (me: Entry?, ghost r: Record)
    ensures r == DirRecord(SetType(SetComp(attributes, COMP_STORED), if parentIndex == 0 then TYPE_DIR else TYPE_SUBDIR),
                           name, dirname, parentIndex)
    ensures me != null <==> 0 < |dirname| <= 65535
    ensures me != null ==> fresh(me) && me.attributes == r.attributes && me.name == name && me.crc32 == Checksum(r)
                           && (TypeOf(me.attributes) == TYPE_SUBDIR ==> me.parentIndex == parentIndex)
  {
    hide Crc, LE, PathHeader;
    var a := SetComp(attributes, COMP_STORED);
    a := SetType(a, if parentIndex == 0 then TYPE_DIR else TYPE_SUBDIR);
    r := DirRecord(a, name, dirname, parentIndex);
    me := new Entry(a, name);
    var ok := ComputeHeaderCrc(me, dirname);
    if !ok {
      return null, r;
    }
    assert PathHeader(a, dirname) + [] == PathHeader(a, dirname);
    if TypeOf(me.attributes) == TYPE_SUBDIR {
      me.parentIndex := parentIndex;
      CrcChain(PathHeader(a, dirname), LE(me.parentIndex, 4), 0);
      me.crc32 := CrcOf(LE(me.parentIndex, 4), me.crc32);
    }
  }

  /** Writes a directory entry and makes the directory the current one. */
  method WriteDir(ctx: Context, attributes: byte, dirname: seq<byte>) returns (ok: bool, ghost r: Record)
    requires ctx.Valid() && ctx.f.pos == |ctx.f.data| && |Insert(ctx.tree.dirs, ROOT, Tokens(dirname)).dirs| <= MAX_NODES
    modifies ctx, ctx.f, ctx.tree, ctx.tree.nodes
    ensures ctx.Valid() && old(ctx.tree.nodes) <= ctx.tree.nodes
    ensures forall k :: |old(ctx.tree.nodes)| <= k < |ctx.tree.nodes| ==> fresh(ctx.tree.nodes[k])
    ensures var w := WriterStep(old(ctx.tree.dirs), Tokens(dirname));
            && (ok <==> w.Some? && |LinkOf(w.value).name| <= 255 && 0 < |dirname| <= 65535)
            && (ok ==> ctx.tree.dirs == w.value.dirs && ctx.lastAt == w.value.at && ctx.lastDir == dirname
                       && LinkOf(w.value).parent < 0x1_0000_0000
                       && r == DirEntry(attributes, w.value, dirname)
                       && ctx.f.data == old(ctx.f.data) + RecordBytes(r) && ctx.f.pos == |ctx.f.data|)
  {
    hide Insert, Lookup, Tokens, IsTree, WriterStep, Checksum, RecordBytes, SetType, SetComp, Linked;
    ghost var ds := ctx.tree.dirs;
    r := DirRecord(attributes, [], dirname, 0);
    var node := AddDir(ctx.tree, dirname);
    if node == null || |node.dirname| > MAX_NAME {
      return false, r;
    }
    ghost var w := WriterStep(ds, Tokens(dirname)).value;
    var me;
    me, r := DirFields(attributes, dirname, node.dirname, node.parent.index);
    if me == null {
      return false, r;
    }
    ctx.lastDirNode, ctx.lastAt, ctx.lastDir := node, w.at, dirname;
    WriteDirBytes(ctx.f, me, r);
    ok := true;
  }

  method WriteDirBytes(f: Stream, me: Entry, ghost r: Record)
    requires f.pos == |f.data| && r.DirRecord? && me.crc32 == Checksum(r)
    requires me.attributes == r.attributes && me.name == r.name && |me.name| <= MAX_NAME
    requires TypeOf(me.attributes) == TYPE_SUBDIR ==> me.parentIndex == r.parent
    modifies f
    ensures f.data == old(f.data) + RecordBytes(r) && f.pos == |f.data|
  {
    hide Overwritten, Checksum, CommonHeader, LE;
    ghost var before, header := f.data, CommonHeader(me.attributes, me.name);
    AtEnd(before, header);
    WriteCommonHeader(f, me);
    if TypeOf(me.attributes) == TYPE_SUBDIR {
      AtEnd(before + header, LE(me.parentIndex, 4));
      f.Write(LE(me.parentIndex, 4));
    }
    AtEnd(f.data, WordBytes(me.crc32));
    f.Write(WordBytes(me.crc32));
    assert before + header + Body(r) + WordBytes(me.crc32) == before + (header + Body(r) + WordBytes(me.crc32));
    assert before + header + [] == before + header;
  }

  lemma {:induction false} NewIsNotRoot(ds: seq<Dir>, path: seq<Name>)
    requires IsTree(ds) && NoneEmpty(path) && WriterStep(ds, path).Some?
    ensures IsTree(WriterStep(ds, path).value.dirs) && WriterStep(ds, path).value.at >= |ds|
  {
    InsertIsTree(ds, ROOT, path);
    InsertNew(ds, ROOT, path);
  }
}
