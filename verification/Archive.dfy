/** Whole archives: a list of directories and files, written and read back. */
module Archive {
  import opened Bytes
  import opened LittleEndian
  import opened Streams
  import opened MetaEntry
  import opened DirPaths
  import opened Directories
  import opened DirTree
  import opened DirLockstep
  import opened FileCodec
  import opened EntryRecords
  import opened EntryFile
  import opened EntryWriter
  import opened EntryReader
  import opened SafePaths

  const MAGIC: nat := 0x612D_5242

  datatype Item = DirItem(path: seq<Name>) | FileItem(dir: seq<Name>, name: Name, content: seq<byte>)

  // ----- archives in order ---------------------------------------------------------------------------------------

  /** The directories among the items, in order. */
  function DirsOf(items: seq<Item>): seq<seq<Name>>
  {
    if items == [] then []
    else
      var last := items[|items| - 1];
      DirsOf(items[..|items| - 1]) + if last.DirItem? then [last.path] else []
  }

  /** The directory the next file belongs to: the last one listed, or the root. */
  function CurrentDir(items: seq<Item>): seq<Name>
  {
    if items == [] then []
    else
      var last := items[|items| - 1];
      if last.DirItem? then last.path else CurrentDir(items[..|items| - 1])
  }

  /** One more item: a new directory whose parent is listed, or a file of the current directory. */
  predicate MayFollow(items: seq<Item>, item: Item)
  {
    match item
    case DirItem(path) =>
      path != [] && AreNames(path) && path !in DirsOf(items) && Present(DirsOf(items), Parent(path))
    case FileItem(dir, name, content) => dir == CurrentDir(items) && IsName(name)
  }

  predicate InOrder(items: seq<Item>)
  {
    items == [] || (InOrder(items[..|items| - 1]) && MayFollow(items[..|items| - 1], items[|items| - 1]))
  }

  function PathOfItem(item: Item): seq<byte>
  {
    match item
    case DirItem(path) => Joined(path)
    case FileItem(dir, name, _) => Inside(Joined(dir), name)
  }

  function NameOfItem(item: Item): Name
  {
    match item
    case DirItem(path) => if path == [] then [] else path[|path| - 1]
    case FileItem(_, name, _) => name
  }

  /** The limits of the format. */
  predicate Fits(item: Item)
  {
    && |NameOfItem(item)| <= MAX_NAME && |PathOfItem(item)| <= MAX_PATH
    && (item.FileItem? ==> |item.content| < 0x1_0000_0000_0000_0000)
  }

  // ----- the tree both sides keep --------------------------------------------------------------------------------

  /** Tree and current directory after the items. */
  function StateAfter(items: seq<Item>): (s: Option<Added>)
    ensures s.Some? ==> s.value.at < |s.value.dirs|
  {
    if items == [] then Bytes.Some(Added(EmptyTree(), ROOT))
    else
      match StateAfter(items[..|items| - 1])
      case None => Bytes.None
      case Some(s) =>
        match items[|items| - 1]
        case DirItem(path) => WriterStep(s.dirs, path)
        case FileItem(_, _, _) => Bytes.Some(s)
  }

  /** The state is a tree that mirrors the directories, standing at the current one. */
  predicate GoodState(items: seq<Item>)
  {
    && StateAfter(items).Some?
    && var s := StateAfter(items).value;
       && Mirrors(s.dirs, DirsOf(items)) && PathOf(s.dirs, s.at) == CurrentDir(items)
  }

  lemma SnocItem(items: seq<Item>, item: Item)
    ensures DirsOf(items + [item]) == DirsOf(items) + if item.DirItem? then [item.path] else []
    ensures CurrentDir(items + [item]) == if item.DirItem? then item.path else CurrentDir(items)
    ensures InOrder(items + [item]) <==> InOrder(items) && MayFollow(items, item)
    ensures StateAfter(items).Some? ==>
              StateAfter(items + [item]) == if item.DirItem? then WriterStep(StateAfter(items).value.dirs, item.path)
                                            else StateAfter(items)
  {
    hide WriterStep, MayFollow;
    assert (items + [item])[..|items|] == items;
  }

  /** A directory that may follow is new to the tree, and its parent is not. */
  lemma DirStep(items: seq<Item>, path: seq<Name>)
    requires GoodState(items) && MayFollow(items, DirItem(path))
    ensures var ds := StateAfter(items).value.dirs;
            && WriterStep(ds, path).Some? && Lookup(ds, ROOT, Parent(path)).Some? && IsTree(ds) && |ds| > 0
  {
    hide Lookup, Mirrors, PathOf, IsTree;
    var ds := StateAfter(items).value.dirs;
    MirrorsTree(ds, DirsOf(items));
    FoundIff(ds, DirsOf(items), path);
    FoundIff(ds, DirsOf(items), Parent(path));
  }

  lemma GoodNext(items: seq<Item>, item: Item)
    requires GoodState(items) && MayFollow(items, item)
    ensures GoodState(items + [item])
  {
    hide Mirrors, PathOf, IsTree, WriterStep, StateAfter, DirsOf, CurrentDir;
    SnocItem(items, item);
    assert DirsOf(items) + [] == DirsOf(items);
    if item.DirItem? {
      var s, path := StateAfter(items).value, item.path;
      DirStep(items, path);
      MirrorsMore(s.dirs, DirsOf(items), path);
      NewDirPath(s.dirs, path);
    }
  }

  lemma NewDirPath(ds: seq<Dir>, path: seq<Name>)
    requires IsTree(ds) && AreNames(path) && WriterStep(ds, path).Some?
    ensures var w := WriterStep(ds, path).value; IsTree(w.dirs) && PathOf(w.dirs, w.at) == path
  {
    InsertPath(ds, ROOT, path);
    assert PathOf(ds, ROOT) + path == path;
  }

  lemma {:induction false} StateIsGood(items: seq<Item>)
    requires InOrder(items)
    ensures GoodState(items) && |StateAfter(items).value.dirs| <= |items| + 1
  {
    hide GoodState;
    if items == [] {
      EmptyMirrors();
      assert GoodState([]) by { EmptyGood(); }
      assert StateAfter([]) == Bytes.Some(Added(EmptyTree(), ROOT));
    } else {
      var front, last := items[..|items| - 1], items[|items| - 1];
      assert items == front + [last];
      StateIsGood(front);
      GoodNext(front, last);
      StateSize(items);
      DirsFewer(items);
    }
  }

  lemma EmptyGood()
    ensures GoodState([])
  {
    EmptyMirrors();
  }

  lemma StateSize(items: seq<Item>)
    requires GoodState(items)
    ensures StateAfter(items).Some? && |StateAfter(items).value.dirs| == |DirsOf(items)| + 1
  {
  }

  lemma {:induction false} DirsFewer(items: seq<Item>)
    ensures |DirsOf(items)| <= |items|
  {
    if items != [] { DirsFewer(items[..|items| - 1]); }
  }

  // ----- the records of an archive -------------------------------------------------------------------------------

  const FILE_ATTRIBUTES: byte := 0
  const DIR_ATTRIBUTES: byte := 1

  function FileAttributes(compress: bool): byte
  {
    SetComp(FILE_ATTRIBUTES, if compress then COMP_COMPRESSED else COMP_STORED)
  }

  /** r is a record for the item that follows these items. */
  ghost predicate IsRecordFor(items: seq<Item>, item: Item, compress: bool, r: Record)
  {
    match item
    case DirItem(path) =>
      && StateAfter(items).Some? && WriterStep(StateAfter(items).value.dirs, path).Some?
      && LinkOf(WriterStep(StateAfter(items).value.dirs, path).value).parent < 0x1_0000_0000
      && r == DirEntry(DIR_ATTRIBUTES, WriterStep(StateAfter(items).value.dirs, path).value, Joined(path))
    case FileItem(dir, name, content) =>
      IsFileRecord(r, FileAttributes(compress), name, Inside(Joined(dir), name), content)
  }

  lemma FileRecordGood(item: Item, compress: bool, r: Record)
    requires item.FileItem? && IsName(item.name) && Fits(item)
    requires IsFileRecord(r, FileAttributes(compress), item.name, Inside(Joined(item.dir), item.name), item.content)
    ensures WellFormedRecord(r) && r.path == PathOfItem(item) && r.name == item.name
  {
    hide Compressed, Joined, Written, SetComp, TypeOf, CompOf, IsName;
    AttributesOf(compress);
    assert item.name != [] by { NotEmptyName(item.name); }
  }

  lemma NotEmptyName(name: Name)
    requires IsName(name)
    ensures name != []
  {
  }

  lemma AttributesOf(compress: bool)
    ensures TypeOf(FileAttributes(compress)) == TYPE_FILE
    ensures CompOf(FileAttributes(compress)) == if compress then COMP_COMPRESSED else COMP_STORED
  {
  }

  /** The attribute bytes on disk: 0 and 4 for files stored and compressed, 1 and 3 for directories of the root and
      below others. */
  lemma RecordAttributes(items: seq<Item>, item: Item, compress: bool, r: Record)
    requires IsRecordFor(items, item, compress, r)
    ensures r.StoredRecord? ==> r.attributes == 0
    ensures r.PackedRecord? ==> r.attributes == 4 && compress
    ensures r.DirRecord? ==> r.attributes == if r.parent == 0 then 1 else 3
  {
    hide StateAfter, WriterStep, Compressed, Written, Joined, Inside, SetComp, SetType, CompOf, TypeOf, FileAttributes;
    hide DIR_ATTRIBUTES, Incompressible;
    FileBytes();
    StoredByte(compress);
    NoComp();
    DirBytes();
  }

  lemma FileBytes()
    ensures FileAttributes(true) == 4 && FileAttributes(false) == 0
  {
    hide SetComp;
    SmallAttribute(0);
  }

  lemma StoredByte(compress: bool)
    ensures SetComp(FileAttributes(compress), COMP_STORED) == 0
  {
    hide SetComp, SetType, CompOf, TypeOf, FileAttributes;
    FileBytes();
    if compress {
      SmallAttribute(4);
    } else {
      SmallAttribute(0);
    }
  }

  lemma NoComp()
    ensures CompOf(0) == COMP_STORED
  {
  }

  lemma DirBytes()
    ensures SetType(SetComp(DIR_ATTRIBUTES, COMP_STORED), TYPE_DIR) == 1
    ensures SetType(SetComp(DIR_ATTRIBUTES, COMP_STORED), TYPE_SUBDIR) == 3
  {
    hide SetComp, SetType, CompOf, TypeOf;
    SmallAttribute(1);
  }

  lemma DirRecordGood(items: seq<Item>, item: Item, compress: bool, r: Record)
    requires GoodState(items) && MayFollow(items, item) && Fits(item) && item.DirItem?
    requires IsRecordFor(items, item, compress, r)
    ensures WellFormedRecord(r) && r.path == PathOfItem(item) && r.name == NameOfItem(item)
  {
    hide Compressed, Written, Mirrors, StateAfter, WriterStep, IsTree, SetType, SetComp, TypeOf, CompOf, Joined, LinkOf;
    hide GoodState;
    GoodSome(items);
    var ds := StateAfter(items).value.dirs;
    DirStep(items, item.path);
    LinkIsLast(ds, item.path);
    JoinedNonEmpty(item.path);
  }

  lemma GoodSome(items: seq<Item>)
    requires GoodState(items)
    ensures StateAfter(items).Some? && IsTree(StateAfter(items).value.dirs)
    ensures PathOf(StateAfter(items).value.dirs, StateAfter(items).value.at) == CurrentDir(items)
  {
  }

  lemma JoinedNonEmpty(path: seq<Name>)
    requires path != [] && AreNames(path)
    ensures Joined(path) != []
  {
    JoinedSnoc(path[..|path| - 1], path[|path| - 1]);
    assert path == path[..|path| - 1] + [path[|path| - 1]];
  }

  /** The name in the link is the last component. */
  lemma LinkIsLast(ds: seq<Dir>, path: seq<Name>)
    requires IsTree(ds) && path != [] && AreNames(path) && WriterStep(ds, path).Some?
    ensures LinkOf(WriterStep(ds, path).value).name == path[|path| - 1]
  {
    hide IsTree, Insert, Lookup;
    var front, name := Parent(path), path[|path| - 1];
    assert path == front + [name];
    TreeHasRoot(ds);
    InsertAppend(ds, ROOT, front, [name]);
    var mid := Insert(ds, ROOT, front);
    InsertOne(mid.dirs, mid.at, name);
  }

  /** The reader, in the same state, sees the item's path and moves to the next state. */
  ghost predicate ReadsBack(items: seq<Item>, item: Item, r: Record)
  {
    && WellFormedRecord(r) && r.path == PathOfItem(item) && |Parts(r.name)| == 1
    && StateAfter(items).Some? && SamePath(StateAfter(items).value, r)
    && After(StateAfter(items).value, r) == StateAfter(items + [item])
  }

  lemma ReaderFollows(items: seq<Item>, item: Item, compress: bool, r: Record)
    requires GoodState(items) && MayFollow(items, item) && Fits(item) && IsRecordFor(items, item, compress, r)
    ensures ReadsBack(items, item, r)
  {
    hide *;
    if item.DirItem? {
      DirFollows(items, item, compress, r);
    } else {
      FileFollows(items, item, compress, r);
    }
  }

  lemma DirFollows(items: seq<Item>, item: Item, compress: bool, r: Record)
    requires GoodState(items) && MayFollow(items, item) && Fits(item) && IsRecordFor(items, item, compress, r)
    requires item.DirItem?
    ensures ReadsBack(items, item, r)
  {
    hide Mirrors, StateAfter, WriterStep, IsTree, PathOf, Joined, ReaderStep, Parts, DirsOf, CurrentDir, WellFormedRecord;
    hide LinkOf, GoodState, SetType, SetComp, Fits, IsName, Insert, Lookup;
    GoodSome(items);
    SnocItem(items, item);
    var s := StateAfter(items).value;
    DirRecordGood(items, item, compress, r);
    DirStep(items, item.path);
    NewDirPath(s.dirs, item.path);
    StepIff(s.dirs, item.path);
    LinkBack(WriterStep(s.dirs, item.path).value, Joined(item.path));
    assert IsName(item.path[|item.path| - 1]);
    NameIsOnePart(r.name);
  }

  lemma LinkBack(w: Added, path: seq<byte>)
    requires w.at < |w.dirs| && LinkOf(w).parent < 0x1_0000_0000
    ensures var r := DirEntry(DIR_ATTRIBUTES, w, path); Link(r.parent, r.name) == LinkOf(w) && r.path == path
  {
  }

  lemma FileFollows(items: seq<Item>, item: Item, compress: bool, r: Record)
    requires GoodState(items) && MayFollow(items, item) && Fits(item) && IsRecordFor(items, item, compress, r)
    requires item.FileItem?
    ensures ReadsBack(items, item, r)
  {
    hide StateAfter, IsTree, PathOf, Joined, Parts, DirsOf, CurrentDir, WellFormedRecord, Compressed, Written;
    hide GoodState, SetType, SetComp, Fits, IsName, TypeOf, CompOf;
    GoodSome(items);
    SnocItem(items, item);
    FileRecordGood(item, compress, r);
    NameIsOnePart(r.name);
  }

  // ----- writing -------------------------------------------------------------------------------------------------

  function ArchiveHeader(numFiles: u32): (s: seq<byte>)
    ensures |s| == 8
  {
    LE(MAGIC, 4) + LE(numFiles, 4)
  }

  /** The bytes of all records; names are at most MAX_NAME long. */
  function AllBytes(rs: seq<Record>): seq<byte>
  {
    if rs == [] then []
    else
      var last := rs[|rs| - 1];
      AllBytes(rs[..|rs| - 1]) + if |last.name| <= MAX_NAME then RecordBytes(last) else []
  }

  /** The context stands where the items leave it. */
  ghost predicate StandsAfter(ctx: Context, items: seq<Item>)
    reads ctx, ctx.tree, ctx.tree.nodes
  {
    && ctx.Valid() && StateAfter(items) == Bytes.Some(Added(ctx.tree.dirs, ctx.lastAt))
  }

  lemma NameInsideBack(dir: seq<byte>, name: Name)
    requires IsName(name)
    ensures NameInside(dir, Inside(dir, name)) == ShortName(name)
  {
    var whole := Inside(dir, name);
    if dir == [] {
      assert whole[0] in name;
    } else {
      assert whole[..|dir|] == dir && whole[|dir|] == DELIM && whole[|dir| + 1..] == name;
    }
  }

  method WriteFileItem(ctx: Context, item: Item, compress: bool, ghost items: seq<Item>) returns (ok: bool, ghost r: Record)
    requires item.FileItem? && InOrder(items) && MayFollow(items, item) && Fits(item)
    requires StandsAfter(ctx, items) && ctx.lastDir == Joined(CurrentDir(items))
    requires ctx.f.pos == |ctx.f.data| > 0
    modifies ctx.f
    ensures ok && IsRecordFor(items, item, compress, r)
    ensures StandsAfter(ctx, items + [item]) && ctx.lastDir == Joined(CurrentDir(items + [item]))
    ensures |r.name| <= MAX_NAME
    ensures ctx.f.pos == |ctx.f.data| > 0 && ctx.f.data == old(ctx.f.data) + RecordBytes(r)
  {
    hide Joined, StateAfter, CurrentDir, DirsOf, RecordBytes, Compressed, Written, NameInside, InOrder, SetComp, TypeOf, CompOf;
    hide IsName;
    SnocItem(items, item);
    AttributesOf(compress);
    NameInsideBack(Joined(item.dir), item.name);
    assert item.name != [] by { NotEmptyName(item.name); }
    var path := if |ctx.lastDir| > 0 then ctx.lastDir + [DELIM] + item.name else item.name;
    ok, r := WriteFile(ctx, FileAttributes(compress), path, item.content);
  }

  method WriteDirItem(ctx: Context, item: Item, ghost items: seq<Item>, ghost compress: bool) returns (ok: bool, ghost r: Record)
    requires item.DirItem? && InOrder(items) && MayFollow(items, item) && Fits(item)
    requires StandsAfter(ctx, items) && |DirsOf(items)| + 2 <= MAX_NODES
    requires ctx.f.pos == |ctx.f.data| > 0
    modifies ctx, ctx.f, ctx.tree, ctx.tree.nodes
    ensures old(ctx.tree.nodes) <= ctx.tree.nodes
    ensures forall k :: |old(ctx.tree.nodes)| <= k < |ctx.tree.nodes| ==> fresh(ctx.tree.nodes[k])
    ensures ok && IsRecordFor(items, item, compress, r)
    ensures StandsAfter(ctx, items + [item]) && ctx.lastDir == Joined(CurrentDir(items + [item]))
    ensures r.DirRecord? && |r.name| <= MAX_NAME
    ensures ctx.f.pos == |ctx.f.data| > 0 && ctx.f.data == old(ctx.f.data) + RecordBytes(r)
  {
    hide Joined, StateAfter, CurrentDir, DirsOf, RecordBytes, InOrder, SetComp, SetType, TypeOf, CompOf, Tokens, WriterStep;
    hide IsTree, LinkOf, GoodState;
    SnocItem(items, item);
    StateIsGood(items);
    DirStep(items, item.path);
    TokensJoined(item.path);
    JoinedNonEmpty(item.path);
    LinkIsLast(ctx.tree.dirs, item.path);
    OneMore(ctx.tree.dirs, item.path);
    StateSize(items);
    StepIsInsert(ctx.tree.dirs, item.path);
    ok, r := WriteDir(ctx, DIR_ATTRIBUTES, Joined(item.path));
  }

  lemma StepIsInsert(ds: seq<Dir>, path: seq<Name>)
    requires |ds| > 0 && WriterStep(ds, path).Some?
    ensures WriterStep(ds, path).value == Insert(ds, ROOT, path)
  {
  }

  // ----- whole archives ------------------------------------------------------------------------------------------

  ghost predicate IsRecordAt(items: seq<Item>, k: nat, compress: bool, r: Record)
  {
    k < |items| && |r.name| <= MAX_NAME && IsRecordFor(items[..k], items[k], compress, r)
  }

  /** The records of all items, in order. */
  ghost predicate AreRecordsFor(items: seq<Item>, compress: bool, rs: seq<Record>)
  {
    |rs| == |items| && forall k :: 0 <= k < |rs| ==> IsRecordAt(items, k, compress, rs[k])
  }

  /** The records one after the other, behind the archive header. */
  ghost predicate IsArchive(data: seq<byte>, items: seq<Item>, compress: bool, rs: seq<Record>)
  {
    AreRecordsFor(items, compress, rs) && data == ArchiveHeader(|items| % 0x1_0000_0000) + AllBytes(rs)
  }

  predicate AllFit(items: seq<Item>)
  {
    forall k :: 0 <= k < |items| ==> Fits(items[k])
  }

  lemma {:induction false} FrontInOrder(items: seq<Item>, k: nat)
    requires InOrder(items) && k <= |items|
    ensures InOrder(items[..k]) && (k < |items| ==> MayFollow(items[..k], items[k]))
    decreases |items|
  {
    hide MayFollow;
    if k == |items| {
      assert items[..k] == items;
    } else if k < |items| - 1 {
      var front := items[..|items| - 1];
      FrontInOrder(front, k);
      assert front[..k] == items[..k];
    }
  }

  lemma RecordsSnoc(items: seq<Item>, i: nat, compress: bool, rs: seq<Record>, r: Record)
    requires i < |items| && AreRecordsFor(items[..i], compress, rs) && IsRecordFor(items[..i], items[i], compress, r)
    requires |r.name| <= MAX_NAME
    ensures AreRecordsFor(items[..i + 1], compress, rs + [r])
    ensures AllBytes(rs + [r]) == AllBytes(rs) + RecordBytes(r)
  {
    hide IsRecordFor, RecordBytes;
    var all := rs + [r];
    assert all[..|all| - 1] == rs;
    forall k | 0 <= k < |all|
      ensures IsRecordAt(items[..i + 1], k, compress, all[k])
    {
      assert items[..i + 1][..k] == items[..k];
      if k < i {
        assert items[..i][..k] == items[..k];
        assert IsRecordAt(items[..i], k, compress, rs[k]);
      }
    }
  }

  lemma EmptyArchive(items: seq<Item>, compress: bool)
    ensures AreRecordsFor(items[..0], compress, []) && AllBytes([]) == []
    ensures StateAfter(items[..0]) == Bytes.Some(Added(EmptyTree(), ROOT)) && Joined(CurrentDir(items[..0])) == []
  {
  }

  /** Writes one item behind the others. */
  method WriteItem(ctx: Context, item: Item, compress: bool, ghost items: seq<Item>) returns (ok: bool, ghost r: Record)
    requires InOrder(items) && MayFollow(items, item) && Fits(item) && |items| + 2 <= MAX_NODES
    requires StandsAfter(ctx, items) && ctx.lastDir == Joined(CurrentDir(items))
    requires ctx.f.pos == |ctx.f.data| > 0
    modifies ctx, ctx.f, ctx.tree, ctx.tree.nodes
    ensures old(ctx.tree.nodes) <= ctx.tree.nodes
    ensures forall k :: |old(ctx.tree.nodes)| <= k < |ctx.tree.nodes| ==> fresh(ctx.tree.nodes[k])
    ensures ok && IsRecordFor(items, item, compress, r) && |r.name| <= MAX_NAME
    ensures StandsAfter(ctx, items + [item]) && ctx.lastDir == Joined(CurrentDir(items + [item]))
    ensures ctx.f.pos == |ctx.f.data| > 0 && ctx.f.data == old(ctx.f.data) + RecordBytes(r)
  {
    hide *;
    DirsFewer(items);
    if item.DirItem? {
      ok, r := WriteDirItem(ctx, item, items, compress);
    } else {
      ok, r := WriteFileItem(ctx, item, compress, items);
    }
  }

  /** Writes an archive of items in order. */
  method WriteArchive(items: seq<Item>, compress: bool) returns (ok: bool, f: Stream, ghost rs: seq<Record>)
    requires InOrder(items) && AllFit(items) && |items| < MAX_NODES
    ensures ok && fresh(f) && IsArchive(f.data, items, compress, rs)
  {
    hide AllBytes, ArchiveHeader, Fits, StandsAfter, Joined, CurrentDir, IsRecordFor, RecordBytes, InOrder, MayFollow;
    hide StateAfter, AreRecordsFor, Overwritten;
    f := new Stream();
    var ctx := new Context(f);
    AtEnd([], ArchiveHeader(|items|));
    f.Write(ArchiveHeader(|items|));
    assert f.data == ArchiveHeader(|items|);
    rs, ok := [], true;
    EmptyArchive(items, compress);
    assert StandsAfter(ctx, items[..0]) by { ContextStart(ctx, items); }
    assert ArchiveHeader(|items|) + [] == ArchiveHeader(|items|);
    for i := 0 to |items|
      invariant ok && ctx.f == f && f.pos == |f.data| > 0
      invariant fresh(ctx) && fresh(ctx.tree) && forall k :: 0 <= k < |ctx.tree.nodes| ==> fresh(ctx.tree.nodes[k])
      invariant StandsAfter(ctx, items[..i]) && ctx.lastDir == Joined(CurrentDir(items[..i]))
      invariant AreRecordsFor(items[..i], compress, rs)
      invariant f.data == ArchiveHeader(|items|) + AllBytes(rs)
    {
      assert items[..i + 1] == items[..i] + [items[i]];
      FrontInOrder(items, i);
      ghost var r;
      ok, r := WriteItem(ctx, items[i], compress, items[..i]);
      RecordsSnoc(items, i, compress, rs, r);
      rs := rs + [r];
    }
    assert items[..|items|] == items;
  }

  lemma ContextStart(ctx: Context, items: seq<Item>)
    requires ctx.Valid() && ctx.tree.dirs == EmptyTree() && ctx.lastAt == ROOT
    ensures StandsAfter(ctx, items[..0])
  {
  }

  // ----- reading -------------------------------------------------------------------------------------------------

  /** The magic number, as bytes: "BR-a". */
  lemma MagicBytes(s: seq<byte>)
    requires |s| == 4
    ensures FromLE(s) == MAGIC <==> s == [66, 82, 45, 97]
  {
    assert FromLE(s) == s[0] + 256 * FromLE(s[1..]);
    assert FromLE(s[1..]) == s[1] + 256 * FromLE(s[2..]) by { assert s[1..][1..] == s[2..]; }
    assert FromLE(s[2..]) == s[2] + 256 * FromLE(s[3..]) by { assert s[2..][1..] == s[3..]; }
    assert FromLE(s[3..]) == s[3] by { assert s[3..] == [s[3]]; }
  }

  /** Reads the archive header; None when it is short or has the wrong magic number. */
  method ReadArchiveHeader(f: Stream) returns (numFiles: Option<u32>)
    requires f.pos <= |f.data|
    modifies f`pos
    ensures old(f.pos) + 8 > |f.data| ==> numFiles == Bytes.None
    ensures old(f.pos) + 8 <= |f.data| ==>
              var h := f.data[old(f.pos)..old(f.pos) + 8];
              && (numFiles.Some? <==> h[..4] == [66, 82, 45, 97])
              && (numFiles.Some? ==> numFiles.value == FromLE(h[4..]) && f.pos == old(f.pos) + 8)
  {
    hide FromLE;
    var h := f.Read(8);
    if h != Bytes.None { MagicBytes(h.value[..4]); }
    if h == Bytes.None || FromLE(h.value[..4]) != MAGIC {
      return Bytes.None;
    }
    Widths();
    ValueBound(h.value[4..]);
    numFiles := Bytes.Some(FromLE(h.value[4..]));
  }

  lemma HeaderBack(n: u32, tail: seq<byte>)
    ensures var h := (ArchiveHeader(n) + tail)[0..8];
            h == ArchiveHeader(n) && h[..4] == [66, 82, 45, 97] && FromLE(h[4..]) == n
  {
    hide LE, FromLE;
    WordSizeBack(MAGIC);
    WordSizeBack(n);
    var h := (ArchiveHeader(n) + tail)[0..8];
    assert h[..4] == LE(MAGIC, 4) && h[4..] == LE(n, 4);
    MagicBytes(h[..4]);
  }

  /** Where record k lies. */
  lemma {:induction false} BytesAt(rs: seq<Record>, k: nat)
    requires k < |rs| && |rs[k].name| <= MAX_NAME
    ensures AllBytes(rs[..k + 1]) == AllBytes(rs[..k]) + RecordBytes(rs[k])
    ensures AllBytes(rs[..k]) + RecordBytes(rs[k]) <= AllBytes(rs)
    decreases |rs|
  {
    hide RecordBytes;
    assert rs[..k + 1][..k] == rs[..k];
    if k + 1 == |rs| {
      assert rs[..k + 1] == rs;
    } else {
      var front := rs[..|rs| - 1];
      BytesAt(front, k);
      assert front[..k] == rs[..k] && front[..k + 1] == rs[..k + 1];
    }
  }

  /** The cursor in front of record k. */
  ghost predicate Before(pos: nat, rs: seq<Record>, k: nat)
    requires k <= |rs|
  {
    pos == 8 + |AllBytes(rs[..k])|
  }

  lemma RecordAhead(data: seq<byte>, items: seq<Item>, compress: bool, rs: seq<Record>, k: nat, pos: nat)
    requires IsArchive(data, items, compress, rs) && k < |rs| && Before(pos, rs, k)
    ensures |rs[k].name| <= MAX_NAME && IsRecordFor(items[..k], items[k], compress, rs[k])
    ensures pos <= |data| && RecordBytes(rs[k]) <= data[pos..]
    ensures Before(pos + |RecordBytes(rs[k])|, rs, k + 1)
  {
    hide RecordBytes, AllBytes, IsRecordFor, ArchiveHeader;
    assert IsRecordAt(items, k, compress, rs[k]);
    BytesAt(rs, k);
    var h, all, front, r := ArchiveHeader(|items| % 0x1_0000_0000), AllBytes(rs), AllBytes(rs[..k]), RecordBytes(rs[k]);
    assert data[pos..] == all[|front|..];
  }

  /** The item comes back under its path; a file that may not be overwritten is left alone. */
  function ExpectedItem(item: Item, overwrite: bool): Outcome
  {
    match item
    case DirItem(_) => MadeDir(PathOfItem(item))
    case FileItem(_, _, content) => if overwrite then Wrote(PathOfItem(item), content) else Skipped(PathOfItem(item))
  }

  /** Nothing stops the extraction of an item: a file left alone is not looked into. */
  ghost predicate Extractable(item: Item, r: Record, overwrite: bool)
  {
    SafePath(PathOfItem(item)) && (overwrite ==> Readable(r) && Sound(r))
  }

  lemma RecordReads(items: seq<Item>, compress: bool, r: Record, k: nat)
    requires InOrder(items) && AllFit(items) && |items| < MAX_NODES && k < |items|
    requires IsRecordFor(items[..k], items[k], compress, r)
    ensures ReadsBack(items[..k], items[k], r) && items[..k] + [items[k]] == items[..k + 1]
    ensures StateAfter(items[..k + 1]).Some? && |StateAfter(items[..k + 1]).value.dirs| <= MAX_NODES
    ensures forall overwrite :: Expected(r, overwrite) == ExpectedItem(items[k], overwrite)
  {
    hide IsRecordFor, ReadsBack, Fits, InOrder, MayFollow, GoodState, StateAfter, PathOfItem;
    FrontInOrder(items, k);
    FrontInOrder(items, k + 1);
    StateIsGood(items[..k]);
    StateIsGood(items[..k + 1]);
    GoodSome(items[..k + 1]);
    assert items[..k] + [items[k]] == items[..k + 1];
    ReaderFollows(items[..k], items[k], compress, r);
    SameOutcome(items[..k], items[k], compress, r);
  }

  lemma SameOutcome(items: seq<Item>, item: Item, compress: bool, r: Record)
    requires IsRecordFor(items, item, compress, r) && ReadsBack(items, item, r)
    ensures forall overwrite :: Expected(r, overwrite) == ExpectedItem(item, overwrite)
  {
    hide *;
    SameKind(items, item, compress, r);
    ReadsPath(items, item, r);
    forall overwrite
      ensures Expected(r, overwrite) == ExpectedItem(item, overwrite)
    {
      SameOutcomes(item, r, overwrite);
    }
  }

  lemma SameKind(items: seq<Item>, item: Item, compress: bool, r: Record)
    requires IsRecordFor(items, item, compress, r)
    ensures r.DirRecord? <==> item.DirItem?
    ensures item.FileItem? ==> r.content == item.content
  {
    hide StateAfter, WriterStep, LinkOf, Compressed, Written, SetType, SetComp, TypeOf, CompOf, Joined;
  }

  lemma ReadsPath(items: seq<Item>, item: Item, r: Record)
    requires ReadsBack(items, item, r)
    ensures r.path == PathOfItem(item)
  {
    hide StateAfter, WellFormedRecord, SamePath, After, PathOfItem;
  }

  lemma SameOutcomes(item: Item, r: Record, overwrite: bool)
    requires r.path == PathOfItem(item) && (r.DirRecord? <==> item.DirItem?)
    requires item.FileItem? ==> r.content == item.content
    ensures Expected(r, overwrite) == ExpectedItem(item, overwrite)
  {
    hide PathOfItem;
  }

  /** Extracts the next record. */
  method ExtractNext(ctx: Context, overwrite: bool, ghost items: seq<Item>, ghost k: nat, ghost compress: bool,
                     ghost rs: seq<Record>) returns (o: Outcome)
    requires InOrder(items) && AllFit(items) && |items| < MAX_NODES && k < |items|
    requires IsArchive(ctx.f.data, items, compress, rs)
    requires Before(ctx.f.pos, rs, k) && StandsAfter(ctx, items[..k])
    modifies ctx, ctx.f`pos, ctx.tree, ctx.tree.nodes
    ensures old(ctx.tree.nodes) <= ctx.tree.nodes
    ensures forall n :: |old(ctx.tree.nodes)| <= n < |ctx.tree.nodes| ==> fresh(ctx.tree.nodes[n])
    ensures o == if Extractable(items[k], rs[k], overwrite) then ExpectedItem(items[k], overwrite) else Failed
    ensures o != Failed ==> Before(ctx.f.pos, rs, k + 1) && StandsAfter(ctx, items[..k + 1])
  {
    hide StateAfter, RecordBytes, AllBytes, IsRecordFor, InOrder, AllFit, PathOfItem, SafePath, Readable, Sound;
    hide WellFormedRecord, SamePath, After, ExpectedItem, Expected, Before, ArchiveHeader, Parts;
    RecordAhead(ctx.f.data, items, compress, rs, k, ctx.f.pos);
    RecordReads(items, compress, rs[k], k);
    o := Extract(ctx, overwrite, rs[k]);
    NeverFailed(items[k], overwrite);
  }

  lemma NeverFailed(item: Item, overwrite: bool)
    ensures ExpectedItem(item, overwrite) != Failed
  {
  }

  /** Extracts a whole archive: it succeeds exactly when every path is safe and every file to be written is
      readable with a sound checksum; then every directory and file comes back, and the cursor stands at the end. */
  method ExtractArchive(f: Stream, overwrite: seq<bool>, ghost items: seq<Item>, ghost compress: bool, ghost rs: seq<Record>)
    returns (ok: bool, outcomes: seq<Outcome>)
    requires InOrder(items) && AllFit(items) && |items| < MAX_NODES && |overwrite| == |items|
    requires IsArchive(f.data, items, compress, rs) && f.pos == 0
    modifies f`pos
    ensures ok <==> forall k :: 0 <= k < |items| ==> Extractable(items[k], rs[k], overwrite[k])
    ensures ok ==> |outcomes| == |items| && f.pos == |f.data|
    ensures ok ==> forall k :: 0 <= k < |items| ==> outcomes[k] == ExpectedItem(items[k], overwrite[k])
  {
    hide StateAfter, AllBytes, InOrder, AllFit, ExpectedItem, Extractable, AreRecordsFor, StandsAfter, ArchiveHeader, FromLE;
    var ctx := new Context(f);
    outcomes := [];
    HeaderBack(|items|, AllBytes(rs));
    var numFiles := ReadArchiveHeader(f);
    EmptyArchive(items, compress);
    assert StandsAfter(ctx, items[..0]) by { ContextStart(ctx, items); }
    NoBytesRead(rs);
    assert |rs| == |items| by { SameCount(items, compress, rs); }
    for i := 0 to numFiles.value
      invariant |outcomes| == i && ctx.f == f && f.data == old(f.data)
      invariant fresh(ctx) && fresh(ctx.tree) && forall k :: 0 <= k < |ctx.tree.nodes| ==> fresh(ctx.tree.nodes[k])
      invariant StandsAfter(ctx, items[..i]) && Before(f.pos, rs, i)
      invariant forall k :: 0 <= k < i ==> Extractable(items[k], rs[k], overwrite[k])
      invariant forall k :: 0 <= k < i ==> outcomes[k] == ExpectedItem(items[k], overwrite[k])
    {
      var o := ExtractNext(ctx, overwrite[i], items, i, compress, rs);
      NeverFailed(items[i], overwrite[i]);
      if o == Failed {
        return false, outcomes;
      }
      outcomes := outcomes + [o];
    }
    assert rs[..|rs|] == rs;
    ok := true;
  }

  lemma NoBytesRead(rs: seq<Record>)
    ensures AllBytes(rs[..0]) == []
  {
  }

  lemma SameCount(items: seq<Item>, compress: bool, rs: seq<Record>)
    requires AreRecordsFor(items, compress, rs)
    ensures |rs| == |items|
  {
  }

  /** Lists or tests the next record. */
  method PrintNext(ctx: Context, testMode: bool, ghost items: seq<Item>, ghost k: nat, ghost compress: bool,
                   ghost rs: seq<Record>) returns (ok: bool)
    requires InOrder(items) && AllFit(items) && |items| < MAX_NODES && k < |items|
    requires IsArchive(ctx.f.data, items, compress, rs)
    requires Before(ctx.f.pos, rs, k) && StandsAfter(ctx, items[..k])
    modifies ctx, ctx.f`pos, ctx.tree, ctx.tree.nodes
    ensures old(ctx.tree.nodes) <= ctx.tree.nodes
    ensures forall n :: |old(ctx.tree.nodes)| <= n < |ctx.tree.nodes| ==> fresh(ctx.tree.nodes[n])
    ensures ok <==> Printable(items[k], rs[k], testMode)
    ensures ok ==> Before(ctx.f.pos, rs, k + 1) && StandsAfter(ctx, items[..k + 1])
  {
    hide StateAfter, RecordBytes, AllBytes, IsRecordFor, InOrder, AllFit, PathOfItem, SafePath, Readable, Sound;
    hide WellFormedRecord, SamePath, After, Before, ArchiveHeader, Parts;
    RecordAhead(ctx.f.data, items, compress, rs, k, ctx.f.pos);
    RecordReads(items, compress, rs[k], k);
    ok := PrintEntry(ctx, testMode, rs[k]);
  }

  /** Nothing stops the listing of an item. */
  ghost predicate Printable(item: Item, r: Record, testMode: bool)
  {
    Readable(r) && (testMode ==> SafePath(PathOfItem(item)) && Sound(r))
  }

  /** Lists a whole archive, or tests it: in test mode every stored checksum matches. */
  method PrintArchive(f: Stream, testMode: bool, ghost items: seq<Item>, ghost compress: bool, ghost rs: seq<Record>)
    returns (ok: bool)
    requires InOrder(items) && AllFit(items) && |items| < MAX_NODES
    requires IsArchive(f.data, items, compress, rs) && f.pos == 0
    modifies f`pos
    ensures ok <==> forall k :: 0 <= k < |items| ==> Printable(items[k], rs[k], testMode)
    ensures ok ==> f.pos == |f.data|
  {
    hide StateAfter, AllBytes, InOrder, AllFit, Printable, AreRecordsFor, StandsAfter, ArchiveHeader, FromLE;
    var ctx := new Context(f);
    HeaderBack(|items|, AllBytes(rs));
    var numFiles := ReadArchiveHeader(f);
    EmptyArchive(items, compress);
    assert StandsAfter(ctx, items[..0]) by { ContextStart(ctx, items); }
    NoBytesRead(rs);
    assert |rs| == |items| by { SameCount(items, compress, rs); }
    for i := 0 to numFiles.value
      invariant ctx.f == f && f.data == old(f.data)
      invariant fresh(ctx) && fresh(ctx.tree) && forall k :: 0 <= k < |ctx.tree.nodes| ==> fresh(ctx.tree.nodes[k])
      invariant StandsAfter(ctx, items[..i]) && Before(f.pos, rs, i)
      invariant forall k :: 0 <= k < i ==> Printable(items[k], rs[k], testMode)
    {
      ok := PrintNext(ctx, testMode, items, i, compress, rs);
      if !ok {
        return;
      }
    }
    assert rs[..|rs|] == rs;
    ok := true;
  }

  // ----- there and back ------------------------------------------------------------------------------------------

  /** Files of at most 260111 bytes always come back: the reader accepts their chunks, and the length combined
      into their checksum fits. */
  lemma SmallFileReads(items: seq<Item>, item: Item, compress: bool, r: Record)
    requires IsRecordFor(items, item, compress, r) && (item.FileItem? ==> |item.content| <= 260111)
    ensures Readable(r) && Sound(r)
  {
    hide StateAfter, WriterStep, LinkOf, Compressed, Written, SetType, SetComp, TypeOf, CompOf, Joined, AllAccepted, Sound;
    if r.PackedRecord? {
      SmallFileAccepted(r.content, r.chunks);
    }
    FittingIsSound(r);
  }

  /** Files stored as they are come back whatever their size. */
  lemma StoredFileReads(items: seq<Item>, item: Item, r: Record)
    requires IsRecordFor(items, item, false, r)
    ensures Readable(r) && Sound(r)
  {
    hide StateAfter, WriterStep, LinkOf, Compressed, Written, SetType, SetComp, TypeOf, CompOf, Joined, AllAccepted, Sound;
    AttributesOf(false);
    OthersAreSound(r);
  }

  /** Files that are certain to come back. */
  predicate Certain(item: Item, compress: bool)
  {
    item.FileItem? && compress ==> |item.content| <= 260111
  }

  lemma CertainReads(items: seq<Item>, item: Item, compress: bool, r: Record)
    requires IsRecordFor(items, item, compress, r) && Certain(item, compress)
    ensures Readable(r) && Sound(r)
  {
    hide IsRecordFor, Readable, Sound;
    if compress {
      SmallFileReads(items, item, compress, r);
    } else {
      StoredFileReads(items, item, r);
    }
  }

  /** Archives items and extracts them again over whatever is there. Everything comes back exactly when every path
      is safe and every record readable with a sound checksum; without compression, and for files of at most 260111
      bytes, safe paths are enough. */
  method RoundTrip(items: seq<Item>, compress: bool) returns (ok: bool, outcomes: seq<Outcome>, ghost rs: seq<Record>)
    requires InOrder(items) && AllFit(items) && |items| < MAX_NODES
    ensures AreRecordsFor(items, compress, rs)
    ensures ok <==> forall k :: 0 <= k < |items| ==> Extractable(items[k], rs[k], true)
    ensures ok ==> |outcomes| == |items| && forall k :: 0 <= k < |items| ==> outcomes[k] == ExpectedItem(items[k], true)
    ensures (forall k :: 0 <= k < |items| ==> SafePath(PathOfItem(items[k])) && Certain(items[k], compress)) ==> ok
  {
    hide StateAfter, AllBytes, InOrder, AllFit, ExpectedItem, ArchiveHeader, PathOfItem, SafePath, Readable, Sound;
    hide IsRecordFor, Certain;
    var f;
    ok, f, rs := WriteArchive(items, compress);
    forall k | 0 <= k < |items| && Certain(items[k], compress)
      ensures Readable(rs[k]) && Sound(rs[k])
    {
      assert IsRecordAt(items, k, compress, rs[k]);
      CertainReads(items[..k], items[k], compress, rs[k]);
    }
    f.Seek(0);
    ok, outcomes := ExtractArchive(f, seq(|items|, _ => true), items, compress, rs);
  }
}
