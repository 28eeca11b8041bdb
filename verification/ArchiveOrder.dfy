/** The order in which a grouped set of paths is archived: directories in path order, each followed by its files. */
module ArchiveOrder {
  import opened Bytes
  import opened DirPaths
  import opened DirLockstep
  import opened Archive
  import opened FileSet

  // ----- path order ----------------------------------------------------------------------------------------------

  /** Byte strings in lexicographic order. */
  predicate NameLess(a: Name, b: Name)
  {
    b != [] && (a == [] || a[0] < b[0] || (a[0] == b[0] && NameLess(a[1..], b[1..])))
  }

  /** Paths component by component. */
  predicate PathLess(a: Path, b: Path)
  {
    b != [] && (a == [] || NameLess(a[0], b[0]) || (a[0] == b[0] && PathLess(a[1..], b[1..])))
  }

  lemma {:induction false} NameAsymmetric(a: Name, b: Name)
    ensures !(NameLess(a, b) && NameLess(b, a))
  {
    if a != [] && b != [] && a[0] == b[0] { NameAsymmetric(a[1..], b[1..]); }
  }

  lemma {:induction false} PathAsymmetric(a: Path, b: Path)
    ensures !(PathLess(a, b) && PathLess(b, a))
  {
    if a != [] && b != [] {
      NameAsymmetric(a[0], b[0]);
      if a[0] == b[0] { PathAsymmetric(a[1..], b[1..]); }
    }
  }

  /** A directory comes before everything below it. */
  lemma {:induction false} PrefixLess(a: Path, b: Path)
    requires a < b
    ensures PathLess(a, b)
  {
    if a != [] { PrefixLess(a[1..], b[1..]); }
  }

  // ----- the entries in order ------------------------------------------------------------------------------------

  /** The keys of an ordered map: ascending, and all of them. */
  ghost predicate ListsKeys(ds: seq<Path>, keys: set<Path>)
  {
    && (forall d :: d in keys <==> d in ds)
    && forall i, j :: 0 <= i < j < |ds| ==> PathLess(ds[i], ds[j])
  }

  /** The elements of an ordered set. */
  ghost predicate ListsNames(ns: seq<Name>, names: set<Name>)
  {
    && (forall n :: n in names <==> n in ns)
    && forall i, j :: 0 <= i < j < |ns| ==> NameLess(ns[i], ns[j])
  }

  /** The first k files of a directory. */
  function FilesOf(d: Path, ns: seq<Name>, contents: Path -> seq<byte>): seq<Item>
  {
    if ns == [] then []
    else
      var n := ns[|ns| - 1];
      FilesOf(d, ns[..|ns| - 1], contents) + [FileItem(d, n, contents(d + [n]))]
  }

  /** The items in the order they are written: each directory but the root, then its files. */
  function ItemsOf(ds: seq<Path>, ns: seq<seq<Name>>, contents: Path -> seq<byte>): seq<Item>
    requires |ds| == |ns|
  {
    if ds == [] then []
    else
      var k := |ds| - 1;
      ItemsOf(ds[..k], ns[..k], contents) + (if ds[k] == [] then [] else [DirItem(ds[k])]) + FilesOf(ds[k], ns[k], contents)
  }

  lemma {:induction false} DirsAppend(a: seq<Item>, b: seq<Item>)
    ensures DirsOf(a + b) == DirsOf(a) + DirsOf(b)
  {
    if b == [] {
      assert a + b == a;
    } else {
      assert (a + b)[..|a + b| - 1] == a + b[..|b| - 1];
      DirsAppend(a, b[..|b| - 1]);
    }
  }

  lemma {:induction false} FilesHaveNoDirs(d: Path, ns: seq<Name>, contents: Path -> seq<byte>)
    ensures DirsOf(FilesOf(d, ns, contents)) == []
  {
    if ns != [] {
      FilesHaveNoDirs(d, ns[..|ns| - 1], contents);
      SnocItem(FilesOf(d, ns[..|ns| - 1], contents), FileItem(d, ns[|ns| - 1], contents(d + [ns[|ns| - 1]])));
    }
  }

  /** All directories but the root, in order. */
  function NotRoot(ds: seq<Path>): seq<Path>
  {
    if ds == [] then [] else NotRoot(ds[..|ds| - 1]) + if ds[|ds| - 1] == [] then [] else [ds[|ds| - 1]]
  }

  lemma {:induction false} NotRootMembers(ds: seq<Path>)
    ensures forall d :: d in NotRoot(ds) <==> d in ds && d != []
  {
    if ds != [] {
      var front := ds[..|ds| - 1];
      NotRootMembers(front);
      assert ds == front + [ds[|ds| - 1]];
    }
  }

  lemma {:induction false} DirsOfItems(ds: seq<Path>, ns: seq<seq<Name>>, contents: Path -> seq<byte>)
    requires |ds| == |ns|
    ensures DirsOf(ItemsOf(ds, ns, contents)) == NotRoot(ds)
  {
    hide DirsOf;
    NoDirs();
    if ds != [] {
      var k := |ds| - 1;
      var front, dir := ItemsOf(ds[..k], ns[..k], contents), if ds[k] == [] then [] else [DirItem(ds[k])];
      DirsOfItems(ds[..k], ns[..k], contents);
      FilesHaveNoDirs(ds[k], ns[k], contents);
      DirsAppend(front + dir, FilesOf(ds[k], ns[k], contents));
      DirsAppend(front, dir);
      OneDir(ds[k]);
    }
  }

  lemma NoDirs()
    ensures DirsOf([]) == []
  {
  }

  lemma OneDir(d: Path)
    ensures DirsOf([DirItem(d)]) == [d]
  {
    assert [DirItem(d)][..0] == [];
  }

  // ----- the order is one the archive accepts --------------------------------------------------------------------

  /** Every directory's parent is listed, and every component is a name. */
  ghost predicate Closed(ds: seq<Path>)
  {
    forall i :: 0 <= i < |ds| ==> AreNames(ds[i]) && (ds[i] != [] ==> Parent(ds[i]) == [] || Parent(ds[i]) in ds)
  }

  ghost predicate Ascending(ds: seq<Path>)
  {
    forall i, j :: 0 <= i < j < |ds| ==> PathLess(ds[i], ds[j])
  }

  ghost predicate AllNames(ns: seq<seq<Name>>)
  {
    forall k :: 0 <= k < |ns| ==> AreNames(ns[k])
  }

  /** In ascending order a listed parent comes earlier. */
  lemma ParentEarlier(ds: seq<Path>)
    requires ds != [] && Ascending(ds) && Closed(ds) && ds[|ds| - 1] != []
    ensures Present(ds[..|ds| - 1], Parent(ds[|ds| - 1])) && ds[|ds| - 1] !in ds[..|ds| - 1]
  {
    hide PathLess;
    var k := |ds| - 1;
    var p := Parent(ds[k]);
    PrefixLess(p, ds[k]);
    PathAsymmetric(ds[k], ds[k]);
    if p != [] {
      var j :| 0 <= j < |ds| && ds[j] == p;
      PathAsymmetric(p, ds[k]);
      assert j < k;
      assert ds[..k][j] == p;
    }
    forall j | 0 <= j < k
      ensures ds[..k][j] != ds[k]
    {
      assert PathLess(ds[j], ds[k]);
    }
  }

  lemma FrontClosed(ds: seq<Path>)
    requires ds != [] && Ascending(ds) && Closed(ds)
    ensures Ascending(ds[..|ds| - 1]) && Closed(ds[..|ds| - 1])
  {
    hide PathLess;
    var front := ds[..|ds| - 1];
    forall i | 0 <= i < |front|
      ensures AreNames(front[i]) && (front[i] != [] ==> Parent(front[i]) == [] || Parent(front[i]) in front)
    {
      assert front[i] == ds[i];
      if front[i] != [] && Parent(front[i]) != [] {
        PathAsymmetric(ds[i], ds[|ds| - 1]);
        PrefixLess(Parent(ds[i]), ds[i]);
        var j :| 0 <= j < |ds| && ds[j] == Parent(ds[i]);
        assert PathLess(ds[i], ds[|ds| - 1]);
        assert front[j] == Parent(ds[i]);
      }
    }
  }

  lemma {:induction false} FilesInOrder(items: seq<Item>, d: Path, ns: seq<Name>, contents: Path -> seq<byte>)
    requires InOrder(items) && CurrentDir(items) == d && AreNames(ns)
    ensures InOrder(items + FilesOf(d, ns, contents)) && CurrentDir(items + FilesOf(d, ns, contents)) == d
  {
    hide InOrder, CurrentDir, DirsOf, IsName;
    if ns == [] {
      assert items + [] == items;
    } else {
      var front, n := ns[..|ns| - 1], ns[|ns| - 1];
      assert AreNames(front) && IsName(n);
      FilesInOrder(items, d, front, contents);
      var item := FileItem(d, n, contents(d + [n]));
      SnocItem(items + FilesOf(d, front, contents), item);
      assert items + FilesOf(d, ns, contents) == items + FilesOf(d, front, contents) + [item];
    }
  }

  /** Listing the keys in path order gives items in an order the archive accepts. */
  lemma {:induction false} ItemsInOrder(ds: seq<Path>, ns: seq<seq<Name>>, contents: Path -> seq<byte>)
    requires |ds| == |ns| && Ascending(ds) && Closed(ds) && AllNames(ns)
    ensures InOrder(ItemsOf(ds, ns, contents))
    ensures ds != [] ==> CurrentDir(ItemsOf(ds, ns, contents)) == ds[|ds| - 1]
    decreases |ds|
  {
    hide InOrder, CurrentDir, DirsOf, PathLess, AreNames;
    NothingListed();
    if ds != [] {
      var k := |ds| - 1;
      var front, d := ItemsOf(ds[..k], ns[..k], contents), ds[k];
      FrontClosed(ds);
      ItemsInOrder(ds[..k], ns[..k], contents);
      if d == [] {
        assert k > 0 ==> PathLess(ds[0], ds[k]);
        NotBelowRoot(ds[0]);
        assert front + [] == front;
        FilesInOrder(front, d, ns[k], contents);
      } else {
        ParentEarlier(ds);
        DirsOfItems(ds[..k], ns[..k], contents);
        NotRootMembers(ds[..k]);
        SnocItem(front, DirItem(d));
        assert AreNames(d) && AreNames(ns[k]);
        FilesInOrder(front + [DirItem(d)], d, ns[k], contents);
      }
    }
  }

  lemma NothingListed()
    ensures InOrder([]) && CurrentDir([]) == []
  {
  }

  lemma NotBelowRoot(d: Path)
    ensures !PathLess(d, [])
  {
  }

  // ----- from the command line to the archive --------------------------------------------------------------------

  /** The closed set of existing paths, grouped and listed, is in order: parents before children, files
      behind their directory. */
  lemma ArchiveInOrder(files: set<Path>, fs: FileSystem, all: set<Path>, tree: map<Path, set<Name>>,
                       ds: seq<Path>, ns: seq<seq<Name>>, contents: Path -> seq<byte>)
    requires Consistent(fs) && AllExist(files, fs) && (forall f :: f in files ==> AreNames(f))
    requires forall q :: q in all <==> InClosure(q, files)
    requires Groups(tree, all, fs) && ListsKeys(ds, tree.Keys) && |ns| == |ds|
    requires forall k :: 0 <= k < |ds| ==> ListsNames(ns[k], tree[ds[k]])
    ensures InOrder(ItemsOf(ds, ns, contents))
  {
    hide InOrder, PathLess, NameLess;
    forall i | 0 <= i < |ds|
      ensures AreNames(ds[i]) && (ds[i] != [] ==> Parent(ds[i]) == [] || Parent(ds[i]) in ds)
    {
      assert ds[i] in tree;
      KeyClosed(files, fs, all, ds[i]);
      if ds[i] != [] && Parent(ds[i]) != [] { assert Parent(ds[i]) in tree; }
    }
    forall k | 0 <= k < |ns|
      ensures AreNames(ns[k])
    {
      forall i | 0 <= i < |ns[k]|
        ensures IsName(ns[k][i])
      {
        assert ds[k] in tree && ns[k][i] in tree[ds[k]];
        assert IsFileIn(ds[k], ns[k][i], all, fs);
        ClosureNames(files, all, ds[k] + [ns[k][i]]);
        assert (ds[k] + [ns[k][i]])[|ds[k]|] == ns[k][i];
      }
    }
    ItemsInOrder(ds, ns, contents);
  }

  lemma ClosureNames(files: set<Path>, all: set<Path>, q: Path)
    requires forall f :: f in files ==> AreNames(f)
    requires (forall q :: q in all <==> InClosure(q, files)) && q in all
    ensures AreNames(q)
  {
    assert InClosure(q, files);
    var f :| f in files && f != CURRENT && Prefix(q, f);
    assert forall i :: 0 <= i < |q| ==> q[i] == f[i];
  }

  /** Everything above a path of the set is a directory of the set. */
  lemma AboveInSet(files: set<Path>, fs: FileSystem, all: set<Path>, q: Path, p: Path)
    requires Consistent(fs) && AllExist(files, fs) && (forall q :: q in all <==> InClosure(q, files))
    requires p in all && Within(q, p)
    ensures q in all && fs(q) == IsDir
  {
    assert InClosure(p, files);
    var f :| f in files && f != CURRENT && Prefix(p, f);
    assert Prefix(q, f) && Within(q, f);
  }

  lemma KeyClosed(files: set<Path>, fs: FileSystem, all: set<Path>, d: Path)
    requires Consistent(fs) && AllExist(files, fs) && (forall f :: f in files ==> AreNames(f))
    requires (forall q :: q in all <==> InClosure(q, files)) && IsKey(d, all, fs)
    ensures AreNames(d)
    ensures d != [] ==> d in all && fs(d) == IsDir && (Parent(d) == [] || IsKey(Parent(d), all, fs))
  {
    if !(d in all && fs(d) == IsDir) {
      var n :| IsFileIn(d, n, all, fs);
      if d != [] {
        assert Within(d, d + [n]);
        AboveInSet(files, fs, all, d, d + [n]);
      }
    }
    if d != [] {
      ClosureNames(files, all, d);
      if Parent(d) != [] {
        assert Within(Parent(d), d);
        AboveInSet(files, fs, all, Parent(d), d);
      }
    }
  }

  // ----- every path once -----------------------------------------------------------------------------------------

  function PathOf(item: Item): Path
  {
    if item.DirItem? then item.path else item.dir + [item.name]
  }

  function PathSet(items: seq<Item>): set<Path>
  {
    set i | 0 <= i < |items| :: PathOf(items[i])
  }

  lemma PathSetAppend(a: seq<Item>, b: seq<Item>)
    ensures PathSet(a + b) == PathSet(a) + PathSet(b)
  {
    hide PathOf;
    forall p
      ensures p in PathSet(a + b) <==> p in PathSet(a) + PathSet(b)
    {
      if p in PathSet(a) {
        var i :| 0 <= i < |a| && PathOf(a[i]) == p;
        assert (a + b)[i] == a[i];
      }
      if p in PathSet(b) {
        var i :| 0 <= i < |b| && PathOf(b[i]) == p;
        assert (a + b)[|a| + i] == b[i];
      }
    }
  }

  lemma OnePath(item: Item)
    ensures PathSet([item]) == {PathOf(item)} && PathSet([]) == {}
  {
    assert [item][0] == item;
  }

  lemma {:induction false} FilesOnce(d: Path, ns: seq<Name>, contents: Path -> seq<byte>)
    requires forall i, j :: 0 <= i < j < |ns| ==> NameLess(ns[i], ns[j])
    ensures forall p :: p in PathSet(FilesOf(d, ns, contents)) <==> IsPathOfFile(d, ns, p)
    ensures |PathSet(FilesOf(d, ns, contents))| == |FilesOf(d, ns, contents)|
  {
    hide NameLess, PathSet, IsPathOfFile;
    OnePath(DirItem([]));
    NoFiles(d);
    if ns != [] {
      var front, n := ns[..|ns| - 1], ns[|ns| - 1];
      var item := FileItem(d, n, contents(d + [n]));
      FilesOnce(d, front, contents);
      PathSetAppend(FilesOf(d, front, contents), [item]);
      OnePath(item);
      NameAsymmetric(n, n);
      assert n !in front;
      FileOfOther(d, front, n);
      assert ns == front + [n];
    }
  }

  lemma NoFiles(d: Path)
    ensures forall p :: !IsPathOfFile(d, [], p)
  {
  }

  predicate IsPathOfFile(d: Path, ns: seq<Name>, p: Path)
  {
    p != [] && p[..|p| - 1] == d && p[|p| - 1] in ns
  }

  lemma FileOfOther(d: Path, ns: seq<Name>, n: Name)
    requires n !in ns
    ensures !IsPathOfFile(d, ns, d + [n])
    ensures forall p :: IsPathOfFile(d, ns + [n], p) <==> IsPathOfFile(d, ns, p) || p == d + [n]
  {
    forall p: Path
      ensures IsPathOfFile(d, ns + [n], p) <==> IsPathOfFile(d, ns, p) || p == d + [n]
    {
      if p != [] { assert p == p[..|p| - 1] + [p[|p| - 1]]; }
    }
  }

  /** The paths of the first keys and their files. */
  ghost predicate IsListed(ds: seq<Path>, ns: seq<seq<Name>>, p: Path)
    requires |ds| == |ns|
  {
    p != [] && (p in ds || exists k :: 0 <= k < |ds| && IsPathOfFile(ds[k], ns[k], p))
  }

  /** Directories are not files. */
  ghost predicate KindsApart(ds: seq<Path>, ns: seq<seq<Name>>)
    requires |ds| == |ns|
  {
    forall j, k :: 0 <= j < |ds| && 0 <= k < |ds| ==> !IsPathOfFile(ds[k], ns[k], ds[j])
  }

  lemma {:induction false} ItemsOnce(ds: seq<Path>, ns: seq<seq<Name>>, contents: Path -> seq<byte>)
    requires |ds| == |ns| && Ascending(ds) && KindsApart(ds, ns)
    requires forall k :: 0 <= k < |ns| ==> AscendingNames(ns[k])
    ensures forall p :: p in PathSet(ItemsOf(ds, ns, contents)) <==> IsListed(ds, ns, p)
    ensures |PathSet(ItemsOf(ds, ns, contents))| == |ItemsOf(ds, ns, contents)|
    decreases |ds|
  {
    hide PathLess, NameLess, PathSet, IsPathOfFile;
    OnePath(DirItem([]));
    if ds != [] {
      var k := |ds| - 1;
      var front, d := ItemsOf(ds[..k], ns[..k], contents), ds[k];
      var dir, files := if d == [] then [] else [DirItem(d)], FilesOf(d, ns[k], contents);
      FrontApart(ds, ns);
      ItemsOnce(ds[..k], ns[..k], contents);
      assert AscendingNames(ns[k]);
      FilesOnce(d, ns[k], contents);
      OnePath(DirItem(d));
      PathSetAppend(front, dir);
      PathSetAppend(front + dir, files);
      NewestApart(ds, ns);
      ListedSnoc(ds, ns);
      Disjoint3(PathSet(front), PathSet(dir), PathSet(files));
    }
  }

  ghost predicate AscendingNames(ns: seq<Name>)
  {
    forall i, j :: 0 <= i < j < |ns| ==> NameLess(ns[i], ns[j])
  }

  lemma Disjoint3(a: set<Path>, b: set<Path>, c: set<Path>)
    requires a !! b && a !! c && b !! c
    ensures |a + b + c| == |a| + |b| + |c|
  {
  }

  lemma FrontApart(ds: seq<Path>, ns: seq<seq<Name>>)
    requires |ds| == |ns| && ds != [] && Ascending(ds) && KindsApart(ds, ns)
    ensures Ascending(ds[..|ds| - 1]) && KindsApart(ds[..|ds| - 1], ns[..|ds| - 1])
  {
    hide PathLess, IsPathOfFile;
    var d, n := ds[..|ds| - 1], ns[..|ds| - 1];
    forall j, k | 0 <= j < |d| && 0 <= k < |d|
      ensures !IsPathOfFile(d[k], n[k], d[j])
    {
      assert !IsPathOfFile(ds[k], ns[k], ds[j]);
    }
  }

  lemma ListedSnoc(ds: seq<Path>, ns: seq<seq<Name>>)
    requires |ds| == |ns| && ds != []
    ensures var k := |ds| - 1;
            forall p :: IsListed(ds, ns, p) <==>
                        IsListed(ds[..k], ns[..k], p) || (p != [] && p == ds[k]) || IsPathOfFile(ds[k], ns[k], p)
  {
    var k := |ds| - 1;
    assert ds == ds[..k] + [ds[k]];
    forall p
      ensures IsListed(ds, ns, p) <==>
              IsListed(ds[..k], ns[..k], p) || (p != [] && p == ds[k]) || IsPathOfFile(ds[k], ns[k], p)
    {
      if p in ds[..k] { assert p in ds; }
      if IsListed(ds[..k], ns[..k], p) && p !in ds[..k] {
        var j :| 0 <= j < k && IsPathOfFile(ds[..k][j], ns[..k][j], p);
        assert IsPathOfFile(ds[j], ns[j], p);
      }
      if IsListed(ds, ns, p) && p !in ds {
        var j :| 0 <= j < |ds| && IsPathOfFile(ds[j], ns[j], p);
        if j < k { assert IsPathOfFile(ds[..k][j], ns[..k][j], p); }
      }
    }
  }

  /** The last key and its files are not listed before. */
  lemma NewestApart(ds: seq<Path>, ns: seq<seq<Name>>)
    requires |ds| == |ns| && ds != [] && Ascending(ds) && KindsApart(ds, ns)
    ensures var k := |ds| - 1;
            && !IsListed(ds[..k], ns[..k], ds[k]) && !IsPathOfFile(ds[k], ns[k], ds[k])
            && forall p :: IsPathOfFile(ds[k], ns[k], p) ==> !IsListed(ds[..k], ns[..k], p)
  {
    hide PathLess;
    var k := |ds| - 1;
    PathAsymmetric(ds[k], ds[k]);
    forall j | 0 <= j < k
      ensures ds[j] != ds[k] && !IsPathOfFile(ds[j], ns[j], ds[k]) && !IsPathOfFile(ds[k], ns[k], ds[j])
    {
      assert PathLess(ds[j], ds[k]);
    }
  }

  /** Every path of the set is archived exactly once, so the count in the archive header is the number of entries. */
  lemma EachPathOnce(files: set<Path>, fs: FileSystem, all: set<Path>, tree: map<Path, set<Name>>,
                     ds: seq<Path>, ns: seq<seq<Name>>, contents: Path -> seq<byte>)
    requires Consistent(fs) && AllExist(files, fs) && (forall f :: f in files ==> AreNames(f))
    requires forall q :: q in all <==> InClosure(q, files)
    requires Groups(tree, all, fs) && ListsKeys(ds, tree.Keys) && |ns| == |ds|
    requires forall k :: 0 <= k < |ds| ==> ListsNames(ns[k], tree[ds[k]])
    ensures PathSet(ItemsOf(ds, ns, contents)) == all
    ensures |ItemsOf(ds, ns, contents)| == |all|
  {
    hide PathLess, NameLess, PathSet, Consistent;
    forall j, k | 0 <= j < |ds| && 0 <= k < |ds|
      ensures !IsPathOfFile(ds[k], ns[k], ds[j])
    {
      assert ds[j] in tree && ds[k] in tree;
      KeyClosed(files, fs, all, ds[j]);
      FileOfKey(all, fs, tree, ds[k], ns[k], ds[j]);
    }
    ItemsOnce(ds, ns, contents);
    forall p
      ensures IsListed(ds, ns, p) <==> p in all
    {
      ListedIff(files, fs, all, tree, ds, ns, p);
    }
  }

  lemma FileOfKey(all: set<Path>, fs: FileSystem, tree: map<Path, set<Name>>, d: Path, ns: seq<Name>, p: Path)
    requires Groups(tree, all, fs) && d in tree && ListsNames(ns, tree[d])
    ensures IsPathOfFile(d, ns, p) <==> p != [] && p[..|p| - 1] == d && p in all && fs(p) == IsFile
  {
    hide NameLess;
    if p != [] && p[..|p| - 1] == d {
      assert p == d + [p[|p| - 1]];
      assert p[|p| - 1] in tree[d] <==> IsFileIn(d, p[|p| - 1], all, fs);
    }
  }

  lemma ListedIff(files: set<Path>, fs: FileSystem, all: set<Path>, tree: map<Path, set<Name>>,
                  ds: seq<Path>, ns: seq<seq<Name>>, p: Path)
    requires Consistent(fs) && AllExist(files, fs) && (forall f :: f in files ==> AreNames(f))
    requires forall q :: q in all <==> InClosure(q, files)
    requires Groups(tree, all, fs) && ListsKeys(ds, tree.Keys) && |ns| == |ds|
    requires forall k :: 0 <= k < |ds| ==> ListsNames(ns[k], tree[ds[k]])
    ensures IsListed(ds, ns, p) <==> p in all
  {
    hide PathLess, NameLess, IsPathOfFile, ListsNames;
    if IsListed(ds, ns, p) {
      if p in ds {
        assert p in tree;
        KeyClosed(files, fs, all, p);
      } else {
        var k :| 0 <= k < |ds| && IsPathOfFile(ds[k], ns[k], p);
        assert ds[k] in tree;
        FileOfKey(all, fs, tree, ds[k], ns[k], p);
      }
    }
    if p in all {
      assert InClosure(p, files);
      KnownKind(files, fs, all, p);
      if fs(p) == IsDir {
        assert IsKey(p, all, fs) && p in tree && p in ds;
      } else {
        var d := p[..|p| - 1];
        assert p == d + [p[|p| - 1]];
        assert IsFileIn(d, p[|p| - 1], all, fs) && IsKey(d, all, fs) && d in tree;
        var k :| 0 <= k < |ds| && ds[k] == d;
        FileOfKey(all, fs, tree, d, ns[k], p);
      }
    }
  }

  /** Every path of the closure exists. */
  lemma KnownKind(files: set<Path>, fs: FileSystem, all: set<Path>, p: Path)
    requires Consistent(fs) && AllExist(files, fs) && InClosure(p, files)
    ensures p != [] && fs(p) != Missing
  {
    var f :| f in files && f != CURRENT && Prefix(p, f);
    if p != f { assert Within(p, f); }
  }
}
