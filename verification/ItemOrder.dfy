/** Exactly in which order the items of an archive stand. */
module ItemOrder {
  import opened Bytes
  import opened DirPaths
  import opened Archive
  import opened FileSet
  import opened ArchiveOrder

  /** Shorter byte strings come before longer ones they begin; otherwise the first difference decides. */
  lemma {:induction false} NameLessIff(a: Name, b: Name)
    ensures NameLess(a, b) <==> a < b || exists k :: 0 <= k < |a| && k < |b| && a[..k] == b[..k] && a[k] < b[k]
  {
    if a == [] || b == [] {
      assert a == [] && b != [] ==> a < b;
    } else {
      NameLessIff(a[1..], b[1..]);
      if a[0] == b[0] {
        SameHead(a, b);
        if k :| 0 <= k < |a[1..]| && k < |b[1..]| && a[1..][..k] == b[1..][..k] && a[1..][k] < b[1..][k] {
          assert a[..k + 1] == [a[0]] + a[1..][..k] && b[..k + 1] == [b[0]] + b[1..][..k];
          assert a[..k + 1] == b[..k + 1] && a[k + 1] < b[k + 1];
        }
        if k :| 0 <= k < |a| && k < |b| && a[..k] == b[..k] && a[k] < b[k] {
          assert k > 0;
          assert a[1..][..k - 1] == a[..k][1..] == b[..k][1..] == b[1..][..k - 1] && a[1..][k - 1] < b[1..][k - 1];
        }
      } else {
        DifferentHead(a, b);
      }
    }
  }

  lemma SameHead<T>(a: seq<T>, b: seq<T>)
    requires a != [] && b != [] && a[0] == b[0]
    ensures a < b <==> a[1..] < b[1..]
  {
    assert a == [a[0]] + a[1..] && b == [b[0]] + b[1..];
    if a[1..] < b[1..] {
      assert b[..|a|] == [b[0]] + b[1..][..|a| - 1];
    }
    if a < b {
      assert b[1..][..|a| - 1] == b[..|a|][1..];
    }
  }

  lemma FirstAgrees(a: Name, b: Name, k: nat)
    requires 0 < k <= |a| && k <= |b| && a[..k] == b[..k]
    ensures a[0] == b[0]
  {
    assert a[0] == a[..k][0] == b[..k][0] == b[0];
  }

  lemma PrefixAgrees(a: Name, b: Name)
    requires a < b && a != []
    ensures a[0] == b[0]
  {
    assert b[..|a|] == a;
  }

  lemma DifferentHead(a: Name, b: Name)
    requires a != [] && b != [] && a[0] != b[0]
    ensures !(a < b)
    ensures a[0] < b[0] <==> exists k :: 0 <= k < |a| && k < |b| && a[..k] == b[..k] && a[k] < b[k]
  {
    if a[0] < b[0] {
      assert a[..0] == b[..0];
    }
    if k :| 0 <= k < |a| && k < |b| && a[..k] == b[..k] && a[k] < b[k] {
      if k > 0 { FirstAgrees(a, b, k); }
    }
    if a < b { PrefixAgrees(a, b); }
  }

  /** The directory an item is or lies in. */
  function DirOf(item: Item): Path
  {
    if item.DirItem? then item.path else item.dir
  }

  /** By directory; the directory itself before its files; its files by name. */
  predicate ComesBefore(a: Item, b: Item)
  {
    || PathLess(DirOf(a), DirOf(b))
    || (DirOf(a) == DirOf(b) && b.FileItem? && (a.DirItem? || NameLess(a.name, b.name)))
  }

  ghost predicate InItemOrder(items: seq<Item>)
  {
    forall i, j :: 0 <= i < j < |items| ==> ComesBefore(items[i], items[j])
  }

  lemma JoinOrdered(a: seq<Item>, b: seq<Item>)
    requires InItemOrder(a) && InItemOrder(b)
    requires forall i, j :: 0 <= i < |a| && 0 <= j < |b| ==> ComesBefore(a[i], b[j])
    ensures InItemOrder(a + b)
  {
    hide ComesBefore;
    var c := a + b;
    forall i, j | 0 <= i < j < |c|
      ensures ComesBefore(c[i], c[j])
    {
      if i < |a| <= j {
        assert ComesBefore(a[i], b[j - |a|]);
      } else if j < |a| {
        assert ComesBefore(a[i], a[j]);
      } else {
        assert ComesBefore(b[i - |a|], b[j - |a|]);
      }
    }
  }

  lemma {:induction false} FilesAre(d: Path, ns: seq<Name>, contents: Path -> seq<byte>)
    ensures |FilesOf(d, ns, contents)| == |ns|
    ensures forall i :: 0 <= i < |ns| ==> FilesOf(d, ns, contents)[i] == FileItem(d, ns[i], contents(d + [ns[i]]))
  {
    if ns != [] { FilesAre(d, ns[..|ns| - 1], contents); }
  }

  lemma FilesOrdered(d: Path, ns: seq<Name>, contents: Path -> seq<byte>)
    requires AscendingNames(ns)
    ensures InItemOrder(FilesOf(d, ns, contents))
  {
    hide NameLess;
    FilesAre(d, ns, contents);
  }

  ghost predicate LiesIn(items: seq<Item>, ds: seq<Path>)
  {
    forall i :: 0 <= i < |items| ==> DirOf(items[i]) in ds
  }

  /** The directory and its files, in order. */
  lemma GroupOrdered(d: Path, ns: seq<Name>, contents: Path -> seq<byte>)
    requires AscendingNames(ns)
    ensures var g := (if d == [] then [] else [DirItem(d)]) + FilesOf(d, ns, contents);
            InItemOrder(g) && forall i :: 0 <= i < |g| ==> DirOf(g[i]) == d
  {
    hide NameLess, PathLess;
    FilesAre(d, ns, contents);
    FilesOrdered(d, ns, contents);
    JoinOrdered(if d == [] then [] else [DirItem(d)], FilesOf(d, ns, contents));
  }

  /** The directory of number k and its files. */
  function Group(ds: seq<Path>, ns: seq<seq<Name>>, contents: Path -> seq<byte>, k: nat): seq<Item>
    requires k < |ds| == |ns|
  {
    (if ds[k] == [] then [] else [DirItem(ds[k])]) + FilesOf(ds[k], ns[k], contents)
  }

  lemma LastGroup(ds: seq<Path>, ns: seq<seq<Name>>, contents: Path -> seq<byte>, k: nat)
    requires |ds| == |ns| == k + 1
    ensures ItemsOf(ds, ns, contents) == ItemsOf(ds[..k], ns[..k], contents) + Group(ds, ns, contents, k)
  {
    hide FilesOf;
  }

  lemma {:induction false} ItemsOrdered(ds: seq<Path>, ns: seq<seq<Name>>, contents: Path -> seq<byte>)
    requires |ds| == |ns| && Ascending(ds) && forall k :: 0 <= k < |ns| ==> AscendingNames(ns[k])
    ensures InItemOrder(ItemsOf(ds, ns, contents)) && LiesIn(ItemsOf(ds, ns, contents), ds)
  {
    hide PathLess, AscendingNames, ItemsOf, Group, InItemOrder, ComesBefore, DirOf;
    if ds == [] {
      NoItems(contents);
    } else {
      var k := |ds| - 1;
      ItemsOrdered(ds[..k], ns[..k], contents);
      LastGroup(ds, ns, contents, k);
      LastOrdered(ds, ns, contents, k);
    }
  }

  lemma LastOrdered(ds: seq<Path>, ns: seq<seq<Name>>, contents: Path -> seq<byte>, k: nat)
    requires |ds| == |ns| == k + 1 && Ascending(ds) && AscendingNames(ns[k])
    requires var front := ItemsOf(ds[..k], ns[..k], contents); InItemOrder(front) && LiesIn(front, ds[..k])
    ensures var all := ItemsOf(ds[..k], ns[..k], contents) + Group(ds, ns, contents, k);
            InItemOrder(all) && LiesIn(all, ds)
  {
    hide PathLess, Ascending, AscendingNames, ItemsOf, FilesOf, InItemOrder, ComesBefore, DirOf;
    var front, g := ItemsOf(ds[..k], ns[..k], contents), Group(ds, ns, contents, k);
    GroupOrdered(ds[k], ns[k], contents);
    forall i, j | 0 <= i < |front| && 0 <= j < |g|
      ensures ComesBefore(front[i], g[j])
    {
      EarlierDir(ds, front[i], g[j]);
    }
    JoinOrdered(front, g);
  }

  lemma NoItems(contents: Path -> seq<byte>)
    ensures InItemOrder(ItemsOf([], [], contents)) && LiesIn(ItemsOf([], [], contents), [])
  {
  }

  lemma EarlierDir(ds: seq<Path>, a: Item, b: Item)
    requires ds != [] && Ascending(ds) && DirOf(a) in ds[..|ds| - 1] && DirOf(b) == ds[|ds| - 1]
    ensures ComesBefore(a, b)
  {
    hide PathLess;
    var i :| 0 <= i < |ds| - 1 && ds[i] == DirOf(a);
  }

  /** Whatever paths were named, the items stand in the order of their directories, each directory in front of its
      files, the files in the order of their names. */
  lemma ArchiveOrdered(all: set<Path>, fs: FileSystem, tree: map<Path, set<Name>>,
                       ds: seq<Path>, ns: seq<seq<Name>>, contents: Path -> seq<byte>)
    requires Groups(tree, all, fs) && ListsKeys(ds, tree.Keys) && |ns| == |ds|
    requires forall k :: 0 <= k < |ds| ==> ListsNames(ns[k], tree[ds[k]])
    ensures forall i, j :: 0 <= i < j < |ItemsOf(ds, ns, contents)| ==>
              ComesBefore(ItemsOf(ds, ns, contents)[i], ItemsOf(ds, ns, contents)[j])
  {
    hide PathLess, NameLess, ItemsOf, ComesBefore;
    forall k | 0 <= k < |ns|
      ensures AscendingNames(ns[k])
    {
      assert ListsNames(ns[k], tree[ds[k]]);
    }
    ItemsOrdered(ds, ns, contents);
  }
}
