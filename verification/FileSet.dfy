/** From the paths named on the command line to the items of an archive, in the order they are written. */
module FileSet {
  import opened DirPaths

  type Path = seq<Name>

  /** The current directory, ".". */
  const CURRENT: Path := [[46]]

  /** What the file system says about a path. */
  datatype Kind = Missing | IsDir | IsFile

  type FileSystem = Path -> Kind

  /** Only directories have something inside; the empty path names nothing. */
  ghost predicate Consistent(fs: FileSystem)
  {
    fs([]) == Missing && forall p, q :: Within(q, p) && fs(p) != Missing ==> fs(q) == IsDir
  }

  /** q is a proper prefix of p, and not empty. */
  predicate Within(q: Path, p: Path) { q != [] && q < p }

  /** q is made of components of p, from the first on. */
  predicate Prefix(q: Path, p: Path) { q != [] && q <= p }

  // ----- prefix closure ------------------------------------------------------------------------------------------

  /** q is one of the files, or a directory above one. */
  ghost predicate InClosure(q: Path, files: set<Path>)
  {
    exists f :: f in files && f != CURRENT && Prefix(q, f)
  }

  /** Naming ".", the current directory, adds nothing and is never looked for. */
  lemma CurrentIgnored(files: set<Path>, fs: FileSystem)
    ensures forall q :: InClosure(q, files) <==> InClosure(q, files - {[[46]]})
    ensures AllExist(files, fs) <==> AllExist(files - {[[46]]}, fs)
  {
  }

  ghost predicate AllExist(files: set<Path>, fs: FileSystem)
  {
    forall f :: f in files && f != CURRENT ==> fs(f) != Missing
  }

  /** Adds to the set every directory on the way to a file; false when a path does not exist or there are
      too many. */
  method AddDirs(files: set<Path>, fs: FileSystem) returns (ok: bool, all: set<Path>)
    ensures ok ==> AllExist(files, fs) && |all| <= 0xFFFF_FFFF
    ensures AllExist(files, fs) ==> (forall q :: q in all <==> InClosure(q, files)) && (ok <==> |all| <= 0xFFFF_FFFF)
  {
    var list := files;
    all := {};
    while list != {}
      invariant list <= files && AllExist(files - list, fs)
      invariant forall q :: q in all <==> InClosure(q, files - list)
      decreases |list|
    {
      var f :| f in list;
      ghost var done := files - list;
      list := list - {f};
      assert files - list == done + {f};
      if f != CURRENT {
        if fs(f) == Missing {
          return false, all;
        }
        ghost var before := all;
        for k := 0 to |f|
          invariant forall q :: q in all <==> q in before || Prefix(q, f[..k])
        {
          PrefixStep(f, k);
          all := all + {f[..k + 1]};
        }
        assert f[..|f|] == f;
      }
      OneMoreFile(done, f);
    }
    assert files - list == files;
    ok := |all| <= 0xFFFF_FFFF;
  }

  lemma PrefixStep(f: Path, k: nat)
    requires k < |f|
    ensures forall q :: Prefix(q, f[..k + 1]) <==> q == f[..k + 1] || Prefix(q, f[..k])
  {
    var longer, shorter := f[..k + 1], f[..k];
    forall q
      ensures Prefix(q, longer) <==> q == longer || Prefix(q, shorter)
    {
      if Prefix(q, longer) && |q| <= k { assert q == longer[..|q|] == shorter[..|q|]; }
      if Prefix(q, shorter) { assert q == shorter[..|q|] == longer[..|q|]; }
    }
  }

  lemma OneMoreFile(done: set<Path>, f: Path)
    ensures forall q :: InClosure(q, done + {f}) <==> InClosure(q, done) || (f != CURRENT && Prefix(q, f))
  {
  }

  // ----- grouping by directory -----------------------------------------------------------------------------------

  /** A key of the tree: a directory of the set, or the directory a file of the set lies in. */
  ghost predicate IsKey(d: Path, all: set<Path>, fs: FileSystem)
  {
    (d in all && fs(d) == IsDir) || exists n :: IsFileIn(d, n, all, fs)
  }

  predicate IsFileIn(d: Path, n: Name, all: set<Path>, fs: FileSystem)
  {
    d + [n] in all && fs(d + [n]) == IsFile
  }

  /** tree groups the set: every directory is a key, every file stands under its directory. */
  ghost predicate Groups(tree: map<Path, set<Name>>, all: set<Path>, fs: FileSystem)
  {
    && (forall d :: d in tree <==> IsKey(d, all, fs))
    && forall d, n :: d in tree ==> (n in tree[d] <==> IsFileIn(d, n, all, fs))
  }

  method MakeTree(all: set<Path>, fs: FileSystem) returns (ok: bool, tree: map<Path, set<Name>>, size: nat)
    requires fs([]) == Missing
    ensures ok <==> forall f :: f in all ==> fs(f) != Missing
    ensures ok ==> Groups(tree, all, fs) && size == |all|
  {
    hide Groups;
    var list := all;
    tree, size := map[], 0;
    NoGroups(fs);
    assert all - list == {};
    while list != {}
      invariant list <= all && forall f :: f in all - list ==> fs(f) != Missing
      invariant Groups(tree, all - list, fs) && size + |list| == |all|
      decreases |list|
    {
      var f :| f in list;
      ghost var done, was := all - list, tree;
      list := list - {f};
      assert all - list == done + {f};
      if fs(f) == IsDir {
        if f !in tree {
          tree := tree[f := {}];
        }
        NewDirKey(was, done, f, fs);
      } else if fs(f) == IsFile {
        var d, n := f[..|f| - 1], f[|f| - 1];
        tree := tree[d := (if d in tree then tree[d] else {}) + {n}];
        assert f == d + [n];
        NewFile(was, done, d, n, fs);
      } else {
        return false, tree, size;
      }
      size := size + 1;
    }
    assert all - list == all;
    ok := true;
  }

  lemma NoGroups(fs: FileSystem)
    ensures Groups(map[], {}, fs)
  {
  }

  lemma NewDirKey(tree: map<Path, set<Name>>, all: set<Path>, f: Path, fs: FileSystem)
    requires Groups(tree, all, fs) && fs(f) == IsDir
    ensures Groups(if f in tree then tree else tree[f := {}], all + {f}, fs)
  {
    assert forall d, n :: IsFileIn(d, n, all + {f}, fs) <==> IsFileIn(d, n, all, fs);
  }

  lemma NewFile(tree: map<Path, set<Name>>, all: set<Path>, d: Path, n: Name, fs: FileSystem)
    requires Groups(tree, all, fs) && fs(d + [n]) == IsFile
    ensures Groups(tree[d := (if d in tree then tree[d] else {}) + {n}], all + {d + [n]}, fs)
  {
    var more := all + {d + [n]};
    forall e: Path, m: Name
      ensures IsFileIn(e, m, more, fs) <==> IsFileIn(e, m, all, fs) || (e == d && m == n)
    {
      if e + [m] == d + [n] { LastEqual(e, m, d, n); }
    }
    assert IsFileIn(d, n, more, fs);
  }

  lemma LastEqual(e: Path, m: Name, d: Path, n: Name)
    requires e + [m] == d + [n]
    ensures e == d && m == n
  {
    assert |e| == |d|;
    assert e == (e + [m])[..|e|] == (d + [n])[..|d|] == d;
    assert m == (e + [m])[|e|];
  }
}
