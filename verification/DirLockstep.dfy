/** Writer and reader of an archive each keep a directory tree; only parent indices pass between them. */
module DirLockstep {
  import opened Bytes
  import opened DirPaths
  import opened Directories
  import opened DirTree

  /** What the archive stores for a directory. */
  datatype Link = Link(parent: nat, name: Name)

  function EmptyTree(): seq<Dir> { [Dir(ROOT, [])] }

  /** The link of the directory just added. */
  function LinkOf(a: Added): Link
    requires a.at < |a.dirs|
  {
    Link(a.dirs[a.at].parent, a.dirs[a.at].name)
  }

  /** The writer adds a path; it refuses one already present. */
  function WriterStep(ds: seq<Dir>, path: seq<Name>): (r: Option<Added>)
    requires |ds| > 0
    ensures r.Some? ==> r.value.at < |r.value.dirs| && |r.value.dirs| > 0
  {
    if Lookup(ds, ROOT, path).Some? then None else Some(Insert(ds, ROOT, path))
  }

  /** The reader adds a link; it refuses an unknown parent and an empty name. */
  function ReaderStep(ds: seq<Dir>, link: Link): (r: Option<Added>)
    ensures r.Some? ==> r.value.at < |r.value.dirs| && |r.value.dirs| > 0
  {
    if link.name == [] || link.parent >= |ds| then None else Some(Insert(ds, link.parent, Parts(link.name)))
  }

  function WriterRun(paths: seq<seq<Name>>): (r: Option<seq<Dir>>)
    ensures r.Some? ==> |r.value| > 0
  {
    if paths == [] then Some(EmptyTree())
    else
      match WriterRun(paths[..|paths| - 1])
      case None => None
      case Some(ds) =>
        match WriterStep(ds, paths[|paths| - 1])
        case None => None
        case Some(a) => Some(a.dirs)
  }

  /** The links the writer emits. */
  function Links(paths: seq<seq<Name>>): (links: seq<Link>)
    requires WriterRun(paths).Some?
    ensures |links| == |paths|
  {
    if paths == [] then []
    else
      var front, last := paths[..|paths| - 1], paths[|paths| - 1];
      Links(front) + [LinkOf(WriterStep(WriterRun(front).value, last).value)]
  }

  function ReaderRun(links: seq<Link>): (r: Option<seq<Dir>>)
    ensures r.Some? ==> |r.value| > 0
  {
    if links == [] then Some(EmptyTree())
    else
      match ReaderRun(links[..|links| - 1])
      case None => None
      case Some(ds) =>
        match ReaderStep(ds, links[|links| - 1])
        case None => None
        case Some(a) => Some(a.dirs)
  }

  // ----- one step ------------------------------------------------------------------------------------------------

  lemma {:induction false} InsertBelow(ds: seq<Dir>, p: nat, parts: seq<Name>)
    requires IsTree(ds) && p < |ds| && NoneEmpty(parts)
    ensures p <= Insert(ds, p, parts).at
    decreases |parts|
  {
    hide AddChild, IsTree;
    if parts != [] {
      AddChildIsTree(ds, p, parts[0]);
      var step := AddChild(ds, p, parts[0]);
      TreeParent(step.dirs, step.at);
      InsertBelow(step.dirs, step.at, parts[1..]);
    }
  }

  /** A path not present ends in a new directory. */
  lemma {:induction false} InsertNew(ds: seq<Dir>, p: nat, parts: seq<Name>)
    requires IsTree(ds) && p < |ds| && NoneEmpty(parts) && Lookup(ds, p, parts) == None
    ensures Insert(ds, p, parts).at >= |ds|
    decreases |parts|
  {
    hide ChildNamed, IsTree;
    AddChildIsTree(ds, p, parts[0]);
    var step := AddChild(ds, p, parts[0]);
    if ChildNamed(ds, p, parts[0]).Some? {
      InsertNew(ds, step.at, parts[1..]);
    } else {
      InsertBelow(step.dirs, step.at, parts[1..]);
    }
  }

  lemma NameIsOnePart(name: Name)
    requires IsName(name)
    ensures Parts(name) == [name]
  {
    TokensFirst(name, []);
    assert name + [] == name;
  }

  function Parent(path: seq<Name>): (p: seq<Name>)
    requires path != []
  {
    path[..|path| - 1]
  }

  /** With equal trees the reader follows the writer exactly when the path's parent is already there;
      then both end with the same tree and give the directory the same index. */
  lemma StepIff(ds: seq<Dir>, path: seq<Name>)
    requires IsTree(ds) && path != [] && AreNames(path) && WriterStep(ds, path).Some?
    ensures var w := WriterStep(ds, path).value;
            && (ReaderStep(ds, LinkOf(w)).Some? <==> Lookup(ds, ROOT, Parent(path)).Some?)
            && (ReaderStep(ds, LinkOf(w)).Some? ==> ReaderStep(ds, LinkOf(w)).value == w && w.at == |ds|)
  {
    hide IsTree, Insert, Lookup, ChildNamed, Parts;
    var front, name := Parent(path), path[|path| - 1];
    assert path == front + [name];
    TreeHasRoot(ds);
    InsertAppend(ds, ROOT, front, [name]);
    var mid := Insert(ds, ROOT, front);
    InsertOne(mid.dirs, mid.at, name);
    LookupAppend(ds, ROOT, front, [name]);
    InsertPresent(ds, ROOT, front);
    NameIsOnePart(name);
    if Lookup(ds, ROOT, front).Some? {
      var q := Lookup(ds, ROOT, front).value;
      LookupOne(ds, q, name);
      InsertOne(ds, q, name);
    } else {
      FrontNames(path);
      InsertNew(ds, ROOT, front);
    }
  }

  lemma FrontNames(path: seq<Name>)
    requires path != [] && AreNames(path)
    ensures NoneEmpty(Parent(path)) && AreNames(Parent(path))
  {
    assert forall i :: 0 <= i < |path| - 1 ==> Parent(path)[i] == path[i];
  }

  // ----- whole runs ----------------------------------------------------------------------------------------------

  predicate ArePaths(paths: seq<seq<Name>>)
  {
    forall k :: 0 <= k < |paths| ==> paths[k] != [] && AreNames(paths[k])
  }

  /** Every path's parent is the root or stands earlier in the list. */
  predicate ParentsFirst(paths: seq<seq<Name>>)
  {
    forall k :: 0 <= k < |paths| ==> paths[k] != [] && Present(paths[..k], Parent(paths[k]))
  }

  predicate Present(paths: seq<seq<Name>>, path: seq<Name>)
  {
    path == [] || path in paths
  }

  predicate Distinct(paths: seq<seq<Name>>)
  {
    forall i, j :: 0 <= i < j < |paths| ==> paths[i] != paths[j]
  }

  /** Directory k + 1 is the k-th path. */
  predicate Mirrors(ds: seq<Dir>, paths: seq<seq<Name>>)
  {
    IsTree(ds) && |ds| == |paths| + 1 && forall k :: 0 <= k < |paths| ==> PathAt(ds, k + 1, paths[k])
  }

  predicate PathAt(ds: seq<Dir>, i: nat, path: seq<Name>)
    requires IsTree(ds)
  {
    i < |ds| && PathOf(ds, i) == path
  }

  /** In a tree that mirrors a list of paths, lookup finds exactly those paths, and the root. */
  lemma FoundIff(ds: seq<Dir>, paths: seq<seq<Name>>, path: seq<Name>)
    requires Mirrors(ds, paths)
    ensures Lookup(ds, ROOT, path).Some? <==> Present(paths, path)
  {
    hide Lookup, IsTree;
    TreeHasRoot(ds);
    if Lookup(ds, ROOT, path).Some? {
      LookupSound(ds, ROOT, path);
      var i := Lookup(ds, ROOT, path).value;
      assert PathOf(ds, ROOT) + path == path;
      if i > 0 {
        ghost var k: nat := i - 1;
        assert PathAt(ds, k + 1, paths[k]);
      }
    }
    if path == [] {
      LookupPath(ds, ROOT);
    } else if path in paths {
      ghost var k: nat :| k < |paths| && paths[k] == path;
      assert PathAt(ds, k + 1, paths[k]);
      LookupPath(ds, k + 1);
    }
  }

  lemma TreeHasRoot(ds: seq<Dir>)
    requires IsTree(ds)
    ensures |ds| > 0
  {
  }

  lemma MirrorsMore(ds: seq<Dir>, paths: seq<seq<Name>>, path: seq<Name>)
    requires Mirrors(ds, paths) && path != [] && AreNames(path) && WriterStep(ds, path).Some?
    requires Lookup(ds, ROOT, Parent(path)).Some?
    ensures Mirrors(WriterStep(ds, path).value.dirs, paths + [path])
  {
    hide IsTree, Insert, Lookup, PathOf, LinkOf;
    var w := WriterStep(ds, path).value;
    OneMore(ds, path);
    InsertPath(ds, ROOT, path);
    PathOfRoot(ds);
    assert PathAt(w.dirs, |ds|, path);
    forall k: nat | k < |paths| ensures PathAt(w.dirs, k + 1, paths[k]) {
      assert PathAt(ds, k + 1, paths[k]);
      PathKept(ds, w.dirs, k + 1);
    }
  }

  lemma PathOfRoot(ds: seq<Dir>)
    requires IsTree(ds)
    ensures |ds| > 0 && forall path: seq<Name> :: PathOf(ds, ROOT) + path == path
  {
  }

  lemma OneMore(ds: seq<Dir>, path: seq<Name>)
    requires IsTree(ds) && path != [] && AreNames(path) && WriterStep(ds, path).Some?
    requires Lookup(ds, ROOT, Parent(path)).Some?
    ensures |WriterStep(ds, path).value.dirs| == |ds| + 1 && WriterStep(ds, path).value.at == |ds|
  {
    hide IsTree, Insert, Lookup;
    var front, name := Parent(path), path[|path| - 1];
    assert path == front + [name];
    StepIff(ds, path);
    InsertAppend(ds, ROOT, front, [name]);
    InsertPresent(ds, ROOT, front);
    InsertOne(ds, Lookup(ds, ROOT, front).value, name);
  }

  lemma EmptyMirrors()
    ensures Mirrors(EmptyTree(), [])
  {
  }

  /** For paths in which parents come first: the writer succeeds exactly when no path repeats; then the
      reader rebuilds the same tree, and both number the k-th path k + 1. */
  lemma {:induction false} Lockstep(paths: seq<seq<Name>>)
    requires ArePaths(paths) && ParentsFirst(paths)
    ensures WriterRun(paths).Some? <==> Distinct(paths)
    ensures WriterRun(paths).Some? ==>
              Mirrors(WriterRun(paths).value, paths) && ReaderRun(Links(paths)) == WriterRun(paths)
  {
    hide *;
    RunsStart();
    if paths == [] {
      EmptyMirrors();
    } else {
      var front, last := paths[..|paths| - 1], paths[|paths| - 1];
      assert paths == front + [last];
      FrontOrdered(front, last);
      Lockstep(front);
      DistinctSnoc(front, last);
      RunsSnoc(front, last);
      if WriterRun(front).Some? {
        var ds := WriterRun(front).value;
        MirrorsTree(ds, front);
        FoundIff(ds, front, last);
        FoundIff(ds, front, Parent(last));
        StepUnfold(ds, front, last);
        if WriterStep(ds, last).Some? {
          StepIff(ds, last);
          MirrorsMore(ds, front, last);
        }
      }
    }
  }

  lemma RunsStart()
    ensures WriterRun([]) == ReaderRun([]) == Some(EmptyTree())
    ensures Links([]) == [] && Distinct([])
  {
  }

  lemma FrontOrdered(front: seq<seq<Name>>, last: seq<Name>)
    requires ArePaths(front + [last]) && ParentsFirst(front + [last])
    ensures ArePaths(front) && ParentsFirst(front)
    ensures last != [] && AreNames(last) && Present(front, Parent(last))
  {
    var all := front + [last];
    forall k | 0 <= k < |front|
      ensures front[k] != [] && AreNames(front[k]) && Present(front[..k], Parent(front[k]))
    {
      assert all[..k] == front[..k] && all[k] == front[k];
    }
    assert all[..|front|] == front && all[|front|] == last;
  }

  /** The runs over one more path. */
  lemma RunsSnoc(front: seq<seq<Name>>, last: seq<Name>)
    ensures WriterRun(front) == None ==> WriterRun(front + [last]) == None
    ensures WriterRun(front).Some? ==>
              WriterRun(front + [last]) == (match WriterStep(WriterRun(front).value, last)
                                            case None => None case Some(a) => Some(a.dirs))
    ensures WriterRun(front + [last]).Some? ==>
              WriterRun(front).Some?
              && Links(front + [last]) == Links(front) + [LinkOf(WriterStep(WriterRun(front).value, last).value)]
              && ReaderRun(Links(front + [last])) ==
                 match ReaderRun(Links(front))
                 case None => None
                 case Some(ds) => (match ReaderStep(ds, LinkOf(WriterStep(WriterRun(front).value, last).value))
                                   case None => None case Some(a) => Some(a.dirs))
  {
    hide WriterStep, ReaderStep, LinkOf;
    var all := front + [last];
    assert all[..|all| - 1] == front && all[|all| - 1] == last;
    if WriterRun(all).Some? {
      assert Links(all)[..|all| - 1] == Links(front);
    }
  }

  lemma MirrorsTree(ds: seq<Dir>, paths: seq<seq<Name>>)
    requires Mirrors(ds, paths)
    ensures IsTree(ds) && |ds| > 0
  {
  }

  lemma StepUnfold(ds: seq<Dir>, paths: seq<seq<Name>>, path: seq<Name>)
    requires |ds| > 0 && path != []
    ensures WriterStep(ds, path).Some? <==> Lookup(ds, ROOT, path) == None
    ensures Present(paths, path) <==> path in paths
  {
  }

  lemma DistinctSnoc(front: seq<seq<Name>>, last: seq<Name>)
    ensures Distinct(front + [last]) <==> Distinct(front) && last !in front
  {
    var all := front + [last];
    if Distinct(all) {
      forall i, j | 0 <= i < j < |front| ensures front[i] != front[j] {
        assert all[i] != all[j];
      }
      forall i | 0 <= i < |front| ensures front[i] != last {
        assert all[i] != all[|front|];
      }
    }
  }

  /** Conversely, when the reader can follow the writer at all, parents came first. */
  lemma {:induction false} ParentsNeeded(paths: seq<seq<Name>>)
    requires ArePaths(paths) && WriterRun(paths).Some? && ReaderRun(Links(paths)).Some?
    ensures ParentsFirst(paths)
  {
    hide *;
    if paths == [] {
      NoPaths();
    } else {
      var front, last := paths[..|paths| - 1], paths[|paths| - 1];
      assert paths == front + [last];
      FrontPaths(front, last);
      RunsSnoc(front, last);
      ParentsNeeded(front);
      Lockstep(front);
      var ds := WriterRun(front).value;
      MirrorsTree(ds, front);
      StepIff(ds, last);
      FoundIff(ds, front, Parent(last));
      OrderedSnoc(front, last);
    }
  }

  lemma NoPaths()
    ensures ParentsFirst([])
  {
  }

  lemma FrontPaths(front: seq<seq<Name>>, last: seq<Name>)
    requires ArePaths(front + [last])
    ensures ArePaths(front) && last != [] && AreNames(last)
  {
    var all := front + [last];
    assert all[|front|] == last && forall k :: 0 <= k < |front| ==> all[k] == front[k];
  }

  lemma OrderedSnoc(front: seq<seq<Name>>, last: seq<Name>)
    requires ParentsFirst(front) && last != [] && Present(front, Parent(last))
    ensures ParentsFirst(front + [last])
  {
    var all := front + [last];
    forall k | 0 <= k < |all|
      ensures all[k] != [] && Present(all[..k], Parent(all[k]))
    {
      assert all[..k] == front[..k];
    }
  }
}
