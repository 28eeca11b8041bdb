/** The directory tree as a list of (parent index, name), in the order the directories were added. */
module Directories {
  import opened Bytes
  import opened DirPaths

  datatype Dir = Dir(parent: nat, name: Name)

  const ROOT: nat := 0

  predicate NoneEmpty(parts: seq<Name>)
  {
    forall i :: 0 <= i < |parts| ==> parts[i] != []
  }

  /** Parents come before their children, siblings have different names. */
  predicate IsTree(ds: seq<Dir>)
  {
    && |ds| > 0 && ds[ROOT] == Dir(ROOT, [])
    && (forall i :: 1 <= i < |ds| ==> ds[i].parent < i && ds[i].name != [])
    && (forall i, j :: 1 <= i < j < |ds| && ds[i].parent == ds[j].parent ==> ds[i].name != ds[j].name)
  }

  predicate IsChild(ds: seq<Dir>, p: nat, i: nat)
  {
    1 <= i < |ds| && ds[i].parent == p
  }

  /** The first child of p at or after index k; |ds| if there is none. */
  function ChildFrom(ds: seq<Dir>, p: nat, k: nat): (c: nat)
    requires k <= |ds|
    ensures k <= c <= |ds| && (c < |ds| ==> IsChild(ds, p, c))
    ensures forall i :: k <= i < c ==> !IsChild(ds, p, i)
    decreases |ds| - k
  {
    if k == |ds| || IsChild(ds, p, k) then k else ChildFrom(ds, p, k + 1)
  }

  predicate IsChildNamed(ds: seq<Dir>, p: nat, name: Name, i: nat)
  {
    IsChild(ds, p, i) && ds[i].name == name
  }

  /** The child of p with that name, if any; names are unique, so it is the only one. */
  function ChildNamed(ds: seq<Dir>, p: nat, name: Name): (r: Option<nat>)
    ensures r.Some? ==> IsChildNamed(ds, p, name, r.value)
    ensures r == None ==> forall i: nat :: !IsChildNamed(ds, p, name, i)
    ensures r.Some? && IsTree(ds) ==> forall i: nat :: IsChildNamed(ds, p, name, i) ==> i == r.value
  {
    ChildNamedBelow(ds, p, name, |ds|)
  }

  function ChildNamedBelow(ds: seq<Dir>, p: nat, name: Name, n: nat): (r: Option<nat>)
    requires n <= |ds|
    ensures r.Some? ==> r.value < n && IsChildNamed(ds, p, name, r.value)
    ensures r == None ==> forall i: nat :: i < n ==> !IsChildNamed(ds, p, name, i)
  {
    if n == 0 then None
    else if IsChildNamed(ds, p, name, n - 1) then Some(n - 1)
    else ChildNamedBelow(ds, p, name, n - 1)
  }

  /** The outcome of adding: the tree, and the index of the directory asked for. */
  datatype Added = Added(dirs: seq<Dir>, at: nat)

  /** A child of p with that name: the present one, or a new one at the end. */
  function AddChild(ds: seq<Dir>, p: nat, name: Name): (r: Added)
    requires p < |ds|
    ensures r.at < |r.dirs| && ds <= r.dirs && IsChildNamed(r.dirs, p, name, r.at)
  {
    match ChildNamed(ds, p, name)
    case Some(i) => Added(ds, i)
    case None => Added(ds + [Dir(p, name)], |ds|)
  }

  /** Adds a path of components below p. */
  function Insert(ds: seq<Dir>, p: nat, parts: seq<Name>): (r: Added)
    requires p < |ds|
    ensures r.at < |r.dirs| && ds <= r.dirs
    decreases |parts|
  {
    if parts == [] then Added(ds, p)
    else
      var step := AddChild(ds, p, parts[0]);
      Insert(step.dirs, step.at, parts[1..])
  }

  /** The directory found by following names below p. */
  function Lookup(ds: seq<Dir>, p: nat, parts: seq<Name>): (r: Option<nat>)
    requires p < |ds|
    ensures r.Some? ==> r.value < |ds|
    decreases |parts|
  {
    if parts == [] then Some(p)
    else
      match ChildNamed(ds, p, parts[0])
      case None => None
      case Some(c) => Lookup(ds, c, parts[1..])
  }

  /** The names from the root down to directory i. */
  function PathOf(ds: seq<Dir>, i: nat): (parts: seq<Name>)
    requires IsTree(ds) && i < |ds|
  {
    if i == ROOT then [] else PathOf(ds, ds[i].parent) + [ds[i].name]
  }

  // ----- the invariant over all runs -----------------------------------------------------------------------------

  lemma AddChildIsTree(ds: seq<Dir>, p: nat, name: Name)
    requires IsTree(ds) && p < |ds| && name != []
    ensures IsTree(AddChild(ds, p, name).dirs)
  {
    if ChildNamed(ds, p, name) == None {
      var ds' := ds + [Dir(p, name)];
      forall i, j | 1 <= i < j < |ds'| && ds'[i].parent == ds'[j].parent
        ensures ds'[i].name != ds'[j].name
      {
        if j == |ds| { assert !IsChildNamed(ds, p, name, i); }
      }
    }
  }

  lemma {:induction false} InsertIsTree(ds: seq<Dir>, p: nat, parts: seq<Name>)
    requires IsTree(ds) && p < |ds| && NoneEmpty(parts)
    ensures IsTree(Insert(ds, p, parts).dirs)
    decreases |parts|
  {
    hide IsTree, AddChild;
    if parts != [] {
      AddChildIsTree(ds, p, parts[0]);
      var step := AddChild(ds, p, parts[0]);
      InsertIsTree(step.dirs, step.at, parts[1..]);
    }
  }

  /** Paths do not change when the tree grows. */
  lemma {:induction false} PathKept(ds: seq<Dir>, more: seq<Dir>, i: nat)
    requires IsTree(ds) && IsTree(more) && ds <= more && i < |ds|
    ensures PathOf(more, i) == PathOf(ds, i)
  {
    if i != ROOT { PathKept(ds, more, ds[i].parent); }
  }

  /** The directory returned has the path asked for. */
  lemma {:induction false} InsertPath(ds: seq<Dir>, p: nat, parts: seq<Name>)
    requires IsTree(ds) && p < |ds| && NoneEmpty(parts)
    ensures IsTree(Insert(ds, p, parts).dirs)
    ensures PathOf(Insert(ds, p, parts).dirs, Insert(ds, p, parts).at) == PathOf(ds, p) + parts
    decreases |parts|
  {
    hide AddChild, IsTree;
    if parts == [] {
      assert PathOf(ds, p) + [] == PathOf(ds, p);
    } else {
      var step := AddChild(ds, p, parts[0]);
      AddChildIsTree(ds, p, parts[0]);
      ChildPath(step.dirs, p, parts[0], step.at);
      PathKept(ds, step.dirs, p);
      InsertPath(step.dirs, step.at, parts[1..]);
      assert PathOf(ds, p) + [parts[0]] + parts[1..] == PathOf(ds, p) + parts;
    }
  }

  lemma ChildPath(ds: seq<Dir>, p: nat, name: Name, c: nat)
    requires IsTree(ds) && IsChildNamed(ds, p, name, c) && p < |ds|
    ensures PathOf(ds, c) == PathOf(ds, p) + [name]
  {
  }

  // ----- what lookup finds ---------------------------------------------------------------------------------------

  /** A path leads to at most one directory, and looking up a directory's own path finds it. */
  lemma {:induction false} LookupPath(ds: seq<Dir>, i: nat)
    requires IsTree(ds) && i < |ds|
    ensures Lookup(ds, ROOT, PathOf(ds, i)) == Some(i)
  {
    hide IsTree;
    if i != ROOT {
      TreeParent(ds, i);
      var q := ds[i].parent;
      LookupPath(ds, q);
      LookupAppend(ds, ROOT, PathOf(ds, q), [ds[i].name]);
      assert IsChildNamed(ds, q, ds[i].name, i);
      LookupOne(ds, q, ds[i].name);
    }
  }

  lemma TreeParent(ds: seq<Dir>, i: nat)
    requires IsTree(ds) && 1 <= i < |ds|
    ensures ds[i].parent < i
  {
  }

  lemma LookupOne(ds: seq<Dir>, p: nat, name: Name)
    requires p < |ds|
    ensures Lookup(ds, p, [name]) == ChildNamed(ds, p, name)
  {
    var parts := [name];
    assert parts[1..] == [];
    if ChildNamed(ds, p, name).Some? {
      assert Lookup(ds, ChildNamed(ds, p, name).value, []) == ChildNamed(ds, p, name);
    }
  }

  lemma {:induction false} LookupAppend(ds: seq<Dir>, p: nat, a: seq<Name>, b: seq<Name>)
    requires p < |ds|
    ensures Lookup(ds, p, a + b) ==
            if Lookup(ds, p, a).Some? then Lookup(ds, Lookup(ds, p, a).value, b) else None
    decreases |a|
  {
    hide ChildNamed;
    if a == [] {
      assert a + b == b;
    } else {
      assert (a + b)[1..] == a[1..] + b;
      if ChildNamed(ds, p, a[0]).Some? {
        LookupAppend(ds, ChildNamed(ds, p, a[0]).value, a[1..], b);
      }
    }
  }

  /** What lookup finds has the path looked up. */
  lemma {:induction false} LookupSound(ds: seq<Dir>, p: nat, parts: seq<Name>)
    requires IsTree(ds) && p < |ds| && Lookup(ds, p, parts).Some?
    ensures PathOf(ds, Lookup(ds, p, parts).value) == PathOf(ds, p) + parts
    decreases |parts|
  {
    hide IsTree;
    if parts == [] {
      assert PathOf(ds, p) + [] == PathOf(ds, p);
    } else {
      var c := ChildNamed(ds, p, parts[0]).value;
      ChildPath(ds, p, parts[0], c);
      LookupSound(ds, c, parts[1..]);
      assert PathOf(ds, p) + [parts[0]] + parts[1..] == PathOf(ds, p) + parts;
    }
  }

  /** Inserting a path already present changes nothing; any other path makes the tree grow. */
  lemma {:induction false} InsertPresent(ds: seq<Dir>, p: nat, parts: seq<Name>)
    requires p < |ds|
    ensures Lookup(ds, p, parts).Some? ==> Insert(ds, p, parts) == Added(ds, Lookup(ds, p, parts).value)
    ensures Lookup(ds, p, parts) == None ==> |Insert(ds, p, parts).dirs| > |ds|
    decreases |parts|
  {
    hide ChildNamed;
    if parts != [] && ChildNamed(ds, p, parts[0]).Some? {
      InsertPresent(ds, ChildNamed(ds, p, parts[0]).value, parts[1..]);
    }
  }

  /** Inserting in two parts. */
  lemma {:induction false} InsertAppend(ds: seq<Dir>, p: nat, a: seq<Name>, b: seq<Name>)
    requires p < |ds|
    ensures Insert(ds, p, a + b) == Insert(Insert(ds, p, a).dirs, Insert(ds, p, a).at, b)
    decreases |a|
  {
    hide AddChild;
    if a == [] {
      assert a + b == b;
    } else {
      assert (a + b)[1..] == a[1..] + b;
      var step := AddChild(ds, p, a[0]);
      InsertAppend(step.dirs, step.at, a[1..], b);
    }
  }

  lemma InsertOne(ds: seq<Dir>, p: nat, name: Name)
    requires p < |ds|
    ensures Insert(ds, p, [name]) == AddChild(ds, p, name)
  {
    var step := AddChild(ds, p, name);
    assert [name][1..] == [];
    assert Insert(step.dirs, step.at, []) == step;
  }
}
