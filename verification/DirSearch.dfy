/** Walking the tree through first children and next siblings: what a search reaches, what a count counts. */
module DirSearch {
  import opened Bytes
  import opened Directories

  /** Index of the first child; |ds| if there is none. */
  function FirstChild(ds: seq<Dir>, i: nat): (c: nat)
    requires IsTree(ds) && i < |ds|
    ensures i < c <= |ds|
  {
    ChildFrom(ds, i, i + 1)
  }

  /** Index of the next sibling; |ds| if there is none. The root has no sibling. */
  function NextSibling(ds: seq<Dir>, i: nat): (s: nat)
    requires IsTree(ds) && i < |ds|
    ensures i < s <= |ds|
  {
    if i == ROOT then |ds| else ChildFrom(ds, ds[i].parent, i + 1)
  }

  /** Directory j is met when walking from i: i itself, what is below it, its later siblings and what is
      below them. */
  predicate Reach(ds: seq<Dir>, i: nat, j: nat)
    requires IsTree(ds) && i <= |ds|
    decreases |ds| - i
  {
    i < |ds| && (i == j || Reach(ds, FirstChild(ds, i), j) || Reach(ds, NextSibling(ds, i), j))
  }

  lemma {:induction false} ReachBounds(ds: seq<Dir>, i: nat, j: nat)
    requires IsTree(ds) && i <= |ds| && Reach(ds, i, j)
    ensures i <= j < |ds|
    decreases |ds| - i
  {
    hide IsTree, FirstChild, NextSibling;
    if i < j {
      if Reach(ds, FirstChild(ds, i), j) {
        ReachBounds(ds, FirstChild(ds, i), j);
      } else if i != j {
        ReachBounds(ds, NextSibling(ds, i), j);
      }
    } else if i > j {
      if Reach(ds, FirstChild(ds, i), j) {
        ReachBounds(ds, FirstChild(ds, i), j);
      } else {
        ReachBounds(ds, NextSibling(ds, i), j);
      }
    }
  }

  lemma {:induction false} ReachTransitive(ds: seq<Dir>, i: nat, j: nat, k: nat)
    requires IsTree(ds) && i <= |ds| && j < |ds| && Reach(ds, i, j) && Reach(ds, j, k)
    ensures Reach(ds, i, k)
    decreases |ds| - i
  {
    hide IsTree, FirstChild, NextSibling;
    if i != j {
      if Reach(ds, FirstChild(ds, i), j) {
        ReachTransitive(ds, FirstChild(ds, i), j, k);
      } else {
        ReachTransitive(ds, NextSibling(ds, i), j, k);
      }
    }
  }

  /** From one child every later child is met. */
  lemma {:induction false} ReachSibling(ds: seq<Dir>, p: nat, s: nat, c: nat)
    requires IsTree(ds) && IsChild(ds, p, s) && IsChild(ds, p, c) && s <= c
    ensures Reach(ds, s, c)
    decreases c - s
  {
    hide IsTree, FirstChild;
    if s < c {
      assert NextSibling(ds, s) <= c;
      ReachSibling(ds, p, NextSibling(ds, s), c);
    }
  }

  lemma ReachChild(ds: seq<Dir>, c: nat)
    requires IsTree(ds) && 1 <= c < |ds|
    ensures ds[c].parent < c && Reach(ds, ds[c].parent, c)
  {
    hide Reach;
    var p := ds[c].parent;
    assert IsChild(ds, p, c);
    assert FirstChild(ds, p) <= c;
    ReachSibling(ds, p, FirstChild(ds, p), c);
    ReachUnfold(ds, p, c);
  }

  lemma ReachUnfold(ds: seq<Dir>, i: nat, j: nat)
    requires IsTree(ds) && i < |ds|
    ensures Reach(ds, i, j) <==>
            i == j || Reach(ds, FirstChild(ds, i), j) || Reach(ds, NextSibling(ds, i), j)
    ensures !Reach(ds, |ds|, j)
  {
  }

  /** From the root every directory is met: a search for an index finds it exactly when it exists. */
  lemma {:induction false} RootReaches(ds: seq<Dir>, j: nat)
    requires IsTree(ds)
    ensures Reach(ds, ROOT, j) <==> j < |ds|
    decreases j
  {
    hide IsTree, FirstChild, NextSibling, Reach;
    TreeNotEmpty(ds);
    if j >= |ds| {
      if Reach(ds, ROOT, j) { ReachBounds(ds, ROOT, j); }
    } else if j == ROOT {
      ReachUnfold(ds, ROOT, ROOT);
    } else {
      ReachChild(ds, j);
      RootReaches(ds, ds[j].parent);
      ReachTransitive(ds, ROOT, ds[j].parent, j);
    }
  }

  lemma TreeNotEmpty(ds: seq<Dir>)
    requires IsTree(ds)
    ensures |ds| > 0
  {
  }

  // ----- nothing is met twice ------------------------------------------------------------------------------------

  /** Directory j is i or lies below it. */
  predicate Under(ds: seq<Dir>, i: nat, j: nat)
    requires IsTree(ds) && j < |ds|
  {
    i == j || (i < j && Under(ds, i, ds[j].parent))
  }

  lemma {:induction false} UnderTransitive(ds: seq<Dir>, i: nat, j: nat, k: nat)
    requires IsTree(ds) && j < |ds| && k < |ds| && Under(ds, i, j) && Under(ds, j, k)
    ensures Under(ds, i, k)
    decreases k
  {
    if j != k {
      UnderTransitive(ds, i, j, ds[k].parent);
      UnderBounds(ds, i, j);
    }
  }

  lemma {:induction false} UnderBounds(ds: seq<Dir>, i: nat, j: nat)
    requires IsTree(ds) && j < |ds| && Under(ds, i, j)
    ensures i <= j
  {
  }

  /** Two directories above the same one lie one below the other. */
  lemma {:induction false} AncestorsOrdered(ds: seq<Dir>, a: nat, b: nat, j: nat)
    requires IsTree(ds) && a <= b && b < |ds| && j < |ds| && Under(ds, a, j) && Under(ds, b, j)
    ensures Under(ds, a, b)
    decreases j
  {
    if b < j { AncestorsOrdered(ds, a, b, ds[j].parent); }
  }

  /** Walking from i meets only what lies below i or below a later sibling of i. */
  lemma {:induction false} ReachUnder(ds: seq<Dir>, i: nat, j: nat) returns (s: nat)
    requires IsTree(ds) && i < |ds| && Reach(ds, i, j)
    ensures i <= s < |ds| && j < |ds| && Under(ds, s, j)
    ensures s == i || (i != ROOT && IsChild(ds, ds[i].parent, s))
    decreases |ds| - i
  {
    hide Reach;
    ReachBounds(ds, i, j);
    ReachUnfold(ds, i, j);
    s := i;
    if i != j {
      if Reach(ds, FirstChild(ds, i), j) {
        ReachBounds(ds, FirstChild(ds, i), j);
        var t := ReachUnder(ds, FirstChild(ds, i), j);
        assert Under(ds, i, t);
        UnderTransitive(ds, i, t, j);
      } else {
        ReachBounds(ds, NextSibling(ds, i), j);
        s := ReachUnder(ds, NextSibling(ds, i), j);
      }
    }
  }

  lemma BelowFirst(ds: seq<Dir>, i: nat, j: nat)
    requires IsTree(ds) && i < |ds| && Reach(ds, FirstChild(ds, i), j)
    ensures i < j < |ds| && Under(ds, i, j)
  {
    hide Reach;
    ReachBounds(ds, FirstChild(ds, i), j);
    var t := ReachUnder(ds, FirstChild(ds, i), j);
    assert Under(ds, i, t);
    UnderTransitive(ds, i, t, j);
  }

  lemma SiblingNotUnder(ds: seq<Dir>, i: nat, s: nat)
    requires IsTree(ds) && 1 <= i < s < |ds| && IsChild(ds, ds[i].parent, s)
    ensures !Under(ds, i, s)
  {
    if Under(ds, i, ds[s].parent) { UnderBounds(ds, i, ds[s].parent); }
  }

  /** The walk below a directory and the walk along its siblings have nothing in common. */
  lemma WalksApart(ds: seq<Dir>, i: nat, j: nat)
    requires IsTree(ds) && i < |ds|
    ensures !(Reach(ds, FirstChild(ds, i), j) && Reach(ds, NextSibling(ds, i), j))
  {
    hide Reach;
    if Reach(ds, FirstChild(ds, i), j) && Reach(ds, NextSibling(ds, i), j) {
      BelowFirst(ds, i, j);
      ReachBounds(ds, NextSibling(ds, i), j);
      var s := ReachUnder(ds, NextSibling(ds, i), j);
      SiblingNotUnder(ds, i, s);
      AncestorsOrdered(ds, i, s, j);
    }
  }

  // ----- counting ------------------------------------------------------------------------------------------------

  function Reached(ds: seq<Dir>, i: nat): (r: set<nat>)
    requires IsTree(ds) && i <= |ds|
  {
    set j: nat | j < |ds| && Reach(ds, i, j)
  }

  /** Directories met on the walk from i, counted by taking each subtree and then the next sibling. */
  function WalkCount(ds: seq<Dir>, i: nat): nat
    requires IsTree(ds) && i <= |ds|
    decreases |ds| - i
  {
    if i == |ds| then 0 else SubtreeCount(ds, i) + WalkCount(ds, NextSibling(ds, i))
  }

  /** The directory and everything below it. */
  function SubtreeCount(ds: seq<Dir>, i: nat): nat
    requires IsTree(ds) && i < |ds|
    decreases |ds| - i, 0
  {
    WalkCount(ds, FirstChild(ds, i)) + 1
  }

  lemma {:induction false} CountIsSize(ds: seq<Dir>, i: nat)
    requires IsTree(ds) && i <= |ds|
    ensures WalkCount(ds, i) == |Reached(ds, i)|
    decreases |ds| - i
  {
    hide IsTree, FirstChild, NextSibling;
    if i == |ds| {
      assert Reached(ds, i) == {};
    } else {
      var f, s := FirstChild(ds, i), NextSibling(ds, i);
      CountIsSize(ds, f);
      CountIsSize(ds, s);
      ReachedSplit(ds, i);
    }
  }

  /** The walk from i: i itself, the walk below it, and the walk along its later siblings, nothing met twice. */
  lemma ReachedParts(ds: seq<Dir>, i: nat)
    requires IsTree(ds) && i < |ds|
    ensures var a, b := Reached(ds, FirstChild(ds, i)), Reached(ds, NextSibling(ds, i));
            Reached(ds, i) == {i} + a + b && a !! b && i !in a && i !in b
  {
    hide IsTree, FirstChild, NextSibling, Reach;
    var a, b := Reached(ds, FirstChild(ds, i)), Reached(ds, NextSibling(ds, i));
    forall j: nat | j < |ds|
      ensures j in Reached(ds, i) <==> j in {i} + a + b
      ensures !(j in a && j in b) && (j in a || j in b ==> j != i)
    {
      ReachUnfold(ds, i, j);
      WalksApart(ds, i, j);
      if j in a { ReachBounds(ds, FirstChild(ds, i), j); }
      if j in b { ReachBounds(ds, NextSibling(ds, i), j); }
    }
    assert Reached(ds, i) == {i} + a + b;
  }

  lemma ReachedSplit(ds: seq<Dir>, i: nat)
    requires IsTree(ds) && i < |ds|
    ensures |Reached(ds, i)| == 1 + |Reached(ds, FirstChild(ds, i))| + |Reached(ds, NextSibling(ds, i))|
  {
    hide IsTree, FirstChild, NextSibling, Reached;
    ReachedParts(ds, i);
    DisjointSize({i}, Reached(ds, FirstChild(ds, i)), Reached(ds, NextSibling(ds, i)));
  }

  /** The directory and everything below it. */
  function Subtree(ds: seq<Dir>, i: nat): set<nat>
    requires IsTree(ds) && i < |ds|
  {
    {i} + Reached(ds, FirstChild(ds, i))
  }

  lemma NotBelowItself(ds: seq<Dir>, i: nat)
    requires IsTree(ds) && i < |ds|
    ensures i !in Reached(ds, FirstChild(ds, i))
  {
    hide IsTree, FirstChild, NextSibling, Reached;
    ReachedParts(ds, i);
  }

  lemma NothingReached(ds: seq<Dir>)
    requires IsTree(ds)
    ensures Reached(ds, |ds|) == {}
  {
  }

  /** One sibling less to walk. */
  lemma NextSubtree(ds: seq<Dir>, i: nat, freed: set<nat>, now: set<nat>)
    requires IsTree(ds) && i < |ds| && now + Reached(ds, i) == freed && Reached(ds, i) !! now
    ensures i !in now && Subtree(ds, i) !! now
    ensures now + Subtree(ds, i) + Reached(ds, NextSibling(ds, i)) == freed
    ensures Reached(ds, NextSibling(ds, i)) !! now + Subtree(ds, i)
  {
    hide IsTree, FirstChild, NextSibling, Reached;
    ReachedParts(ds, i);
  }

  lemma DisjointSize(s: set<nat>, a: set<nat>, b: set<nat>)
    requires s !! a && s !! b && a !! b
    ensures |s + a + b| == |s| + |a| + |b|
  {
  }

  lemma RootReachesAll(ds: seq<Dir>)
    requires IsTree(ds)
    ensures Reached(ds, ROOT) == NumbersBelow(|ds|) && |ds| > 0
  {
    hide IsTree, Reach;
    TreeNotEmpty(ds);
    forall j: nat
      ensures j in Reached(ds, ROOT) <==> j < |ds|
    {
      RootReaches(ds, j);
    }
  }

  /** Destroying the tree from the root meets every directory exactly once. */
  lemma DestroyCountsAll(ds: seq<Dir>)
    requires IsTree(ds)
    ensures |ds| > 0 && SubtreeCount(ds, ROOT) == |ds| && Subtree(ds, ROOT) == NumbersBelow(|ds|)
  {
    hide IsTree, Reached, FirstChild;
    RootReachesAll(ds);
    CountIsSize(ds, ROOT);
    RootAlone(ds);
    ReachedParts(ds, ROOT);
  }

  lemma RootAlone(ds: seq<Dir>)
    requires IsTree(ds) && |ds| > 0
    ensures WalkCount(ds, ROOT) == SubtreeCount(ds, ROOT)
    ensures Reached(ds, NextSibling(ds, ROOT)) == {}
  {
  }
}
