/** The linked directory tree: nodes with first-child, next-sibling and parent links. */
module DirTree {
  import opened Bytes
  import opened DirPaths
  import opened Directories
  import opened DirSearch

  /** Most directories a tree can number. */
  const MAX_NODES: nat := 0xFFFF_FFFF

  class Node {
    const index: u32
    const dirname: Name
    const parent: Node?
    var firstChild: Node?
    var next: Node?

    constructor (i: u32, name: Name, p: Node?)
      ensures index == i && dirname == name && parent == p && firstChild == null && next == null
    {
      index, dirname, parent, firstChild, next := i, name, p, null, null;
    }
  }

  /** Node i, or null past the end. */
  ghost function NodeAt(nodes: seq<Node>, i: nat): Node?
  {
    if i < |nodes| then nodes[i] else null
  }

  ghost predicate Linked(nodes: seq<Node>, ds: seq<Dir>, i: nat)
    requires IsTree(ds) && i < |ds| == |nodes|
    reads nodes[i]
  {
    && nodes[i].index == i && nodes[i].dirname == ds[i].name
    && nodes[i].parent == (if i == ROOT then null else nodes[ds[i].parent])
    && nodes[i].firstChild == NodeAt(nodes, FirstChild(ds, i))
    && nodes[i].next == NodeAt(nodes, NextSibling(ds, i))
  }

  // ----- one more directory --------------------------------------------------------------------------------------

  lemma {:induction false} ChildFromAppend(ds: seq<Dir>, d: Dir, q: nat, k: nat)
    requires 1 <= |ds| && k <= |ds|
    ensures ChildFrom(ds + [d], q, k) ==
            if ChildFrom(ds, q, k) < |ds| then ChildFrom(ds, q, k)
            else if d.parent == q then |ds| else |ds| + 1
    decreases |ds| - k
  {
    if k < |ds| {
      ChildFromAppend(ds, d, q, k + 1);
      assert IsChild(ds + [d], q, k) == IsChild(ds, q, k);
    } else {
      assert IsChild(ds + [d], q, k) == (d.parent == q);
    }
  }

  /** The links that change when a child of p is added: none but those that ended the children of p. */
  lemma LinksAppend(ds: seq<Dir>, p: nat, name: Name, i: nat)
    requires IsTree(ds) && IsTree(ds + [Dir(p, name)]) && i < |ds|
    ensures var more := ds + [Dir(p, name)];
            && FirstChild(more, i) == (if FirstChild(ds, i) < |ds| then FirstChild(ds, i)
                                       else if i == p then |ds| else |ds| + 1)
            && NextSibling(more, i) == (if NextSibling(ds, i) < |ds| then NextSibling(ds, i)
                                        else if i != ROOT && ds[i].parent == p then |ds| else |ds| + 1)
  {
    ChildFromAppend(ds, Dir(p, name), i, i + 1);
    if i != ROOT { ChildFromAppend(ds, Dir(p, name), ds[i].parent, i + 1); }
  }

  lemma NewLinks(ds: seq<Dir>, p: nat, name: Name)
    requires p < |ds| && IsTree(ds + [Dir(p, name)])
    ensures FirstChild(ds + [Dir(p, name)], |ds|) == NextSibling(ds + [Dir(p, name)], |ds|) == |ds| + 1
  {
  }

  // ----- the tree ------------------------------------------------------------------------------------------------

  class Tree {
    var root: Node
    var numNodes: u32
    ghost var nodes: seq<Node>
    ghost var dirs: seq<Dir>

    ghost predicate Valid()
      reads this, nodes
    {
      && IsTree(dirs) && |nodes| == |dirs| == numNodes && nodes[ROOT] == root
      && forall i :: 0 <= i < |nodes| ==> Linked(nodes, dirs, i)
    }

    constructor ()
      ensures Valid() && dirs == [Dir(ROOT, [])] && fresh(nodes[0]) && |nodes| == 1
    {
      root := new Node(0, [], null);
      numNodes := 1;
      nodes := [root];
      dirs := [Dir(ROOT, [])];
    }

    /** The child of parent with that name; added behind its siblings if there is none. */
    method AddChildNode(parent: Node, name: Name, ghost p: nat) returns (node: Node)
      requires Valid() && p < |nodes| && nodes[p] == parent && name != []
      requires |AddChild(dirs, p, name).dirs| <= MAX_NODES
      modifies this, nodes
      ensures Valid() && root == old(root) && old(nodes) <= nodes
      ensures forall k :: |old(nodes)| <= k < |nodes| ==> fresh(nodes[k])
      ensures dirs == AddChild(old(dirs), p, name).dirs && node == nodes[AddChild(old(dirs), p, name).at]
    {
      hide FirstChild, NextSibling, IsTree;
      ghost var n := |dirs|;
      assert Linked(nodes, dirs, p);
      FirstFacts(dirs, p);
      ghost var c := FirstChild(dirs, p);
      var sibling := parent.firstChild;
      while sibling != null
        invariant p < c <= n && sibling == NodeAt(nodes, c) && (c < n ==> IsChild(dirs, p, c))
        invariant forall i :: p < i < c ==> !IsChildNamed(dirs, p, name, i)
        modifies {}
        decreases n - c
      {
        assert Linked(nodes, dirs, c);
        if sibling.dirname == name {
          FoundChild(dirs, p, name, c);
          return sibling;
        }
        NextChild(dirs, p, c);
        sibling := sibling.next;
        c := NextSibling(dirs, c);
      }
      NoSuchChild(dirs, p, name);
      node := AppendChild(parent, name, p);
    }

    /** Walks to the last child of a node that has children. */
    method LastSibling(parent: Node, ghost p: nat) returns (sibling: Node, ghost last: nat)
      requires Valid() && p < |nodes| && nodes[p] == parent && parent.firstChild != null
      ensures last < |nodes| && sibling == nodes[last] && IsChild(dirs, p, last)
      ensures NextSibling(dirs, last) == |dirs| && sibling.next == null
    {
      hide FirstChild, NextSibling, IsTree;
      assert Linked(nodes, dirs, p);
      FirstFacts(dirs, p);
      sibling, last := parent.firstChild, FirstChild(dirs, p);
      while sibling.next != null
        invariant last < |nodes| && IsChild(dirs, p, last) && sibling == nodes[last]
        decreases |dirs| - last
      {
        assert Linked(nodes, dirs, last);
        NextChild(dirs, p, last);
        sibling := sibling.next;
        last := NextSibling(dirs, last);
      }
      assert Linked(nodes, dirs, last);
      NextChild(dirs, p, last);
    }

    /** Adds a new last child. */
    method AppendChild(parent: Node, name: Name, ghost p: nat) returns (node: Node)
      requires Valid() && p < |nodes| && nodes[p] == parent && name != [] && |dirs| < MAX_NODES
      requires ChildNamed(dirs, p, name) == None
      modifies this, nodes
      ensures Valid() && root == old(root) && nodes == old(nodes) + [node] && fresh(node)
      ensures dirs == old(dirs) + [Dir(p, name)]
    {
      hide FirstChild, NextSibling, IsTree, ChildNamed;
      ghost var n := |dirs|;
      AddChildIsTree(dirs, p, name);
      AddChildNew(dirs, p, name);
      node := new Node(numNodes, name, parent);
      ghost var ns, ds := nodes + [node], dirs + [Dir(p, name)];
      if parent.firstChild == null {
        FirstLink(nodes, dirs, node, p, name);
        LinkFirst(parent, node, ns, ds, p, n);
      } else {
        var sibling, last := LastSibling(parent, p);
        SiblingLink(nodes, dirs, node, p, name, last);
        LinkNext(sibling, node, ns, ds, last, n);
      }
      NewLinks(dirs, p, name);
      numNodes := numNodes + 1;
      nodes := ns;
      dirs := ds;
      assert Linked(nodes, dirs, n);
    }

    /** Adds the components from position t on, each below the one before. */
    method InsertParts(start: Node, parts: seq<Name>, t: nat, ghost p: nat) returns (node: Node)
      requires Valid() && p < |nodes| && nodes[p] == start && NoneEmpty(parts)
      requires t < |parts| && |Insert(dirs, p, parts[t..]).dirs| <= MAX_NODES
      modifies this, nodes
      ensures Valid() && root == old(root) && old(nodes) <= nodes
      ensures forall k :: |old(nodes)| <= k < |nodes| ==> fresh(nodes[k])
      ensures dirs == Insert(old(dirs), p, parts[t..]).dirs && node == nodes[Insert(old(dirs), p, parts[t..]).at]
    {
      hide AddChild, IsTree, Insert;
      node := start;
      ghost var q: nat := p;
      var i: nat := t;
      while i < |parts|
        invariant t <= i <= |parts| && Valid() && root == old(root) && q < |nodes| && nodes[q] == node
        invariant old(nodes) <= nodes && forall k :: |old(nodes)| <= k < |nodes| ==> fresh(nodes[k])
        invariant Insert(old(dirs), p, parts[t..]) == Insert(dirs, q, parts[i..])
      {
        InsertUnfold(dirs, q, parts, i);
        ghost var next := AddChild(dirs, q, parts[i]).at;
        node := AddChildNode(node, parts[i], q);
        q := next;
        i := i + 1;
      }
      InsertNone(dirs, q);
      assert parts[|parts|..] == [];
    }

    /** Adds a directory path; null when it has no component or is present already. */
    method Add(dirname: seq<byte>) returns (node: Node?)
      requires Valid() && |Insert(dirs, ROOT, Tokens(dirname)).dirs| <= MAX_NODES
      modifies this, nodes
      ensures Valid() && root == old(root) && old(nodes) <= nodes
      ensures forall k :: |old(nodes)| <= k < |nodes| ==> fresh(nodes[k])
      ensures node == null <==> Lookup(old(dirs), ROOT, Tokens(dirname)).Some?
      ensures node == null ==> dirs == old(dirs) && nodes == old(nodes)
      ensures node != null ==> dirs == Insert(old(dirs), ROOT, Tokens(dirname)).dirs
                               && node == nodes[Insert(old(dirs), ROOT, Tokens(dirname)).at]
    {
      hide FirstChild, NextSibling, IsTree, Insert, Lookup, Tokens, ChildNamed;
      var parts := Tokens(dirname);
      TreeNotEmpty(dirs);
      assert parts[0..] == parts;
      if |parts| == 0 {
        NothingToFind(dirs, ROOT);
        return null;
      }
      var t: nat, parent := 0, root;
      var cur := parent.firstChild;
      assert Linked(nodes, dirs, ROOT);
      FirstFacts(dirs, ROOT);
      ghost var p: nat, c: nat := ROOT, FirstChild(dirs, ROOT);
      while cur != null
        invariant t < |parts| && p < |nodes| && nodes[p] == parent
        invariant p < c <= |dirs| && cur == NodeAt(nodes, c) && (c < |dirs| ==> IsChild(dirs, p, c))
        invariant forall i :: p < i < c ==> !IsChildNamed(dirs, p, parts[t], i)
        invariant Insert(dirs, ROOT, parts) == Insert(dirs, p, parts[t..])
        invariant Lookup(dirs, ROOT, parts) == Lookup(dirs, p, parts[t..])
        modifies {}
        decreases |dirs| - c
      {
        assert Linked(nodes, dirs, c);
        if cur.dirname == parts[t] {
          FoundChild(dirs, p, parts[t], c);
          GoDown(dirs, p, parts, t);
          t := t + 1;
          if t == |parts| {
            NothingToFind(dirs, c);
            assert parts[t..] == [];
            return null;
          }
          parent := cur;
          p := c;
          FirstFacts(dirs, p);
          c := FirstChild(dirs, p);
          if cur.firstChild != null {
            cur := cur.firstChild;
          } else {
            cur := null;
          }
        } else {
          NextChild(dirs, p, c);
          cur := cur.next;
          c := NextSibling(dirs, c);
        }
      }
      NoSuchChild(dirs, p, parts[t]);
      NotFound(dirs, p, parts, t);
      node := InsertParts(parent, parts, t, p);
    }

    /** Depth-first search for an index from a node on, through its later siblings too. */
    method NodeSearch(node: Node, index: u32, ghost i: nat) returns (r: Node?)
      requires Valid() && i < |nodes| && nodes[i] == node
      ensures r == if Reach(dirs, i, index) then NodeAt(nodes, index) else null
      ensures r != null ==> index < |nodes|
      decreases |dirs| - i
    {
      hide FirstChild, NextSibling, IsTree, Reach;
      var res: Node? := node;
      ghost var s: nat := i;
      while res != null
        invariant i <= s <= |dirs| && res == NodeAt(nodes, s) && Reach(dirs, i, index) == Reach(dirs, s, index)
        decreases |dirs| - s
      {
        assert Linked(nodes, dirs, s);
        ReachUnfold(dirs, s, index);
        FirstFacts(dirs, s);
        if res.index == index {
          return res;
        }
        if res.firstChild != null {
          var below := NodeSearch(res.firstChild, index, FirstChild(dirs, s));
          if below != null {
            return below;
          }
          NotMet(dirs, FirstChild(dirs, s), index);
        }
        NextBounds(dirs, s);
        res := res.next;
        s := NextSibling(dirs, s);
      }
      ReachEnd(dirs, index);
      r := null;
    }

    /** The node with that index; null if there is none. */
    method ParentIndexSearch(index: u32) returns (r: Node?)
      requires Valid()
      ensures r == NodeAt(nodes, index)
    {
      TreeNotEmpty(dirs);
      RootReaches(dirs, index);
      if index == 0 {
        return root;
      }
      r := NodeSearch(root, index, ROOT);
    }

    /** Adds a directory below the one with the given index; null when there is no such directory or the name is empty. */
    method InsertAtParent(parentIndex: u32, dirname: seq<byte>) returns (node: Node?)
      requires Valid() && (parentIndex < |dirs| ==> |Insert(dirs, parentIndex, Parts(dirname)).dirs| <= MAX_NODES)
      modifies this, nodes
      ensures Valid() && root == old(root) && old(nodes) <= nodes
      ensures forall k :: |old(nodes)| <= k < |nodes| ==> fresh(nodes[k])
      ensures node == null <==> dirname == [] || parentIndex >= |old(dirs)|
      ensures node == null ==> dirs == old(dirs) && nodes == old(nodes)
      ensures node != null ==> dirs == Insert(old(dirs), parentIndex, Parts(dirname)).dirs
                               && node == nodes[Insert(old(dirs), parentIndex, Parts(dirname)).at]
    {
      hide Tokens, Insert;
      if dirname == [] {
        return null;
      }
      var parent := ParentIndexSearch(parentIndex);
      if parent == null {
        return null;
      }
      var parts := Tokens(dirname);
      if |parts| == 0 {
        parts := [dirname];
      }
      assert parts[0..] == parts;
      node := InsertParts(parent, parts, 0, parentIndex);
    }

    /** First pass over a path: room for every name and a delimiter. */
    method PathLength(node: Node, ghost i: nat) returns (len: nat)
      requires Valid() && i < |nodes| && nodes[i] == node
      ensures len == |Delimited(PathOf(dirs, i))|
    {
      hide IsTree, Delimited, PathOf;
      len := 0;
      var n := node;
      ghost var j: nat := i;
      while n.index != 0
        invariant j < |nodes| && nodes[j] == n
        invariant len + |Delimited(PathOf(dirs, j))| == |Delimited(PathOf(dirs, i))|
        decreases j
      {
        assert Linked(nodes, dirs, j);
        DelimitedParent(dirs, j);
        len := len + |n.dirname| + 1;
        n := n.parent;
        j := dirs[j].parent;
      }
      assert Linked(nodes, dirs, j);
      DelimitedRoot(dirs);
    }

    /** Second pass: the names from the last to the first, each with the delimiter behind it. */
    method FillPath(path: array<byte>, node: Node, ghost i: nat) returns (pos: int)
      requires Valid() && i < |nodes| && nodes[i] == node && path.Length == |Delimited(PathOf(dirs, i))|
      modifies path
      ensures pos == -1 && path[..] == Delimited(PathOf(dirs, i))
    {
      hide IsTree, Delimited, PathOf;
      var n := node;
      ghost var j: nat := i;
      pos := path.Length - 1;
      assert path[pos + 1..] == [];
      while n.index != 0
        invariant j < |nodes| && nodes[j] == n && -1 <= pos < path.Length && pos + 1 == |Delimited(PathOf(dirs, j))|
        invariant Delimited(PathOf(dirs, j)) + path[pos + 1..] == Delimited(PathOf(dirs, i))
        decreases j
      {
        assert Linked(nodes, dirs, j);
        DelimitedParent(dirs, j);
        ghost var tail, front := path[pos + 1..], Delimited(PathOf(dirs, dirs[j].parent));
        var dirLen := |n.dirname|;
        path[pos] := DELIM;
        CopyName(path, pos - dirLen, n.dirname);
        PrependName(path[..], pos - dirLen, n.dirname, tail);
        MovedLeft(front, n.dirname, tail);
        pos := pos - (dirLen + 1);
        n := n.parent;
        j := dirs[j].parent;
      }
      assert Linked(nodes, dirs, j);
      DelimitedRoot(dirs);
    }

    /** The path of a directory: its names joined by the delimiter. */
    method ReconstructPath(node: Node, ghost i: nat) returns (s: seq<byte>)
      requires Valid() && i < |nodes| && nodes[i] == node
      ensures s == Joined(PathOf(dirs, i))
    {
      hide IsTree, Delimited, PathOf, Joined;
      var len := PathLength(node, i);
      DelimitedIsJoined(PathOf(dirs, i));
      JoinedNone();
      if len == 0 {
        return [];
      }
      var path := new byte[len];
      var pos := FillPath(path, node, i);
      path[len - 1] := 0;
      s := path[..len - 1];
    }

    /** Destroys a subtree and returns how many nodes it had. The ghost sets hold the nodes freed: exactly those
        of the subtree are freed here, each once, and none is looked at after it was freed. */
    method DestroySubtree(node: Node, ghost i: nat, ghost freed: set<nat>) returns (count: nat, ghost after: set<nat>)
      requires Valid() && i < |nodes| && nodes[i] == node && Subtree(dirs, i) !! freed
      ensures count == SubtreeCount(dirs, i)
      ensures after == freed + Subtree(dirs, i)
      decreases |dirs| - i
    {
      hide FirstChild, NextSibling, IsTree, Reached;
      count, after := 0, freed;
      assert Linked(nodes, dirs, i);
      FirstFacts(dirs, i);
      assert i !in after;
      var child := node.firstChild;
      ghost var c := FirstChild(dirs, i);
      ghost var all := freed + Reached(dirs, c);
      NotBelowItself(dirs, i);
      while child != null
        invariant i < c <= |dirs| && child == NodeAt(nodes, c)
        invariant count + WalkCount(dirs, c) == WalkCount(dirs, FirstChild(dirs, i))
        invariant after + Reached(dirs, c) == all && Reached(dirs, c) !! after
        decreases |dirs| - c
      {
        assert Linked(nodes, dirs, c);
        NextBounds(dirs, c);
        NextSubtree(dirs, c, all, after);
        assert c !in after;
        var next := child.next;
        var below;
        below, after := DestroySubtree(child, c, after);
        count := count + below;
        child := next;
        c := NextSibling(dirs, c);
      }
      NothingReached(dirs);
      assert i !in after;
      after := after + {i};
      count := count + 1;
    }

    /** Destroying the whole tree frees every node it was said to have. */
    method Destroy() returns (count: nat, ghost freed: set<nat>)
      requires Valid()
      ensures count == numNodes && freed == NumbersBelow(numNodes)
    {
      DestroyCountsAll(dirs);
      count, freed := DestroySubtree(root, ROOT, {});
    }
  }

  /** What the reader splits a stored name into: its components, or the name itself if it has none. */
  function Parts(name: Name): (parts: seq<Name>)
  {
    if Tokens(name) == [] then [name] else Tokens(name)
  }

  lemma InsertUnfold(ds: seq<Dir>, q: nat, parts: seq<Name>, i: nat)
    requires q < |ds| && i < |parts|
    ensures Insert(ds, q, parts[i..]) ==
            Insert(AddChild(ds, q, parts[i]).dirs, AddChild(ds, q, parts[i]).at, parts[i + 1..])
  {
    hide AddChild;
    assert parts[i..][1..] == parts[i + 1..];
  }

  lemma InsertNone(ds: seq<Dir>, q: nat)
    requires q < |ds|
    ensures Insert(ds, q, []) == Added(ds, q)
  {
  }

  lemma NothingToFind(ds: seq<Dir>, p: nat)
    requires p < |ds|
    ensures Lookup(ds, p, []) == Some(p)
  {
  }

  lemma GoDown(ds: seq<Dir>, p: nat, parts: seq<Name>, t: nat)
    requires p < |ds| && t < |parts| && ChildNamed(ds, p, parts[t]).Some?
    ensures var c := ChildNamed(ds, p, parts[t]).value;
            Insert(ds, p, parts[t..]) == Insert(ds, c, parts[t + 1..])
            && Lookup(ds, p, parts[t..]) == Lookup(ds, c, parts[t + 1..])
  {
    hide ChildNamed;
    assert parts[t..][1..] == parts[t + 1..];
  }

  lemma NotFound(ds: seq<Dir>, p: nat, parts: seq<Name>, t: nat)
    requires p < |ds| && t < |parts| && ChildNamed(ds, p, parts[t]) == None
    ensures Lookup(ds, p, parts[t..]) == None
  {
    hide ChildNamed;
  }

  lemma NotMet(ds: seq<Dir>, i: nat, j: nat)
    requires IsTree(ds) && i <= |ds| && (Reach(ds, i, j) ==> j >= |ds|)
    ensures !Reach(ds, i, j)
  {
    if Reach(ds, i, j) { ReachBounds(ds, i, j); }
  }

  lemma NextBounds(ds: seq<Dir>, i: nat)
    requires IsTree(ds) && i < |ds|
    ensures i < NextSibling(ds, i) <= |ds|
  {
  }

  lemma ReachEnd(ds: seq<Dir>, j: nat)
    requires IsTree(ds)
    ensures !Reach(ds, |ds|, j)
  {
  }

  /** Every name followed by the delimiter. */
  function Delimited(parts: seq<Name>): seq<byte>
  {
    if parts == [] then [] else Delimited(parts[..|parts| - 1]) + parts[|parts| - 1] + [DELIM]
  }

  lemma {:induction false} DelimitedIsJoined(parts: seq<Name>)
    ensures Delimited(parts) == if parts == [] then [] else Joined(parts) + [DELIM]
  {
    if parts != [] { DelimitedIsJoined(parts[..|parts| - 1]); }
  }

  lemma DelimitedParent(ds: seq<Dir>, j: nat)
    requires IsTree(ds) && 1 <= j < |ds|
    ensures ds[j].parent < j
    ensures Delimited(PathOf(ds, j)) == Delimited(PathOf(ds, ds[j].parent)) + ds[j].name + [DELIM]
  {
    var front := PathOf(ds, ds[j].parent);
    assert (front + [ds[j].name])[..|front|] == front;
  }

  lemma DelimitedRoot(ds: seq<Dir>)
    requires IsTree(ds)
    ensures Delimited(PathOf(ds, ROOT)) == []
  {
  }

  lemma JoinedNone()
    ensures Joined([]) == []
  {
  }

  lemma PrependName(path: seq<byte>, at: nat, name: Name, tail: seq<byte>)
    requires at + |name| < |path| && path[at..at + |name|] == name && path[at + |name|..] == [DELIM] + tail
    ensures path[at..] == name + [DELIM] + tail
  {
    assert path[at..] == path[at..at + |name|] + path[at + |name|..];
  }

  lemma MovedLeft(front: seq<byte>, name: Name, tail: seq<byte>)
    ensures front + (name + [DELIM] + tail) == (front + name + [DELIM]) + tail
  {
  }

  method CopyName(path: array<byte>, at: nat, name: Name)
    requires at + |name| <= path.Length
    modifies path
    ensures path[..at] == old(path[..at]) && path[at..at + |name|] == name
    ensures path[at + |name|..] == old(path[at + |name|..])
  {
    for k := 0 to |name|
      invariant forall i :: 0 <= i < path.Length ==>
                              path[i] == if at <= i < at + k then name[i - at] else old(path[i])
    {
      path[at + k] := name[k];
    }
  }

  method LinkFirst(parent: Node, node: Node, ghost ns: seq<Node>, ghost ds: seq<Dir>, ghost p: nat, ghost n: nat)
    requires IsTree(ds) && p < n && |ds| == |ns| == n + 1 && ns[p] == parent
    requires forall i :: 0 <= i < n ==> WillBeLinked(ns, ds, i, node, p, n)
    modifies parent`firstChild
    ensures forall i :: 0 <= i < n ==> Linked(ns, ds, i)
  {
    hide FirstChild, NextSibling, IsTree;
    forall i | 0 <= i < n
      ensures ns[i].index == i && (i != p ==> ns[i] != parent)
    {
      assert WillBeLinked(ns, ds, i, node, p, n) && WillBeLinked(ns, ds, p, node, p, n);
    }
    parent.firstChild := node;
    forall i | 0 <= i < n
      ensures Linked(ns, ds, i)
    {
      assert old(WillBeLinked(ns, ds, i, node, p, n));
    }
  }

  method LinkNext(sibling: Node, node: Node, ghost ns: seq<Node>, ghost ds: seq<Dir>, ghost l: nat, ghost n: nat)
    requires IsTree(ds) && l < n && |ds| == |ns| == n + 1 && ns[l] == sibling
    requires forall i :: 0 <= i < n ==> WillBeLinked(ns, ds, i, node, n, l)
    modifies sibling`next
    ensures forall i :: 0 <= i < n ==> Linked(ns, ds, i)
  {
    hide FirstChild, NextSibling, IsTree;
    forall i | 0 <= i < n
      ensures ns[i].index == i && (i != l ==> ns[i] != sibling)
    {
      assert WillBeLinked(ns, ds, i, node, n, l) && WillBeLinked(ns, ds, l, node, n, l);
    }
    sibling.next := node;
    forall i | 0 <= i < n
      ensures Linked(ns, ds, i)
    {
      assert old(WillBeLinked(ns, ds, i, node, n, l));
    }
  }

  /** The state after a link is set, described before it is set: node i keeps its links except that the
      first-child link of f, and the next link of l, become node. */
  ghost predicate WillBeLinked(ns: seq<Node>, ds: seq<Dir>, i: nat, node: Node, f: nat, l: nat)
    requires IsTree(ds) && i < |ds| == |ns|
    reads ns[i]
  {
    && ns[i].index == i && ns[i].dirname == ds[i].name
    && ns[i].parent == (if i == ROOT then null else ns[ds[i].parent])
    && (if i == f then node else ns[i].firstChild) == NodeAt(ns, FirstChild(ds, i))
    && (if i == l then node else ns[i].next) == NodeAt(ns, NextSibling(ds, i))
  }

  lemma AddChildNew(ds: seq<Dir>, p: nat, name: Name)
    requires p < |ds| && ChildNamed(ds, p, name) == None
    ensures AddChild(ds, p, name) == Added(ds + [Dir(p, name)], |ds|)
  {
  }

  /** Node p had no children: only its first-child link changes. */
  lemma FirstLink(ns: seq<Node>, ds: seq<Dir>, node: Node, p: nat, name: Name)
    requires IsTree(ds) && IsTree(ds + [Dir(p, name)]) && |ns| == |ds| && p < |ds|
    requires forall i :: 0 <= i < |ns| ==> Linked(ns, ds, i)
    requires ns[p].firstChild == null
    ensures forall i :: 0 <= i < |ns| ==> WillBeLinked(ns + [node], ds + [Dir(p, name)], i, node, p, |ns|)
  {
    hide FirstChild, NextSibling, IsTree;
    FirstFacts(ds, p);
    assert Linked(ns, ds, p);
    forall i | 0 <= i < |ns|
      ensures WillBeLinked(ns + [node], ds + [Dir(p, name)], i, node, p, |ns|)
    {
      assert Linked(ns, ds, i);
      LinksAppend(ds, p, name, i);
      if i != ROOT { assert ds[i].parent == p ==> IsChild(ds, p, i); TreeParent(ds, i); }
    }
  }

  /** Node p had children: only the next link of the last one changes. */
  lemma SiblingLink(ns: seq<Node>, ds: seq<Dir>, node: Node, p: nat, name: Name, last: nat)
    requires IsTree(ds) && IsTree(ds + [Dir(p, name)]) && |ns| == |ds| && p < |ds|
    requires forall i :: 0 <= i < |ns| ==> Linked(ns, ds, i)
    requires IsChild(ds, p, last) && NextSibling(ds, last) == |ds|
    ensures forall i :: 0 <= i < |ns| ==> WillBeLinked(ns + [node], ds + [Dir(p, name)], i, node, |ns|, last)
  {
    hide FirstChild, NextSibling, IsTree;
    FirstFacts(ds, p);
    TreeParent(ds, last);
    forall i | 0 <= i < |ns|
      ensures WillBeLinked(ns + [node], ds + [Dir(p, name)], i, node, |ns|, last)
    {
      assert Linked(ns, ds, i);
      LinksAppend(ds, p, name, i);
      if i != ROOT { TreeParent(ds, i); }
      if i != last && IsChild(ds, p, i) { LastChild(ds, p, last, i); }
    }
  }

  /** The first child: above p, and no child comes before it. */
  lemma FirstFacts(ds: seq<Dir>, p: nat)
    requires IsTree(ds) && p < |ds|
    ensures var c := FirstChild(ds, p);
            p < c <= |ds| && (c < |ds| ==> IsChild(ds, p, c)) && forall i :: 0 <= i < c ==> !IsChild(ds, p, i)
  {
  }

  lemma FoundChild(ds: seq<Dir>, p: nat, name: Name, c: nat)
    requires IsTree(ds) && IsChildNamed(ds, p, name, c)
    ensures ChildNamed(ds, p, name) == Some(c)
  {
  }

  lemma NextChild(ds: seq<Dir>, p: nat, c: nat)
    requires IsTree(ds) && IsChild(ds, p, c)
    ensures var s := NextSibling(ds, c);
            c < s <= |ds| && (s < |ds| ==> IsChild(ds, p, s)) && forall i :: c < i < s ==> !IsChild(ds, p, i)
  {
  }

  lemma NoSuchChild(ds: seq<Dir>, p: nat, name: Name)
    requires IsTree(ds) && p < |ds|
    requires forall i :: p < i < |ds| ==> !IsChildNamed(ds, p, name, i)
    ensures ChildNamed(ds, p, name) == None
  {
  }

  /** A child without a next sibling is the only such child. */
  lemma LastChild(ds: seq<Dir>, p: nat, last: nat, i: nat)
    requires IsTree(ds) && IsChild(ds, p, last) && NextSibling(ds, last) == |ds|
    requires IsChild(ds, p, i) && i != last
    ensures NextSibling(ds, i) < |ds|
  {
  }
}
