/** Rebuilding the coding tree from code lengths: a pointer tree grown node by node. */
module DecodeTree {
  import opened Bytes
  import opened HuffmanOptimality
  import opened HuffmanLengths
  import opened CanonicalCodes

  /** A tree as the set of its root-to-node paths, each with the symbol stored at the node. */
  type Labels = map<seq<bool>, byte>

  predicate IsLeaf(m: Labels, p: seq<bool>)
  {
    p in m && p + [false] !in m && p + [true] !in m
  }

  // ----- the specification of the insertion loop -----------------------------------------------------------------

  /** Follows code from depth k, creating inner nodes with symbol 0 where needed; None when the
      place of the last bit is taken. */
  function Grow(m: Labels, code: seq<bool>, k: nat, symbol: byte): Option<Labels>
    requires k < |code|
    decreases |code| - k
  {
    var p := code[..k + 1];
    if k + 1 == |code| then
      if code in m then None else Some(m[code := symbol])
    else
      Grow(WithInner(m, p), code, k + 1, symbol)
  }

  function WithInner(m: Labels, p: seq<bool>): Labels
  {
    if p in m then m else m[p := 0]
  }

  lemma GrowUnfold(m: Labels, code: seq<bool>, k: nat, symbol: byte)
    requires k < |code|
    ensures code[..k + 1] == code[..k] + [code[k]]
    ensures k + 1 == |code| ==> code == code[..k] + [code[k]]
    ensures Grow(m, code, k, symbol) ==
            if k + 1 < |code| then Grow(WithInner(m, code[..k + 1]), code, k + 1, symbol)
            else if code in m then None else Some(m[code := symbol])
  {
  }

  /** Insert the codes of the given symbols, in that order. */
  function BuildLabels(lengths: seq<byte>, order: seq<byte>): Option<Labels>
    requires |lengths| == ALPHABET_SIZE
  {
    if order == [] then Some(map[[] := 0])
    else
      match BuildLabels(lengths, order[..|order| - 1])
      case None => None
      case Some(m) =>
        var s := order[|order| - 1];
        if lengths[s] == 0 then Some(m) else Grow(m, Code(lengths, s), 0, s)
  }

  function Ascending(k: nat): (order: seq<byte>)
    requires k <= ALPHABET_SIZE
    ensures |order| == k && forall i :: 0 <= i < k ==> order[i] == i
  {
    seq(k, i requires 0 <= i < k => i)
  }

  predicate PrefixClosed(ps: set<seq<bool>>)
  {
    forall p <- ps :: p != [] ==> p[..|p| - 1] in ps
  }

  lemma SnocInjective(p: seq<bool>, b: bool, q: seq<bool>, c: bool)
    ensures p + [b] == q + [c] <==> p == q && b == c
  {
    if p + [b] == q + [c] {
      assert (p + [b])[..|p|] == p && (q + [c])[..|q|] == q;
      assert (p + [b])[|p|] == b && (q + [c])[|q|] == c;
    }
  }

  // ----- the pointer tree ----------------------------------------------------------------------------------------

  class TrieNode {
    const symbol: byte
    var left: TrieNode?
    var right: TrieNode?

    constructor (symbol: byte)
      ensures this.symbol == symbol && left == null && right == null
    {
      this.symbol := symbol;
      left, right := null, null;
    }
  }

  ghost function NodeAt(nodes: map<seq<bool>, TrieNode>, p: seq<bool>): TrieNode?
  {
    if p in nodes then nodes[p] else null
  }

  ghost function LabelsOf(nodes: map<seq<bool>, TrieNode>): Labels
  {
    map p | p in nodes :: nodes[p].symbol
  }

  lemma LabelsUpdate(nodes: map<seq<bool>, TrieNode>, p: seq<bool>, n: TrieNode)
    ensures LabelsOf(nodes[p := n]) == LabelsOf(nodes)[p := n.symbol]
    ensures nodes[p := n].Values <= nodes.Values + {n}
  {
  }

  lemma LabelsKeys(nodes: map<seq<bool>, TrieNode>)
    ensures LabelsOf(nodes).Keys == nodes.Keys
  {
  }

  class Trie {
    const root: TrieNode
    ghost var nodes: map<seq<bool>, TrieNode>

    ghost predicate Valid()
      reads this, nodes.Values
    {
      && [] in nodes && nodes[[]] == root
      && PrefixClosed(nodes.Keys)
      && (forall p, q :: p in nodes && q in nodes && p != q ==> nodes[p] != nodes[q])
      && (forall p :: p in nodes ==> nodes[p].left == NodeAt(nodes, p + [false]))
      && (forall p :: p in nodes ==> nodes[p].right == NodeAt(nodes, p + [true]))
    }

    constructor ()
      ensures Valid() && fresh(nodes.Values) && LabelsOf(nodes) == map[[] := 0]
    {
      root := new TrieNode(0);
      nodes := map[[] := root];
    }

    /** Hangs a new node below the node at path p, on a side that is still free. */
    method AddChild(cur: TrieNode, bit: bool, child: TrieNode, ghost p: seq<bool>)
      requires Valid() && p in nodes && nodes[p] == cur && p + [bit] !in nodes
      requires child !in nodes.Values && child.left == null && child.right == null
      modifies this, cur
      ensures Valid() && nodes == old(nodes)[p + [bit] := child]
    {
      if bit {
        cur.right := child;
      } else {
        cur.left := child;
      }
      ghost var was, c := nodes, p + [bit];
      nodes := was[c := child];
      forall q | q in nodes
        ensures nodes[q].left == NodeAt(nodes, q + [false]) && nodes[q].right == NodeAt(nodes, q + [true])
      {
        SnocInjective(q, false, p, bit);
        SnocInjective(q, true, p, bit);
        if q == c {
          assert (c + [false])[..|c|] == c && (c + [true])[..|c|] == c;
        }
      }
      forall q | q in nodes && q != []
        ensures q[..|q| - 1] in nodes
      {
        if q == c { assert c[..|c| - 1] == p; }
      }
    }

    /** The child on the given side. */
    method Child(cur: TrieNode, bit: bool, ghost p: seq<bool>) returns (child: TrieNode?)
      requires Valid() && p in nodes && nodes[p] == cur
      ensures child == NodeAt(nodes, p + [bit])
    {
      child := if bit then cur.right else cur.left;
    }

    /** Steps to the child on the given side, creating an inner node where there is none. */
    method Descend(cur: TrieNode, bit: bool, ghost p: seq<bool>) returns (child: TrieNode)
      requires Valid() && p in nodes && nodes[p] == cur
      modifies this, nodes.Values
      ensures Valid() && fresh(nodes.Values - old(nodes.Values))
      ensures p + [bit] in nodes && nodes[p + [bit]] == child
      ensures LabelsOf(nodes) == WithInner(old(LabelsOf(nodes)), p + [bit])
    {
      hide LabelsOf;
      LabelsKeys(nodes);
      var c := Child(cur, bit, p);
      if c == null {
        child := new TrieNode(0);
        LabelsUpdate(nodes, p + [bit], child);
        AddChild(cur, bit, child, p);
      } else {
        child := c;
      }
    }

    /** Puts a leaf on the given side; false when the side is taken. */
    method HangLeaf(cur: TrieNode, bit: bool, symbol: byte, ghost p: seq<bool>) returns (ok: bool)
      requires Valid() && p in nodes && nodes[p] == cur
      modifies this, nodes.Values
      ensures Valid() && fresh(nodes.Values - old(nodes.Values))
      ensures ok == (p + [bit] !in old(nodes))
      ensures ok ==> LabelsOf(nodes) == old(LabelsOf(nodes))[p + [bit] := symbol]
    {
      hide LabelsOf;
      var child := Child(cur, bit, p);
      if child != null {
        return false;
      }
      child := new TrieNode(symbol);
      LabelsUpdate(nodes, p + [bit], child);
      AddChild(cur, bit, child, p);
      ok := true;
    }

    /** Follows all but the last bit of row i of codes from the root. */
    method DescendToLast(codes: array2<bool>, i: byte, len: nat, ghost code: seq<bool>) returns (cur: TrieNode)
      requires Valid() && i < codes.Length0 && 0 < len == |code| <= codes.Length1
      requires forall j :: 0 <= j < len ==> codes[i, j] == code[j]
      modifies this, nodes.Values
      ensures Valid() && fresh(nodes.Values - old(nodes.Values))
      ensures code[..len - 1] in nodes && nodes[code[..len - 1]] == cur
      ensures Grow(LabelsOf(nodes), code, len - 1, i) == old(Grow(LabelsOf(nodes), code, 0, i))
    {
      hide Grow, LabelsOf, WithInner, IsLeaf;
      cur := root;
      assert code[..0] == [];
      for j := 0 to len - 1
        invariant Valid() && fresh(nodes.Values - old(nodes.Values))
        invariant code[..j] in nodes && nodes[code[..j]] == cur
        invariant Grow(LabelsOf(nodes), code, j, i) == old(Grow(LabelsOf(nodes), code, 0, i))
      {
        GrowUnfold(LabelsOf(nodes), code, j, i);
        cur := Descend(cur, codes[i, j], code[..j]);
      }
    }

    /** Inserts the first len bits of row i of codes; false when the place is taken. */
    method InsertCode(codes: array2<bool>, i: byte, len: nat, ghost code: seq<bool>) returns (ok: bool)
      requires Valid() && i < codes.Length0 && 0 < len == |code| <= codes.Length1
      requires forall j :: 0 <= j < len ==> codes[i, j] == code[j]
      modifies this, nodes.Values
      ensures Valid() && fresh(nodes.Values - old(nodes.Values))
      ensures ok <==> old(Grow(LabelsOf(nodes), code, 0, i)).Some?
      ensures ok ==> old(Grow(LabelsOf(nodes), code, 0, i)) == Some(LabelsOf(nodes))
    {
      hide Grow, LabelsOf, WithInner, IsLeaf;
      var cur := DescendToLast(codes, i, len, code);
      GrowUnfold(LabelsOf(nodes), code, len - 1, i);
      LabelsKeys(nodes);
      ok := HangLeaf(cur, codes[i, len - 1], i, code[..len - 1]);
    }
  }

  /** The tree after the codes of the symbols below k. */
  ghost predicate Built(t: Trie, lengths: seq<byte>, k: nat)
    requires |lengths| == ALPHABET_SIZE && k <= ALPHABET_SIZE
    reads t, t.nodes.Values
  {
    t.Valid() && BuildLabels(lengths, Ascending(k)) == Some(LabelsOf(t.nodes))
  }

  /** Inserts the code of symbol i behind those of the smaller symbols. */
  method AddSymbol(t: Trie, codes: array2<bool>, i: nat, len: byte, ghost ls: seq<byte>) returns (ok: bool)
    requires codes.Length0 == codes.Length1 == |ls| == ALPHABET_SIZE && CodesMatch(codes, ls, ALPHABET_SIZE)
    requires i < ALPHABET_SIZE && len == ls[i] > 0 && Built(t, ls, i)
    modifies t, t.nodes.Values
    ensures fresh(t.nodes.Values - old(t.nodes.Values))
    ensures ok ==> Built(t, ls, i + 1)
    ensures !ok ==> BuildLabels(ls, Ascending(i + 1)) == None
  {
    hide BuildLabels, Grow, Code, LabelsOf, Ascending;
    AscendingStep(ls, i);
    ok := t.InsertCode(codes, i, len, Code(ls, i));
  }

  method BuildFromLengths(lengths: array<byte>) returns (t: Trie?)
    requires lengths.Length == ALPHABET_SIZE
    ensures t == null <==> BuildLabels(lengths[..], Ascending(ALPHABET_SIZE)) == None
    ensures t != null ==> fresh(t) && fresh(t.nodes.Values) && t.Valid()
    ensures t != null ==> BuildLabels(lengths[..], Ascending(ALPHABET_SIZE)) == Some(LabelsOf(t.nodes))
  {
    hide BuildLabels, Grow, Code, LabelsOf, Ascending, Built, CodesMatch, PrefixClosed, NodeAt;
    ghost var ls := lengths[..];
    var codes := new bool[ALPHABET_SIZE, ALPHABET_SIZE];
    ComputeCanonicalCodes(lengths, codes);
    t := new Trie();
    assert Built(t, ls, 0) by { StartsBuilt(t, ls); }
    for i := 0 to ALPHABET_SIZE
      invariant fresh(t) && fresh(t.nodes.Values)
      invariant CodesMatch(codes, ls, ALPHABET_SIZE) && Built(t, ls, i) && lengths[..] == ls
    {
      if lengths[i] != 0 {
        var ok := AddSymbol(t, codes, i, lengths[i], ls);
        if !ok {
          StuckFrom(ls, i + 1, ALPHABET_SIZE);
          return null;
        }
      } else {
        SkipSymbol(t, ls, i);
      }
    }
    IsBuilt(t, ls);
  }

  lemma StartsBuilt(t: Trie, lengths: seq<byte>)
    requires t.Valid() && |lengths| == ALPHABET_SIZE && LabelsOf(t.nodes) == map[[] := 0]
    ensures Built(t, lengths, 0)
  {
    hide BuildLabels, LabelsOf, Ascending;
    NothingBuilt(lengths);
  }

  lemma SkipSymbol(t: Trie, lengths: seq<byte>, i: nat)
    requires |lengths| == ALPHABET_SIZE && i < ALPHABET_SIZE && lengths[i] == 0 && Built(t, lengths, i)
    ensures Built(t, lengths, i + 1)
  {
    hide BuildLabels, LabelsOf, Ascending;
    AscendingStep(lengths, i);
  }

  lemma IsBuilt(t: Trie, lengths: seq<byte>)
    requires |lengths| == ALPHABET_SIZE && Built(t, lengths, ALPHABET_SIZE)
    ensures t.Valid() && BuildLabels(lengths, Ascending(ALPHABET_SIZE)) == Some(LabelsOf(t.nodes))
  {
  }

  lemma NothingBuilt(lengths: seq<byte>)
    requires |lengths| == ALPHABET_SIZE
    ensures BuildLabels(lengths, Ascending(0)) == Some(map[[] := 0])
  {
  }

  lemma AscendingStep(lengths: seq<byte>, k: nat)
    requires |lengths| == ALPHABET_SIZE && k < ALPHABET_SIZE
    ensures BuildLabels(lengths, Ascending(k + 1)) ==
            match BuildLabels(lengths, Ascending(k))
            case None => None
            case Some(m) => if lengths[k] == 0 then Some(m) else Grow(m, Code(lengths, k), 0, k)
  {
    assert Ascending(k + 1)[..k] == Ascending(k);
  }

  /** A conflict is never undone. */
  lemma {:induction false} StuckFrom(lengths: seq<byte>, k: nat, n: nat)
    requires |lengths| == ALPHABET_SIZE && k <= n <= ALPHABET_SIZE
    requires BuildLabels(lengths, Ascending(k)) == None
    ensures BuildLabels(lengths, Ascending(n)) == None
    decreases n
  {
    if k < n {
      StuckFrom(lengths, k, n - 1);
      AscendingStep(lengths, n - 1);
    }
  }

  // ----- what gets built -----------------------------------------------------------------------------------------

  /** Inserting fails exactly when the code's place is taken; otherwise the paths of the tree
      become those it had and the prefixes of the code. */
  lemma {:induction false} GrowResult(m: Labels, code: seq<bool>, k: nat, symbol: byte)
    requires k < |code|
    ensures Grow(m, code, k, symbol) == None <==> code in m
    ensures Grow(m, code, k, symbol).Some? ==>
              var r := Grow(m, code, k, symbol).value;
              && (forall p :: p in r <==> p in m || (IsPrefix(p, code) && |p| > k))
              && (forall p :: p in m ==> r[p] == m[p])
              && r[code] == symbol
    decreases |code| - k
  {
    var m' := WithInner(m, code[..k + 1]);
    if k + 1 < |code| {
      GrowResult(m', code, k + 1, symbol);
      forall p
        ensures IsPrefix(p, code) && |p| > k <==> p == code[..k + 1] || (IsPrefix(p, code) && |p| > k + 1)
      {
      }
    } else {
      forall p
        ensures IsPrefix(p, code) && |p| > k <==> p == code
      {
      }
    }
  }

  /** Lengths whose canonical codes the coder can use: at most 32 bits, Kraft's inequality. */
  ghost predicate Usable(lengths: seq<byte>)
  {
    && |lengths| == ALPHABET_SIZE
    && LengthsAtMost(lengths, 32)
    && TableKraft(lengths, 32) <= Pow2(32)
  }

  ghost predicate OnPath(lengths: seq<byte>, order: seq<byte>, p: seq<bool>)
    requires |lengths| == ALPHABET_SIZE
  {
    exists s :: s in order && lengths[s] > 0 && IsPrefix(p, Code(lengths, s))
  }

  /** The paths of m are the prefixes of the codes of the symbols in order, and every code
      leads to its symbol. */
  ghost predicate Represents(m: Labels, lengths: seq<byte>, order: seq<byte>)
    requires |lengths| == ALPHABET_SIZE
  {
    && (forall p :: p in m <==> p == [] || OnPath(lengths, order, p))
    && (forall s :: s in order && lengths[s] > 0 ==>
          Code(lengths, s) in m && m[Code(lengths, s)] == s)
  }

  predicate NoRepeats(order: seq<byte>)
  {
    forall i, j :: 0 <= i < j < |order| ==> order[i] != order[j]
  }

  lemma CodeNotOnPath(lengths: seq<byte>, order: seq<byte>, s: byte)
    requires Usable(lengths) && s !in order && lengths[s] > 0
    ensures !OnPath(lengths, order, Code(lengths, s))
  {
    hide Code, TableKraft;
    if t :| t in order && lengths[t] > 0 && IsPrefix(Code(lengths, s), Code(lengths, t)) {
      CodesPrefixFree(lengths, s, t, 32);
    }
  }

  lemma RepresentsOneMore(m: Labels, lengths: seq<byte>, order: seq<byte>, s: byte)
    requires Usable(lengths) && Represents(m, lengths, order) && s !in order && lengths[s] > 0
    ensures Grow(m, Code(lengths, s), 0, s).Some?
    ensures Represents(Grow(m, Code(lengths, s), 0, s).value, lengths, order + [s])
  {
    hide Code, TableKraft, Grow, IsPrefix, OnPath;
    CodeNotOnPath(lengths, order, s);
    var c := Code(lengths, s);
    assert |c| == lengths[s];
    GrowResult(m, c, 0, s);
    var r := Grow(m, c, 0, s).value;
    forall p
      ensures p in r <==> p == [] || OnPath(lengths, order + [s], p)
    {
      OnPathSnoc(lengths, order, s, p);
    }
    forall t | t in order + [s] && lengths[t] > 0
      ensures Code(lengths, t) in r && r[Code(lengths, t)] == t
    {
      assert t in order || t == s;
      if t == s { WholePrefix(c); }
    }
  }

  lemma WholePrefix(c: seq<bool>)
    ensures IsPrefix(c, c)
  {
    assert c[..|c|] == c;
  }

  lemma PrefixTake(c: seq<bool>, k: nat)
    requires k <= |c|
    ensures IsPrefix(c[..k], c)
    ensures k < |c| ==> IsPrefix(c[..k] + [c[k]], c)
  {
    if k < |c| { assert c[..k + 1] == c[..k] + [c[k]]; }
  }

  lemma PrefixShorten(c: seq<bool>, b: bool, d: seq<bool>)
    requires IsPrefix(c + [b], d)
    ensures IsPrefix(c, d) && |c| < |d|
  {
    assert d[..|c|] == (c + [b])[..|c|];
  }

  lemma OnPathSnoc(lengths: seq<byte>, order: seq<byte>, s: byte, p: seq<bool>)
    requires |lengths| == ALPHABET_SIZE
    ensures OnPath(lengths, order + [s], p)
       <==> OnPath(lengths, order, p) || (lengths[s] > 0 && IsPrefix(p, Code(lengths, s)))
  {
    hide Code, IsPrefix;
    assert s in order + [s];
    assert forall t :: t in order + [s] <==> t in order || t == s;
  }

  lemma RepresentsSkip(m: Labels, lengths: seq<byte>, order: seq<byte>, s: byte)
    requires |lengths| == ALPHABET_SIZE && Represents(m, lengths, order) && lengths[s] == 0
    ensures Represents(m, lengths, order + [s])
  {
    hide Code;
    forall p
      ensures OnPath(lengths, order + [s], p) <==> OnPath(lengths, order, p)
    {
      OnPathSnoc(lengths, order, s, p);
    }
    assert forall t <- order + [s] :: t in order || t == s;
  }

  /** Whatever the order of insertion, no conflict arises and the tree represents the codes. */
  lemma {:induction false} BuildInAnyOrder(lengths: seq<byte>, order: seq<byte>)
    requires Usable(lengths) && NoRepeats(order)
    ensures BuildLabels(lengths, order).Some?
    ensures Represents(BuildLabels(lengths, order).value, lengths, order)
  {
    hide Code, TableKraft, Grow, Represents;
    if order == [] {
      EmptyRepresents(lengths);
    } else {
      var front, s := order[..|order| - 1], order[|order| - 1];
      BuildInAnyOrder(lengths, front);
      var m := BuildLabels(lengths, front).value;
      assert order == front + [s];
      if lengths[s] == 0 {
        RepresentsSkip(m, lengths, front, s);
      } else {
        RepresentsOneMore(m, lengths, front, s);
      }
    }
  }

  lemma EmptyRepresents(lengths: seq<byte>)
    requires |lengths| == ALPHABET_SIZE
    ensures Represents(map[[] := 0], lengths, [])
  {
  }

  lemma PathsOf(m: Labels, lengths: seq<byte>, order: seq<byte>, p: seq<bool>, s: byte)
    requires |lengths| == ALPHABET_SIZE && Represents(m, lengths, order)
    requires s in order && lengths[s] > 0 && IsPrefix(p, Code(lengths, s))
    ensures p in m
  {
    hide Code, IsPrefix;
    assert OnPath(lengths, order, p);
  }

  lemma CodeLeads(m: Labels, lengths: seq<byte>, order: seq<byte>, s: byte)
    requires |lengths| == ALPHABET_SIZE && Represents(m, lengths, order) && s in order && lengths[s] > 0
    ensures Code(lengths, s) in m && m[Code(lengths, s)] == s
  {
    hide Code, OnPath;
  }

  /** In a tree that represents the codes, the code of a symbol ends in a leaf with that symbol,
      and on the way there is no leaf and no gap. */
  lemma CodePath(m: Labels, lengths: seq<byte>, order: seq<byte>, s: byte, k: nat)
    requires Usable(lengths) && NoRepeats(order) && Represents(m, lengths, order)
    requires s in order && lengths[s] > 0 && 0 < k <= lengths[s]
    ensures Code(lengths, s)[..k] in m
    ensures IsLeaf(m, Code(lengths, s)[..k]) <==> k == lengths[s]
    ensures k == lengths[s] ==> m[Code(lengths, s)[..k]] == s
  {
    hide Code, TableKraft, IsPrefix, NoRepeats, Represents, OnPath;
    var c := Code(lengths, s);
    PrefixTake(c, k);
    PathsOf(m, lengths, order, c[..k], s);
    if k < lengths[s] {
      PathsOf(m, lengths, order, c[..k] + [c[k]], s);
      assert c[k] ==> c[..k] + [true] in m;
      assert !c[k] ==> c[..k] + [false] in m;
    } else {
      assert c[..k] == c;
      CodeLeads(m, lengths, order, s);
      NoLongerPath(m, lengths, order, s, false);
      NoLongerPath(m, lengths, order, s, true);
    }
  }

  lemma NoLongerPath(m: Labels, lengths: seq<byte>, order: seq<byte>, s: byte, b: bool)
    requires Usable(lengths) && Represents(m, lengths, order)
    requires s in order && lengths[s] > 0
    ensures Code(lengths, s) + [b] !in m
  {
    hide Code, TableKraft, IsPrefix;
    var c := Code(lengths, s);
    assert c + [b] in m ==> OnPath(lengths, order, c + [b]);
    if OnPath(lengths, order, c + [b]) {
      var t :| t in order && lengths[t] > 0 && IsPrefix(c + [b], Code(lengths, t));
      PrefixShorten(c, b, Code(lengths, t));
      if t != s { CodesPrefixFree(lengths, s, t, 32); }
    }
  }
}
