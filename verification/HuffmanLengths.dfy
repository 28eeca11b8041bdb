/** Code lengths: how they are read off the tree, how long they get, what they add up to. */
module HuffmanLengths {
  import opened Bytes
  import opened HuffmanOptimality
  import opened HuffmanQueue
  import opened HuffmanTree

  // ----- the initial queue ---------------------------------------------------------------------------------------

  lemma EnqueueMembers(ts: seq<Tree>, t: Tree)
    ensures forall i :: 0 <= i <= |ts| ==> Enqueue(ts, t)[i] == t || Enqueue(ts, t)[i] in ts
  {
  }

  lemma {:induction false} LeafQueueForest(freq: seq<u32>, k: nat)
    requires k <= |freq| == ALPHABET_SIZE
    ensures Forest(LeafQueue(freq, k), freq)
    ensures forall i :: 0 <= i < |LeafQueue(freq, k)| ==>
              LeafQueue(freq, k)[i].Leaf? && LeafQueue(freq, k)[i].symbol < k
  {
    hide Enqueue;
    if k > 0 {
      LeafQueueForest(freq, k - 1);
      if freq[k - 1] > 0 {
        var ts, t := LeafQueue(freq, k - 1), Leaf(k - 1, freq[k - 1]);
        ForestEnqueue(ts, t, freq);
        EnqueueMembers(ts, t);
      }
    }
  }

  lemma {:induction false} LeafQueueSums(freq: seq<u32>, k: nat)
    requires k <= |freq| == ALPHABET_SIZE
    ensures Sum(Weights(LeafQueue(freq, k))) == Sum(freq[..k])
    ensures Sum(Costs(LeafQueue(freq, k))) == 0
  {
    if k > 0 {
      LeafQueueSums(freq, k - 1);
      assert freq[..k] == freq[..k - 1] + [freq[k - 1]];
      SumAppend(freq[..k - 1], [freq[k - 1]]);
      if freq[k - 1] > 0 { EnqueueSums(LeafQueue(freq, k - 1), Leaf(k - 1, freq[k - 1])); }
    }
  }

  /** The symbols below k that occur. */
  function Used(freq: seq<u32>, k: nat): set<byte>
    requires k <= |freq| == ALPHABET_SIZE
  {
    set s: byte | s < k && freq[s] > 0
  }

  lemma {:induction false} LeafQueueSymbols(freq: seq<u32>, k: nat)
    requires k <= |freq| == ALPHABET_SIZE
    ensures AllSymbols(LeafQueue(freq, k)) == Used(freq, k)
    ensures |LeafQueue(freq, k)| == |Used(freq, k)|
  {
    hide Enqueue;
    UsedStep(freq, k);
    if k > 0 {
      LeafQueueSymbols(freq, k - 1);
      if freq[k - 1] > 0 {
        EnqueueSymbols(LeafQueue(freq, k - 1), Leaf(k - 1, freq[k - 1]));
      }
    }
  }

  lemma UsedStep(freq: seq<u32>, k: nat)
    requires k <= |freq| == ALPHABET_SIZE
    ensures Used(freq, k) == if k == 0 then {} else if freq[k - 1] > 0 then Used(freq, k - 1) + {k - 1} else Used(freq, k - 1)
    ensures k > 0 ==> k - 1 !in Used(freq, k - 1)
  {
  }

  // ----- depth ---------------------------------------------------------------------------------------------------

  function Fib(n: nat): nat
  {
    if n <= 1 then n else Fib(n - 1) + Fib(n - 2)
  }

  /** A tree of height h weighs at least Fib(h + 2). */
  lemma {:induction false} FibonacciDepth(t: Tree)
    requires WellMerged(t) && Exact(t)
    ensures Fib(Height(t) + 2) <= t.freq
    decreases t, 0
  {
    if t.Node? {
      if Height(t.left) >= Height(t.right) {
        FibonacciSibling(t.left, t.right);
      } else {
        FibonacciSibling(t.right, t.left);
      }
    }
  }

  /** The sibling u of a tree t of height h weighs at least Fib(h + 1). */
  lemma {:induction false} FibonacciSibling(t: Tree, u: Tree)
    requires WellMerged(t) && Exact(t) && WellMerged(u) && HeavierChild(t) <= u.freq
    ensures Fib(Height(t) + 1) <= u.freq
    ensures Fib(Height(t) + 2) <= t.freq
    decreases t, 1
  {
    FibonacciDepth(t);
    if t.Node? {
      FibonacciDepth(t.left);
      FibonacciDepth(t.right);
    }
  }

  lemma {:induction false} FibMonotone(a: nat, b: nat)
    requires a <= b
    ensures Fib(a) <= Fib(b)
    decreases b - a
  {
    if a < b {
      FibMonotone(a, b - 1);
      if b == 1 { assert a == 0; }
    }
  }

  // ----- the lengths table ---------------------------------------------------------------------------------------

  /** The table after visiting t, whose root is len levels down. A lone root gets one bit. */
  function WriteLengths(t: Tree, len: nat, lengths: seq<byte>): (r: seq<byte>)
    requires |lengths| == ALPHABET_SIZE
    ensures |r| == ALPHABET_SIZE
    decreases t
  {
    if t.Leaf? then lengths[t.symbol := if len == 0 then 1 else len % 256]
    else WriteLengths(t.right, len + 1, WriteLengths(t.left, len + 1, lengths))
  }

  method GenerateLengths(root: Tree, lengths: array<byte>, len: nat)
    requires lengths.Length == ALPHABET_SIZE
    modifies lengths
    ensures lengths[..] == WriteLengths(root, len, old(lengths[..]))
    decreases root
  {
    if root.Leaf? {
      if len == 0 {
        lengths[root.symbol] := 1;
      } else {
        lengths[root.symbol] := len % 256;
      }
      return;
    }
    GenerateLengths(root.left, lengths, len + 1);
    GenerateLengths(root.right, lengths, len + 1);
  }

  function NoLengths(): (r: seq<byte>)
    ensures |r| == ALPHABET_SIZE && forall i :: 0 <= i < ALPHABET_SIZE ==> r[i] == 0
  {
    seq(ALPHABET_SIZE, _ => 0)
  }

  /** The lengths that a table of frequencies leads to; all zero when no symbol occurs. */
  function LengthTable(freq: seq<u32>): (r: seq<byte>)
    requires |freq| == ALPHABET_SIZE
    ensures |r| == ALPHABET_SIZE
  {
    match HuffmanRoot(freq)
    case None => NoLengths()
    case Some(root) => WriteLengths(root, 0, NoLengths())
  }

  /** Kraft sum of the symbols that have a code, scaled by 2^m. */
  function TableKraft(lengths: seq<byte>, m: nat): nat
    requires forall i :: 0 <= i < |lengths| ==> lengths[i] <= m
  {
    if lengths == [] then 0
    else (if lengths[0] > 0 then Pow2(m - lengths[0]) else 0) + TableKraft(lengths[1..], m)
  }

  predicate LengthsAtMost(lengths: seq<byte>, m: nat)
  {
    forall i :: 0 <= i < |lengths| ==> lengths[i] <= m
  }

  lemma {:induction false} TableKraftSet(lengths: seq<byte>, s: nat, len: byte, m: nat)
    requires s < |lengths| && lengths[s] == 0 && 0 < len <= m && LengthsAtMost(lengths, m)
    ensures LengthsAtMost(lengths[s := len], m)
    ensures TableKraft(lengths[s := len], m) == TableKraft(lengths, m) + Pow2(m - len)
  {
    if s == 0 {
      assert lengths[s := len][1..] == lengths[1..];
    } else {
      assert lengths[s := len][1..] == lengths[1..][s - 1 := len];
      TableKraftSet(lengths[1..], s - 1, len, m);
    }
  }

  lemma {:induction false} HeightBelowSymbols(t: Tree)
    requires DistinctSymbols(t)
    ensures Height(t) < |Symbols(t)|
  {
    if t.Node? {
      HeightBelowSymbols(t.left);
      HeightBelowSymbols(t.right);
      assert |Symbols(t)| == |Symbols(t.left)| + |Symbols(t.right)|;
    }
  }

  lemma {:induction false} AtMostAlphabet(ss: set<byte>, k: nat)
    requires k <= ALPHABET_SIZE && forall s <- ss :: s < k
    ensures |ss| <= k
  {
    if k > 0 {
      AtMostAlphabet(ss - {k - 1}, k - 1);
      if k - 1 in ss { assert |ss - {k - 1}| == |ss| - 1; } else { assert ss - {k - 1} == ss; }
    } else {
      assert ss == {};
    }
  }

  predicate Fresh(lengths: seq<byte>, ss: set<byte>)
    requires |lengths| == ALPHABET_SIZE
  {
    forall s <- ss :: lengths[s] == 0
  }

  /** Outside the tree's symbols nothing changes; inside, lengths lie between len and the height. */
  lemma {:induction false} WriteLengthsRange(t: Tree, len: nat, lengths: seq<byte>)
    requires |lengths| == ALPHABET_SIZE && len + Height(t) < 256 && len > 0
    ensures forall s: byte :: s !in Symbols(t) ==> WriteLengths(t, len, lengths)[s] == lengths[s]
    ensures DistinctSymbols(t) ==>
              forall s: byte :: s in Symbols(t) ==> len <= WriteLengths(t, len, lengths)[s] <= len + Height(t)
    decreases t
  {
    if t.Node? {
      var a := WriteLengths(t.left, len + 1, lengths);
      WriteLengthsRange(t.left, len + 1, lengths);
      WriteLengthsRange(t.right, len + 1, a);
    }
  }

  /** Some symbol sits at the very bottom. */
  lemma {:induction false} DeepestSymbol(t: Tree, len: nat, lengths: seq<byte>) returns (s: byte)
    requires |lengths| == ALPHABET_SIZE && len + Height(t) < 256 && len > 0 && DistinctSymbols(t)
    ensures s in Symbols(t) && WriteLengths(t, len, lengths)[s] == len + Height(t)
    decreases t
  {
    if t.Leaf? {
      s := t.symbol;
    } else {
      var a := WriteLengths(t.left, len + 1, lengths);
      WriteLengthsRange(t.right, len + 1, a);
      if Height(t.left) >= Height(t.right) {
        s := DeepestSymbol(t.left, len + 1, lengths);
      } else {
        s := DeepestSymbol(t.right, len + 1, a);
      }
    }
  }

  /** At a leaf one length is set. */
  lemma WriteLeaf(t: Tree, len: nat, lengths: seq<byte>)
    requires |lengths| == ALPHABET_SIZE && t.Leaf? && 0 < len < 256
    ensures WriteLengths(t, len, lengths) == lengths[t.symbol := len]
    ensures Fresh(lengths, Symbols(t)) ==> lengths[t.symbol] == 0
  {
  }

  /** At a node the left subtree is written, which leaves the symbols of the right one fresh, then the right one. */
  lemma WriteNode(t: Tree, len: nat, lengths: seq<byte>)
    requires |lengths| == ALPHABET_SIZE && t.Node? && len + Height(t) < 256
    requires DistinctSymbols(t) && Fresh(lengths, Symbols(t))
    ensures var a := WriteLengths(t.left, len + 1, lengths);
            && WriteLengths(t, len, lengths) == WriteLengths(t.right, len + 1, a)
            && Fresh(lengths, Symbols(t.left)) && Fresh(a, Symbols(t.right))
    ensures DistinctSymbols(t.left) && DistinctSymbols(t.right)
    ensures Height(t.left) < Height(t) && Height(t.right) < Height(t)
  {
    WriteLengthsRange(t.left, len + 1, lengths);
  }

  lemma {:induction false} WriteLengthsKraft(t: Tree, len: nat, lengths: seq<byte>, m: nat)
    requires |lengths| == ALPHABET_SIZE && 0 < len && len + Height(t) <= m <= 255
    requires DistinctSymbols(t) && Fresh(lengths, Symbols(t)) && LengthsAtMost(lengths, m)
    ensures LengthsAtMost(WriteLengths(t, len, lengths), m)
    ensures TableKraft(WriteLengths(t, len, lengths), m) == TableKraft(lengths, m) + Pow2(m - len)
    decreases t
  {
    hide WriteLengths, Fresh, DistinctSymbols, Symbols, TableKraft, LengthsAtMost, Height;
    if t.Leaf? {
      WriteLeaf(t, len, lengths);
      TableKraftSet(lengths, t.symbol, len, m);
    } else {
      var a := WriteLengths(t.left, len + 1, lengths);
      WriteNode(t, len, lengths);
      WriteLengthsKraft(t.left, len + 1, lengths, m);
      WriteLengthsKraft(t.right, len + 1, a, m);
      TwoHalves(m - len);
    }
  }

  lemma TwoHalves(k: nat)
    requires k > 0
    ensures Pow2(k - 1) + Pow2(k - 1) == Pow2(k)
  {
  }

  /** What the table costs on the given frequencies: the tree's cost, plus the depth of its root. */
  lemma {:induction false} WriteLengthsCost(t: Tree, len: nat, lengths: seq<byte>, freq: seq<u32>)
    requires |lengths| == |freq| == ALPHABET_SIZE && 0 < len && len + Height(t) < 256
    requires Exact(t) && DistinctSymbols(t) && LeavesMatch(t, freq) && Fresh(lengths, Symbols(t))
    ensures Dot(freq, WriteLengths(t, len, lengths)) == Dot(freq, lengths) + Cost(t) + len * t.freq
    decreases t
  {
    hide WriteLengths, Fresh, DistinctSymbols, Symbols, Dot, Height;
    if t.Leaf? {
      WriteLeaf(t, len, lengths);
      DotUpdate(freq, lengths, t.symbol, len);
    } else {
      var a := WriteLengths(t.left, len + 1, lengths);
      WriteNode(t, len, lengths);
      WriteLengthsCost(t.left, len + 1, lengths, freq);
      WriteLengthsCost(t.right, len + 1, a, freq);
      OneLevelDown(len, t.left.freq, t.right.freq);
    }
  }

  lemma OneLevelDown(len: nat, l: nat, r: nat)
    ensures (len + 1) * l + (len + 1) * r == len * (l + r) + l + r
  {
  }
}
