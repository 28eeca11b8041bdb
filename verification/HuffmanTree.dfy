/** Building the coding tree: its cost, its depth and the code lengths read off it. */
module HuffmanTree {
  import opened Bytes
  import opened HuffmanOptimality
  import opened HuffmanQueue

  // ----- the specification of the build loop ---------------------------------------------------------------------

  /** Merge the two heads until one tree is left. */
  function Build(ts: seq<Tree>): Tree
    requires ts != []
    decreases |ts|
  {
    if |ts| == 1 then ts[0] else Build(MergeStep(ts))
  }

  function MergeStep(ts: seq<Tree>): (r: seq<Tree>)
    requires |ts| >= 2
    ensures |r| == |ts| - 1
  {
    Enqueue(ts[2..], Merge(ts[0], ts[1]))
  }

  /** The leaves queued for the first k symbols. */
  function LeafQueue(freq: seq<u32>, k: nat): seq<Tree>
    requires k <= |freq| <= ALPHABET_SIZE
  {
    if k == 0 then []
    else if freq[k - 1] > 0 then Enqueue(LeafQueue(freq, k - 1), Leaf(k - 1, freq[k - 1]))
    else LeafQueue(freq, k - 1)
  }

  /** The root, or None when no symbol occurs. */
  function HuffmanRoot(freq: seq<u32>): Option<Tree>
    requires |freq| == ALPHABET_SIZE
  {
    var ts := LeafQueue(freq, ALPHABET_SIZE);
    if ts == [] then None else Some(Build(ts))
  }

  lemma LeafQueueUnfold(freq: seq<u32>, k: nat)
    requires k < |freq| <= ALPHABET_SIZE
    ensures LeafQueue(freq, 0) == []
    ensures LeafQueue(freq, k + 1)
         == if freq[k] > 0 then Enqueue(LeafQueue(freq, k), Leaf(k, freq[k])) else LeafQueue(freq, k)
  {
  }

  method QueueLeaves(freq: array<u32>) returns (queue: MinQueue)
    requires freq.Length == ALPHABET_SIZE
    ensures fresh(queue) && fresh(queue.cells) && queue.Valid()
    ensures queue.Trees() == LeafQueue(freq[..], ALPHABET_SIZE)
  {
    hide LeafQueue, Enqueue;
    queue := new MinQueue();
    ghost var f := freq[..];
    LeafQueueUnfold(f, 0);
    for i := 0 to ALPHABET_SIZE
      invariant fresh(queue) && fresh(queue.cells)
      invariant queue.Valid() && queue.Trees() == LeafQueue(f, i)
    {
      assert freq[..] == f;
      var n := freq[i];
      LeafQueueUnfold(f, i);
      if n > 0 {
        queue.Insert(Leaf(i, n));
      }
    }
  }

  /** Joins the two heads into one tree and queues it. */
  method MergeHeads(queue: MinQueue)
    requires queue.Valid() && |queue.cells| >= 2
    modifies queue, queue.cells
    ensures queue.Valid() && queue.Trees() == MergeStep(old(queue.Trees()))
    ensures fresh(set c <- queue.cells | c !in old(queue.cells))
  {
    ghost var before := queue.Trees();
    var l := queue.ExtractMin();
    var r := queue.ExtractMin();
    assert queue.Trees() == before[2..];
    queue.Insert(Merge(l.value, r.value));
  }

  lemma BuildUnfold(ts: seq<Tree>)
    requires ts != []
    ensures Build(ts) == if |ts| == 1 then ts[0] else Build(MergeStep(ts))
  {
  }

  method TreeBuild(freq: array<u32>) returns (root: Option<Tree>)
    requires freq.Length == ALPHABET_SIZE
    ensures root == HuffmanRoot(freq[..])
  {
    hide Build, MergeStep, LeafQueue;
    var queue := QueueLeaves(freq);
    ghost var ts := queue.Trees();
    if queue.head == null {
      return None;
    }
    while queue.head.next != null
      invariant fresh(queue) && fresh(queue.cells) && queue.Valid()
      invariant queue.cells != [] && Build(queue.Trees()) == Build(ts)
      decreases |queue.cells|
    {
      assert queue.cells[0].next == CellAt(queue.cells, 1);
      BuildUnfold(queue.Trees());
      MergeHeads(queue);
    }
    assert queue.cells[0].next == CellAt(queue.cells, 1);
    BuildUnfold(queue.Trees());
    root := queue.ExtractMin();
  }

  // ----- structure of a tree -------------------------------------------------------------------------------------

  function Height(t: Tree): nat
  {
    if t.Leaf? then 0 else 1 + Max(Height(t.left), Height(t.right))
  }

  function Symbols(t: Tree): set<byte>
  {
    if t.Leaf? then {t.symbol} else Symbols(t.left) + Symbols(t.right)
  }

  predicate DistinctSymbols(t: Tree)
  {
    t.Node? ==> DistinctSymbols(t.left) && DistinctSymbols(t.right) && Symbols(t.left) !! Symbols(t.right)
  }

  /** No sum has wrapped. */
  predicate Exact(t: Tree)
  {
    t.Node? ==> Exact(t.left) && Exact(t.right) && t.freq == t.left.freq + t.right.freq
  }

  /** Sum over the leaves of frequency times depth. */
  function Cost(t: Tree): nat
  {
    if t.Leaf? then 0 else Cost(t.left) + Cost(t.right) + t.left.freq + t.right.freq
  }

  /** Every leaf carries the frequency that the table gives its symbol. */
  predicate LeavesMatch(t: Tree, freq: seq<u32>)
    requires |freq| == ALPHABET_SIZE
  {
    if t.Leaf? then t.freq == freq[t.symbol] > 0 else LeavesMatch(t.left, freq) && LeavesMatch(t.right, freq)
  }

  // ----- the invariant of the forest -----------------------------------------------------------------------------

  /** The heavier child, or nothing for a leaf. */
  function HeavierChild(t: Tree): nat
  {
    if t.Leaf? then 0 else Max(t.left.freq, t.right.freq)
  }

  /** Two trees that may be siblings: neither is lighter than a child of the other. */
  predicate Balanced(t: Tree, u: Tree)
  {
    HeavierChild(t) <= u.freq && HeavierChild(u) <= t.freq
  }

  predicate WellMerged(t: Tree)
  {
    && t.freq >= 1
    && (t.Node? ==> WellMerged(t.left) && WellMerged(t.right) && Balanced(t.left, t.right))
  }

  predicate Good(t: Tree, freq: seq<u32>)
    requires |freq| == ALPHABET_SIZE
  {
    Exact(t) && DistinctSymbols(t) && WellMerged(t) && LeavesMatch(t, freq)
  }

  predicate Compatible(t: Tree, u: Tree)
  {
    Symbols(t) !! Symbols(u) && Balanced(t, u)
  }

  predicate Forest(ts: seq<Tree>, freq: seq<u32>)
    requires |freq| == ALPHABET_SIZE
  {
    && SortedTrees(ts)
    && (forall i :: 0 <= i < |ts| ==> Good(ts[i], freq))
    && (forall i, j :: 0 <= i < j < |ts| ==> Compatible(ts[i], ts[j]))
  }

  lemma ForestEnqueue(ts: seq<Tree>, t: Tree, freq: seq<u32>)
    requires |freq| == ALPHABET_SIZE && Forest(ts, freq) && Good(t, freq)
    requires forall i :: 0 <= i < |ts| ==> Compatible(t, ts[i])
    ensures Forest(Enqueue(ts, t), freq)
  {
    EnqueueKeepsSorted(ts, t);
    PairwiseInsertAt(ts, InsertPos(Weights(ts), t.freq), t, freq);
  }

  lemma CompatibleSymmetric(t: Tree, u: Tree)
    ensures Compatible(t, u) == Compatible(u, t)
  {
  }

  lemma PairwiseInsertAt(ts: seq<Tree>, k: nat, t: Tree, freq: seq<u32>)
    requires |freq| == ALPHABET_SIZE && k <= |ts| && Good(t, freq)
    requires forall i :: 0 <= i < |ts| ==> Good(ts[i], freq) && Compatible(t, ts[i])
    requires forall i, j :: 0 <= i < j < |ts| ==> Compatible(ts[i], ts[j])
    ensures forall i :: 0 <= i <= |ts| ==> Good(InsertAt(ts, k, t)[i], freq)
    ensures forall i, j :: 0 <= i < j <= |ts| ==> Compatible(InsertAt(ts, k, t)[i], InsertAt(ts, k, t)[j])
  {
    var r := InsertAt(ts, k, t);
    forall i | 0 <= i <= |ts|
      ensures r[i] == if i < k then ts[i] else if i == k then t else ts[i - 1]
    {
    }
    forall i, j | 0 <= i < j <= |ts|
      ensures Compatible(r[i], r[j])
    {
      if j == k { CompatibleSymmetric(t, ts[i]); }
    }
  }

  lemma MergedIsGood(ts: seq<Tree>, freq: seq<u32>)
    requires |freq| == ALPHABET_SIZE && Forest(ts, freq) && |ts| >= 2
    requires ts[0].freq + ts[1].freq < 0x1_0000_0000
    ensures Good(Merge(ts[0], ts[1]), freq)
    ensures forall i :: 0 <= i < |ts[2..]| ==> Compatible(Merge(ts[0], ts[1]), ts[2..][i])
  {
    assert Compatible(ts[0], ts[1]);
    forall i | 0 <= i < |ts[2..]|
      ensures Compatible(Merge(ts[0], ts[1]), ts[2..][i])
    {
      assert Compatible(ts[0], ts[i + 2]) && Compatible(ts[1], ts[i + 2]);
      assert Weights(ts)[1] <= Weights(ts)[i + 2] && Weights(ts)[0] <= Weights(ts)[1];
    }
  }

  // ----- sums over the forest ------------------------------------------------------------------------------------

  function Costs(ts: seq<Tree>): (cs: seq<nat>)
    ensures |cs| == |ts| && forall i :: 0 <= i < |ts| ==> cs[i] == Cost(ts[i])
  {
    seq(|ts|, i requires 0 <= i < |ts| => Cost(ts[i]))
  }

  function AllSymbols(ts: seq<Tree>): set<byte>
  {
    if ts == [] then {} else Symbols(ts[0]) + AllSymbols(ts[1..])
  }

  lemma {:induction false} AllSymbolsAppend(ts: seq<Tree>, us: seq<Tree>)
    ensures AllSymbols(ts + us) == AllSymbols(ts) + AllSymbols(us)
  {
    if ts == [] {
      assert ts + us == us;
    } else {
      assert (ts + us)[1..] == ts[1..] + us;
      AllSymbolsAppend(ts[1..], us);
    }
  }

  lemma AllSymbolsInsertAt(ts: seq<Tree>, k: nat, t: Tree)
    requires k <= |ts|
    ensures AllSymbols(InsertAt(ts, k, t)) == AllSymbols(ts) + Symbols(t)
  {
    AllSymbolsAppend(ts[..k] + [t], ts[k..]);
    AllSymbolsAppend(ts[..k], [t]);
    assert [t][1..] == [];
    assert ts == ts[..k] + ts[k..];
    AllSymbolsAppend(ts[..k], ts[k..]);
  }

  lemma SumInsertAt(xs: seq<int>, k: nat, x: int)
    requires k <= |xs|
    ensures Sum(InsertAt(xs, k, x)) == Sum(xs) + x
  {
    hide Sum;
    SumAppend(xs[..k] + [x], xs[k..]);
    SumAppend(xs[..k], [x]);
    SumOne(x);
    assert xs == xs[..k] + xs[k..];
    SumAppend(xs[..k], xs[k..]);
  }

  lemma EnqueueSums(ts: seq<Tree>, t: Tree)
    ensures Weights(Enqueue(ts, t)) == InsertAt(Weights(ts), InsertPos(Weights(ts), t.freq), t.freq)
    ensures Sum(Weights(Enqueue(ts, t))) == Sum(Weights(ts)) + t.freq
    ensures Sum(Costs(Enqueue(ts, t))) == Sum(Costs(ts)) + Cost(t)
  {
    var k := InsertPos(Weights(ts), t.freq);
    MapInsertAt(ts, k, t);
    SumInsertAt(Weights(ts), k, t.freq);
    SumInsertAt(Costs(ts), k, Cost(t));
  }

  lemma MapInsertAt(ts: seq<Tree>, k: nat, t: Tree)
    requires k <= |ts|
    ensures Weights(InsertAt(ts, k, t)) == InsertAt(Weights(ts), k, t.freq)
    ensures Costs(InsertAt(ts, k, t)) == InsertAt(Costs(ts), k, Cost(t))
  {
  }

  lemma EnqueueSymbols(ts: seq<Tree>, t: Tree)
    ensures AllSymbols(Enqueue(ts, t)) == AllSymbols(ts) + Symbols(t)
  {
    AllSymbolsInsertAt(ts, InsertPos(Weights(ts), t.freq), t);
  }

  lemma TwoHeads(xs: seq<int>)
    requires |xs| >= 2
    ensures Sum(xs) == xs[0] + xs[1] + Sum(xs[2..])
  {
    assert xs[1..][1..] == xs[2..];
  }

  lemma HeadsBound(ws: seq<nat>)
    requires |ws| >= 2
    ensures ws[0] + ws[1] <= Sum(ws)
  {
    TwoHeads(ws);
    SumNonNegative(ws[2..]);
  }

  /** One round keeps the forest, its total weight and its symbols, and pays for the merge. */
  lemma MergeStepSums(ts: seq<Tree>)
    requires |ts| >= 2 && Sum(Weights(ts)) < 0x1_0000_0000
    ensures Sum(Weights(MergeStep(ts))) == Sum(Weights(ts))
    ensures Sum(Costs(MergeStep(ts))) == Sum(Costs(ts)) + ts[0].freq + ts[1].freq
  {
    var n := Merge(ts[0], ts[1]);
    HeadsBound(Weights(ts));
    EnqueueSums(ts[2..], n);
    DropTwo(ts);
    assert n.freq == ts[0].freq + ts[1].freq;
    assert Cost(n) == Cost(ts[0]) + Cost(ts[1]) + n.freq;
  }

  lemma MergeStepSymbols(ts: seq<Tree>)
    requires |ts| >= 2
    ensures AllSymbols(MergeStep(ts)) == AllSymbols(ts)
  {
    EnqueueSymbols(ts[2..], Merge(ts[0], ts[1]));
    assert ts[1..][1..] == ts[2..];
  }

  lemma MergeStepCost(ts: seq<Tree>)
    requires |ts| >= 2 && Sum(Weights(ts)) < 0x1_0000_0000
    ensures MergeCost(Weights(ts)) == ts[0].freq + ts[1].freq + MergeCost(Weights(MergeStep(ts)))
  {
    hide MergeCost, Sum, InsertPos;
    var n, ws := Merge(ts[0], ts[1]), Weights(ts);
    HeadsBound(ws);
    assert ws[2..] == Weights(ts[2..]);
    assert n.freq == ws[0] + ws[1];
    EnqueueSums(ts[2..], n);
    MergeCostUnfold(ws, Weights(MergeStep(ts)));
  }

  lemma DropTwo(ts: seq<Tree>)
    requires |ts| >= 2
    ensures Weights(ts)[2..] == Weights(ts[2..])
    ensures Sum(Weights(ts)) == ts[0].freq + ts[1].freq + Sum(Weights(ts[2..]))
    ensures Sum(Costs(ts)) == Cost(ts[0]) + Cost(ts[1]) + Sum(Costs(ts[2..]))
  {
    TwoHeads(Weights(ts));
    TwoHeads(Costs(ts));
    assert Weights(ts)[2..] == Weights(ts[2..]) && Costs(ts)[2..] == Costs(ts[2..]);
  }

  /** What the build loop makes of a forest whose total weight fits a 32-bit word. */
  lemma {:induction false} BuildResult(ts: seq<Tree>, freq: seq<u32>)
    requires |freq| == ALPHABET_SIZE && Forest(ts, freq) && ts != []
    requires Sum(Weights(ts)) < 0x1_0000_0000
    ensures Good(Build(ts), freq)
    ensures Build(ts).freq == Sum(Weights(ts))
    ensures Symbols(Build(ts)) == AllSymbols(ts)
    ensures Cost(Build(ts)) == Sum(Costs(ts)) + MergeCost(Weights(ts))
    ensures Build(ts).Node? <==> |ts| >= 2 || ts[0].Node?
    decreases |ts|
  {
    if |ts| == 1 {
      assert ts[1..] == [];
      assert Weights(ts)[1..] == [] && Costs(ts)[1..] == [];
    } else {
      MergeStepForest(ts, freq);
      MergeStepSums(ts);
      MergeStepCost(ts);
      MergeStepSymbols(ts);
      BuildResult(MergeStep(ts), freq);
    }
  }

  lemma MergeStepForest(ts: seq<Tree>, freq: seq<u32>)
    requires |freq| == ALPHABET_SIZE && Forest(ts, freq) && |ts| >= 2
    requires Sum(Weights(ts)) < 0x1_0000_0000
    ensures Forest(MergeStep(ts), freq)
    ensures |ts| == 2 ==> MergeStep(ts)[0].Node?
  {
    HeadsBound(Weights(ts));
    MergedIsGood(ts, freq);
    var rest := ts[2..];
    assert forall i :: 0 <= i < |rest| ==> rest[i] == ts[i + 2];
    assert Forest(rest, freq);
    ForestEnqueue(rest, Merge(ts[0], ts[1]), freq);
  }
}
