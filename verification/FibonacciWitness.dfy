/** The Fibonacci bound is met: buffers whose longest code is as long as their size allows. */
module FibonacciWitness {
  import opened Bytes
  import opened HuffmanOptimality
  import opened HuffmanQueue
  import opened HuffmanTree
  import opened HuffmanLengths
  import opened HuffmanResults
  import opened HuffmanCodec
  import opened HuffmanLimits

  /** Largest depth considered; the weights stay below 2^32. */
  const MAX_DEPTH: nat := 33

  /** How often symbol i occurs: once for 0, else the i-th Fibonacci number. */
  function Weight(i: nat): (w: nat)
    ensures w > 0
  {
    WeightPositive(i);
    if i == 0 then 1 else Fib(i)
  }

  lemma {:induction false} WeightPositive(i: nat)
    ensures i > 0 ==> Fib(i) > 0
    decreases i
  {
    if i > 2 { WeightPositive(i - 1); }
  }

  /** Symbols 0 to d, each as often as its weight. */
  function FibBuffer(d: nat): (b: seq<byte>)
    requires d < ALPHABET_SIZE
    ensures |b| == Fib(d + 2)
  {
    if d == 0 then Copies(0, 1) else FibBuffer(d - 1) + Copies(d, Weight(d))
  }

  function Copies(s: byte, n: nat): (c: seq<byte>)
    ensures |c| == n
  {
    seq(n, _ => s)
  }

  lemma {:induction false} CopiesCount(s: byte, n: nat, t: byte)
    ensures multiset(Copies(s, n))[t] == if s == t then n else 0
  {
    if n > 0 {
      CopiesCount(s, n - 1, t);
      assert Copies(s, n) == Copies(s, n - 1) + [s];
    }
  }

  lemma {:induction false} FibBufferCount(d: nat, t: byte)
    requires d < ALPHABET_SIZE
    ensures multiset(FibBuffer(d))[t] == if t <= d then Weight(t) else 0
  {
    hide Weight;
    CopiesCount(d, Weight(d), t);
    if d == 0 {
      WeightOfZero();
    } else {
      FibBufferCount(d - 1, t);
    }
  }

  lemma WeightOfZero()
    ensures Weight(0) == Weight(1) == Weight(2) == 1
  {
  }

  // ----- the leaves in the queue ---------------------------------------------------------------------------------

  /** Leaves with weights 0 to n - 1, in order. */
  predicate LeavesQueued(ts: seq<Tree>, n: nat)
  {
    |ts| == n && forall i :: 0 <= i < n ==> ts[i].Leaf? && ts[i].freq == Weight(i)
  }

  lemma FibSum(i: nat)
    ensures Fib(i + 2) == Fib(i) + Fib(i + 1)
  {
  }

  lemma WeightsRise(i: nat, j: nat)
    requires i <= j
    ensures Weight(i) <= Weight(j) && (3 <= j && i < j ==> Weight(i) < Weight(j))
  {
    hide Fib;
    WeightOfZero();
    if i == 0 && j > 0 { FibMonotone(1, j); }
    if i > 0 { FibMonotone(i, j); }
    if 3 <= j && i < j {
      FibMonotone(if i == 0 then 1 else i, j - 1);
      FibMonotone(1, j - 2);
      FibSum(j - 2);
      assert Fib(1) == 1 by { WeightOfZero(); }
    }
  }

  lemma {:induction false} PassAll(ws: seq<nat>, x: nat, k: nat)
    requires k <= |ws| && forall i :: k <= i < |ws| ==> ws[i] < x
    ensures FirstNotLighter(ws, x, k) == |ws|
    decreases |ws| - k
  {
    PassLighter(ws, x, k);
    if k < |ws| { PassAll(ws, x, k + 1); }
  }

  /** A leaf that weighs no less than the others keeps the weights in order. */
  lemma EnqueueLeaf(ts: seq<Tree>, n: nat, leaf: Tree)
    requires LeavesQueued(ts, n) && leaf.Leaf? && leaf.freq == Weight(n)
    ensures LeavesQueued(Enqueue(ts, leaf), n + 1)
  {
    hide Weight;
    var ws, k := Weights(ts), InsertPos(Weights(ts), leaf.freq);
    forall i | 0 <= i < n
      ensures ws[i] <= leaf.freq && (3 <= n ==> ws[i] < leaf.freq)
    {
      WeightsRise(i, n);
    }
    WeightOfZero();
    if n >= 3 { PassAll(ws, leaf.freq, 1); }
    assert n >= 3 ==> k == n;
  }

  lemma {:induction false} LeavesInOrder(freq: seq<u32>, d: nat, k: nat)
    requires |freq| == ALPHABET_SIZE && k <= ALPHABET_SIZE && d < ALPHABET_SIZE
    requires forall t: byte :: freq[t] == if t <= d then Weight(t) else 0
    ensures LeavesQueued(LeafQueue(freq, k), Min(k, d + 1))
  {
    hide Weight, LeavesQueued, Enqueue;
    if k == 0 {
      NoLeaves();
    } else {
      LeavesInOrder(freq, d, k - 1);
      var t: byte := k - 1;
      if t <= d { EnqueueLeaf(LeafQueue(freq, k - 1), k - 1, Leaf(t, freq[t])); }
    }
  }

  lemma NoLeaves()
    ensures LeavesQueued([], 0)
  {
  }

  // ----- the chain -----------------------------------------------------------------------------------------------

  /** After j merges: one leaf, the chain of height j, and the remaining leaves. */
  predicate ChainQueued(ts: seq<Tree>, j: nat, d: nat)
  {
    && 1 <= j < d && |ts| == d - j + 1
    && ts[0].Leaf? && ts[0].freq == Fib(j + 1)
    && Height(ts[1]) == j && ts[1].freq == Fib(j + 2)
    && forall i :: 2 <= i < |ts| ==> ts[i].Leaf? && ts[i].freq == Fib(i + j)
  }

  /** A new tree goes behind the head when neither head nor next is heavier or lighter. */
  lemma EnqueueSecond(ts: seq<Tree>, t: Tree)
    requires |ts| >= 1 && ts[0].freq <= t.freq && (|ts| >= 2 ==> t.freq <= ts[1].freq)
    ensures Enqueue(ts, t) == [ts[0], t] + ts[1..]
  {
    assert InsertPos(Weights(ts), t.freq) == 1;
  }

  lemma MergedTree(l: Tree, r: Tree)
    requires l.freq + r.freq < 0x1_0000_0000
    ensures Merge(l, r).freq == l.freq + r.freq
    ensures Height(Merge(l, r)) == 1 + Max(Height(l), Height(r))
  {
  }

  lemma FirstMerge(ts: seq<Tree>, d: nat)
    requires LeavesQueued(ts, d + 1) && 2 <= d
    ensures ChainQueued(MergeStep(ts), 1, d)
  {
    hide Height, Fib, Merge, Enqueue;
    WeightOfZero();
    FibSum(1);
    MergedTree(ts[0], ts[1]);
    LeafHeights(ts);
    var rest := ts[2..];
    assert forall i :: 0 <= i < |rest| ==> rest[i] == ts[i + 2] && rest[i].freq == Weight(i + 2);
    if d >= 3 { assert rest[1].freq == Fib(3); }
    assert rest[0].freq == Weight(2);
    EnqueueSecond(rest, Merge(ts[0], ts[1]));
    FibAtTwo();
  }

  lemma FibAtTwo()
    ensures Fib(1) == Fib(2) == 1 && Fib(3) == 2
  {
  }

  lemma LeafHeights(ts: seq<Tree>)
    ensures forall i :: 0 <= i < |ts| && ts[i].Leaf? ==> Height(ts[i]) == 0
  {
  }

  lemma ChainStep(ts: seq<Tree>, j: nat, d: nat)
    requires ChainQueued(ts, j, d) && j + 1 < d <= MAX_DEPTH
    ensures ChainQueued(MergeStep(ts), j + 1, d)
  {
    hide Height, Fib, Merge, Enqueue;
    FibSum(j + 1);
    FibMonotone(j + 3, 35);
    FibValues();
    MergedTree(ts[0], ts[1]);
    LeafHeights(ts);
    var rest := ts[2..];
    assert forall i :: 0 <= i < |rest| ==> rest[i] == ts[i + 2];
    FibMonotone(j + 2, j + 3);
    EnqueueSecond(rest, Merge(ts[0], ts[1]));
  }

  lemma {:induction false} ChainHeight(ts: seq<Tree>, j: nat, d: nat)
    requires ChainQueued(ts, j, d) && d <= MAX_DEPTH
    ensures Height(Build(ts)) == d
    decreases d - j
  {
    hide Height, Fib, MergeStep;
    BuildUnfold(ts);
    if j + 1 < d {
      ChainStep(ts, j, d);
      ChainHeight(MergeStep(ts), j + 1, d);
    } else {
      LastMerge(ts, d);
    }
  }

  lemma LastMerge(ts: seq<Tree>, d: nat)
    requires 2 <= d <= MAX_DEPTH && ChainQueued(ts, d - 1, d)
    ensures |MergeStep(ts)| == 1 && Height(Build(MergeStep(ts))) == d
  {
    hide Fib;
    FibSum(d);
    FibMonotone(d + 2, 35);
    FibValues();
    LeafHeights(ts);
    MergedTree(ts[0], ts[1]);
    var t := Merge(ts[0], ts[1]);
    assert ts[2..] == [] && Enqueue([], t) == [t];
    BuildUnfold([t]);
  }

  // ----- the bound is met ----------------------------------------------------------------------------------------

  /** Fib(d + 2) bytes can need a code of d bits: the Fibonacci bound cannot be improved. */
  lemma BoundIsMet(d: nat) returns (s: byte)
    requires 2 <= d <= MAX_DEPTH
    ensures Fib(d + 2) < 0x1_0000_0000
    ensures LengthTable(Freqs(FibBuffer(d)))[s] == d
  {
    hide Fib, LengthTable, Freqs, FibBuffer, Weight, HuffmanRoot, LeafQueue, MergeStep, Height;
    FibMonotone(d + 2, 35);
    FibMonotone(2, d + 2);
    FibAtTwo();
    FibValues();
    var freq := Freqs(FibBuffer(d));
    FreqsCount(FibBuffer(d));
    forall t: byte
      ensures freq[t] == if t <= d then Weight(t) else 0
    {
      FibBufferCount(d, t);
    }
    LeavesInOrder(freq, d, ALPHABET_SIZE);
    var ts := LeafQueue(freq, ALPHABET_SIZE);
    FirstMerge(ts, d);
    BuildUnfold(ts);
    ChainHeight(MergeStep(ts), 1, d);
    s := LongestCode(freq);
    RootIsBuilt(freq);
  }

  lemma RootIsBuilt(freq: seq<u32>)
    requires |freq| == ALPHABET_SIZE && LeafQueue(freq, ALPHABET_SIZE) != []
    ensures HuffmanRoot(freq) == Some(Build(LeafQueue(freq, ALPHABET_SIZE)))
  {
  }

  /** One byte more than the limit: a buffer of 9227465 bytes that does not survive Huffman coding. */
  lemma FirstFailure()
    ensures |FibBuffer(MAX_DEPTH)| == 9227465
    ensures Encoded(FibBuffer(MAX_DEPTH)).Some?
    ensures Decoded(Encoded(FibBuffer(MAX_DEPTH)).value) != Some(FibBuffer(MAX_DEPTH))
  {
    hide Fib, LengthTable, Freqs, FibBuffer, Encoded, Decoded;
    FibValues();
    var buf := FibBuffer(MAX_DEPTH);
    var s := BoundIsMet(MAX_DEPTH);
    assert !LengthsAtMost(LengthTable(Freqs(buf)), 32);
    RoundTripIff(buf);
  }
}
