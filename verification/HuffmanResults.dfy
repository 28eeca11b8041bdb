/** What the code lengths of a buffer guarantee: Kraft, depth, optimality, size. */
module HuffmanResults {
  import opened Bytes
  import opened HuffmanOptimality
  import opened HuffmanQueue
  import opened HuffmanTree
  import opened HuffmanLengths

  // ----- frequencies of a buffer ---------------------------------------------------------------------------------

  /** A buffer whose size fits the 32-bit size parameter. */
  type Buffer = b: seq<byte> | |b| < 0x1_0000_0000

  function Freqs(buf: Buffer): (f: seq<u32>)
    ensures |f| == ALPHABET_SIZE
    ensures forall s: byte :: f[s] <= |buf|
  {
    if buf == [] then seq(ALPHABET_SIZE, _ => 0)
    else
      var f, s := Freqs(buf[..|buf| - 1]), buf[|buf| - 1];
      f[s := f[s] + 1]
  }

  method CountFrequencies(buf: array<byte>) returns (freq: array<u32>)
    requires buf.Length < 0x1_0000_0000
    ensures fresh(freq) && freq[..] == Freqs(buf[..])
  {
    freq := new u32[ALPHABET_SIZE](_ => 0);
    assert freq[..] == Freqs([]);
    for i := 0 to buf.Length
      invariant freq[..] == Freqs(buf[..i])
    {
      assert buf[..i + 1][..i] == buf[..i];
      freq[buf[i]] := freq[buf[i]] + 1;
    }
    assert buf[..buf.Length] == buf[..];
  }

  lemma {:induction false} FreqsCount(buf: Buffer)
    ensures forall s: byte :: Freqs(buf)[s] == multiset(buf)[s]
    ensures Sum(Freqs(buf)) == |buf|
  {
    if buf == [] {
      ZeroSum(Freqs(buf));
    } else {
      var front, s := buf[..|buf| - 1], buf[|buf| - 1];
      FreqsCount(front);
      SumUpdate(Freqs(front), s, Freqs(front)[s] + 1);
      assert buf == front + [s];
    }
  }

  lemma {:induction false} ZeroSum(xs: seq<int>)
    requires forall i :: 0 <= i < |xs| ==> xs[i] == 0
    ensures Sum(xs) == 0
  {
    if xs != [] { ZeroSum(xs[1..]); }
  }

  // ----- the root of a table -------------------------------------------------------------------------------------

  lemma RootResult(freq: seq<u32>)
    requires |freq| == ALPHABET_SIZE && 0 < Sum(freq) < 0x1_0000_0000
    ensures HuffmanRoot(freq).Some?
    ensures Good(HuffmanRoot(freq).value, freq)
    ensures HuffmanRoot(freq).value.freq == Sum(freq)
    ensures Symbols(HuffmanRoot(freq).value) == Used(freq, ALPHABET_SIZE)
    ensures Cost(HuffmanRoot(freq).value) == MergeCost(Weights(LeafQueue(freq, ALPHABET_SIZE)))
    ensures HuffmanRoot(freq).value.Node? <==> |Used(freq, ALPHABET_SIZE)| >= 2
  {
    var ts := LeafQueue(freq, ALPHABET_SIZE);
    LeafQueueForest(freq, ALPHABET_SIZE);
    LeafQueueSums(freq, ALPHABET_SIZE);
    LeafQueueSymbols(freq, ALPHABET_SIZE);
    assert freq[..ALPHABET_SIZE] == freq;
    assert ts == [] ==> Weights(ts) == [];
    BuildResult(ts, freq);
  }

  lemma RootHeight(freq: seq<u32>)
    requires |freq| == ALPHABET_SIZE && 0 < Sum(freq) < 0x1_0000_0000
    ensures HuffmanRoot(freq).Some? && Height(HuffmanRoot(freq).value) < ALPHABET_SIZE
  {
    RootResult(freq);
    var t := HuffmanRoot(freq).value;
    HeightBelowSymbols(t);
    AtMostAlphabet(Symbols(t), ALPHABET_SIZE);
  }

  lemma {:induction false} ZeroTable(lengths: seq<byte>, m: nat)
    requires forall i :: 0 <= i < |lengths| ==> lengths[i] == 0
    ensures TableKraft(lengths, m) == 0
  {
    if lengths != [] { ZeroTable(lengths[1..], m); }
  }

  lemma {:induction false} ZeroDot(ws: seq<nat>, ls: seq<nat>)
    requires |ws| == |ls| && forall i :: 0 <= i < |ls| ==> ls[i] == 0
    ensures Dot(ws, ls) == 0
  {
    if ls != [] { ZeroDot(ws[1..], ls[1..]); }
  }

  /** The lengths the tree of a table writes: positive exactly on its symbols, and never above its height. */
  lemma RootRange(t: Tree)
    requires DistinctSymbols(t) && Height(t) < ALPHABET_SIZE
    ensures forall s: byte :: WriteLengths(t, 0, NoLengths())[s] > 0 <==> s in Symbols(t)
    ensures forall s: byte :: WriteLengths(t, 0, NoLengths())[s] <= Max(1, Height(t))
  {
    if t.Node? {
      WriteLengthsRange(t.left, 1, NoLengths());
      WriteLengthsRange(t.right, 1, WriteLengths(t.left, 1, NoLengths()));
    }
  }

  /** Exactly the symbols that occur get a code, and no code is longer than the tree is high. */
  lemma LengthsUsed(freq: seq<u32>)
    requires |freq| == ALPHABET_SIZE && 0 < Sum(freq) < 0x1_0000_0000
    ensures forall s: byte :: LengthTable(freq)[s] > 0 <==> freq[s] > 0
    ensures HuffmanRoot(freq).Some?
    ensures LengthsAtMost(LengthTable(freq), Max(1, Height(HuffmanRoot(freq).value)))
  {
    hide HuffmanRoot, Sum, Height, WriteLengths, DistinctSymbols, Symbols;
    RootResult(freq);
    RootHeight(freq);
    RootRange(HuffmanRoot(freq).value);
    forall i | 0 <= i < ALPHABET_SIZE
      ensures LengthTable(freq)[i] <= Max(1, Height(HuffmanRoot(freq).value))
    {
      var s: byte := i;
    }
  }

  /** The longest code is as long as the tree is high. */
  lemma LongestCode(freq: seq<u32>) returns (s: byte)
    requires |freq| == ALPHABET_SIZE && 0 < Sum(freq) < 0x1_0000_0000
    ensures HuffmanRoot(freq).Some? && freq[s] > 0
    ensures LengthTable(freq)[s] == Max(1, Height(HuffmanRoot(freq).value))
  {
    RootResult(freq);
    RootHeight(freq);
    LengthsUsed(freq);
    var t := HuffmanRoot(freq).value;
    if t.Leaf? {
      s := t.symbol;
    } else {
      var a := WriteLengths(t.left, 1, NoLengths());
      WriteLengthsRange(t.right, 1, a);
      if Height(t.left) >= Height(t.right) {
        s := DeepestSymbol(t.left, 1, NoLengths());
      } else {
        s := DeepestSymbol(t.right, 1, a);
      }
    }
  }

  /** Kraft equality, except for a lone symbol, which gets one bit. */
  lemma LengthsKraft(freq: seq<u32>, m: nat)
    requires |freq| == ALPHABET_SIZE && 0 < Sum(freq) < 0x1_0000_0000 && m <= 255
    requires LengthsAtMost(LengthTable(freq), m)
    ensures |Used(freq, ALPHABET_SIZE)| >= 2 ==> TableKraft(LengthTable(freq), m) == Pow2(m)
    ensures |Used(freq, ALPHABET_SIZE)| <= 1 ==> 2 * TableKraft(LengthTable(freq), m) == Pow2(m)
  {
    hide Used, TableKraft, LengthTable, HuffmanRoot, Sum, Good, Height, Fresh, Symbols, DistinctSymbols, LengthsAtMost;
    RootResult(freq);
    RootFresh(freq);
    HeightFits(freq, m);
    var t := HuffmanRoot(freq).value;
    if t.Leaf? {
      KraftOfLeaf(t, m);
    } else {
      KraftOfNode(t, m);
    }
  }

  lemma EmptyTable(m: nat)
    ensures LengthsAtMost(NoLengths(), m) && TableKraft(NoLengths(), m) == 0
  {
    ZeroTable(NoLengths(), m);
  }

  lemma KraftOfLeaf(t: Tree, m: nat)
    requires t.Leaf? && 0 < m <= 255
    ensures var table := NoLengths()[t.symbol := 1]; LengthsAtMost(table, m) && 2 * TableKraft(table, m) == Pow2(m)
  {
    hide TableKraft, LengthsAtMost;
    EmptyTable(m);
    TableKraftSet(NoLengths(), t.symbol, 1, m);
    TwoHalves(m);
  }

  lemma KraftOfNode(t: Tree, m: nat)
    requires t.Node? && DistinctSymbols(t) && Height(t) <= m <= 255 && Fresh(NoLengths(), Symbols(t))
    ensures var table := WriteLengths(t, 0, NoLengths()); LengthsAtMost(table, m) && TableKraft(table, m) == Pow2(m)
  {
    hide TableKraft, WriteLengths, Fresh, Symbols, DistinctSymbols, LengthsAtMost, Height;
    EmptyTable(m);
    WriteNode(t, 0, NoLengths());
    WriteLengthsKraft(t.left, 1, NoLengths(), m);
    WriteLengthsKraft(t.right, 1, WriteLengths(t.left, 1, NoLengths()), m);
    TwoHalves(m);
  }

  lemma RootFresh(freq: seq<u32>)
    requires |freq| == ALPHABET_SIZE && 0 < Sum(freq) < 0x1_0000_0000
    ensures HuffmanRoot(freq).Some?
    ensures var t := HuffmanRoot(freq).value;
            && Good(t, freq) && DistinctSymbols(t) && Height(t) < ALPHABET_SIZE
            && Fresh(NoLengths(), Symbols(t)) && LengthTable(freq) == WriteLengths(t, 0, NoLengths())
            && (t.Leaf? ==> LengthTable(freq) == NoLengths()[t.symbol := 1]) && (t.Node? ==> Height(t) > 0)
  {
    hide Used, Sum, Symbols;
    RootResult(freq);
    RootHeight(freq);
  }

  lemma HeightFits(freq: seq<u32>, m: nat)
    requires |freq| == ALPHABET_SIZE && 0 < Sum(freq) < 0x1_0000_0000
    requires LengthsAtMost(LengthTable(freq), m)
    ensures HuffmanRoot(freq).Some? && 0 < m && Height(HuffmanRoot(freq).value) <= m
  {
    hide LengthTable, HuffmanRoot, Sum, Height;
    var s := LongestCode(freq);
  }

  /** With two symbols or more, the table costs what the merges cost. */
  lemma LengthsCost(freq: seq<u32>)
    requires |freq| == ALPHABET_SIZE && 0 < Sum(freq) < 0x1_0000_0000
    requires |Used(freq, ALPHABET_SIZE)| >= 2
    ensures Dot(freq, LengthTable(freq)) == MergeCost(Weights(LeafQueue(freq, ALPHABET_SIZE)))
  {
    hide Used, WriteLengths, Fresh, DistinctSymbols, Symbols, Dot, LengthTable, Height, HuffmanRoot, Sum, MergeCost, LeafQueue;
    RootResult(freq);
    RootFresh(freq);
    var t := HuffmanRoot(freq).value;
    var a := WriteLengths(t.left, 1, NoLengths());
    ZeroDot(freq, NoLengths());
    WriteNode(t, 0, NoLengths());
    WriteLengthsCost(t.left, 1, NoLengths(), freq);
    WriteLengthsCost(t.right, 1, a, freq);
  }

  lemma RootWeight(freq: seq<u32>)
    requires |freq| == ALPHABET_SIZE && 0 < Sum(freq) < 0x1_0000_0000 && |Used(freq, ALPHABET_SIZE)| >= 2
    ensures HuffmanRoot(freq).Some?
    ensures var t := HuffmanRoot(freq).value; Fib(Height(t) + 2) <= Sum(freq) && Height(t) > 0
  {
    hide Fib, LengthTable, HuffmanRoot, Sum, Used, WellMerged, Exact;
    RootResult(freq);
    FibonacciDepth(HuffmanRoot(freq).value);
  }

  /** A longest code of d bits needs at least Fib(d + 2) bytes. */
  lemma FibonacciBound(buf: Buffer, s: byte, d: nat)
    requires |Used(Freqs(buf), ALPHABET_SIZE)| >= 2
    requires d == LengthTable(Freqs(buf))[s]
    ensures Fib(d + 2) <= |buf|
  {
    hide Fib, LengthTable, HuffmanRoot, Freqs, Sum, Used, Height;
    var freq := Freqs(buf);
    FreqsCount(buf);
    UsedNonEmpty(freq);
    RootWeight(freq);
    LengthsUsed(freq);
    FibMonotone(d + 2, Height(HuffmanRoot(freq).value) + 2);
  }

  lemma UsedNonEmpty(freq: seq<u32>)
    requires |freq| == ALPHABET_SIZE
    ensures Used(freq, ALPHABET_SIZE) != {} <==> Sum(freq) > 0
  {
    if s :| s in Used(freq, ALPHABET_SIZE) {
      SumUpdate(freq, s, 0);
      SumNonNegative(freq[s := 0]);
    } else {
      forall i | 0 <= i < ALPHABET_SIZE
        ensures freq[i] == 0
      {
        var s: byte := i;
        assert s !in Used(freq, ALPHABET_SIZE);
      }
      ZeroSum(freq);
    }
  }

  lemma FibValues()
    ensures Fib(28) == 317811
    ensures Fib(35) == 9227465
  {
    assert Fib(10) == 55 && Fib(11) == 89;
    assert Fib(20) == 6765 && Fib(21) == 10946;
    assert Fib(27) == 196418 && Fib(28) == 317811 && Fib(29) == 514229;
    assert Fib(34) == 5702887 && Fib(35) == 9227465;
  }

  /** No code is longer than d bits when the buffer is shorter than Fib(d + 3). */
  lemma DepthLimit(buf: Buffer, d: nat)
    requires 1 <= |buf| < Fib(d + 3) && d >= 1
    ensures LengthsAtMost(LengthTable(Freqs(buf)), d)
  {
    hide LengthTable, Fib, Freqs, Sum, HuffmanRoot;
    var freq := Freqs(buf);
    FreqsCount(buf);
    LengthsUsed(freq);
    RootResult(freq);
    forall s | 0 <= s < ALPHABET_SIZE
      ensures LengthTable(freq)[s] <= d
    {
      if |Used(freq, ALPHABET_SIZE)| >= 2 { OneLimit(buf, s, LengthTable(freq)[s], d); }
    }
  }

  lemma OneLimit(buf: Buffer, s: byte, l: nat, d: nat)
    requires |Used(Freqs(buf), ALPHABET_SIZE)| >= 2
    requires l == LengthTable(Freqs(buf))[s] && |buf| < Fib(d + 3)
    ensures l <= d
  {
    hide Fib;
    FibonacciBound(buf, s, l);
    if l > d { FibMonotone(d + 3, l + 2); }
  }

  /** Below 9227465 bytes every code fits the 32-bit word it is computed in; for the RLE output
      of one chunk, codes have at most 25 bits. */
  lemma CodesFitWord(buf: Buffer)
    requires 1 <= |buf|
    ensures |buf| <= 9227464 ==> LengthsAtMost(LengthTable(Freqs(buf)), 32)
    ensures |buf| <= 264192 ==> LengthsAtMost(LengthTable(Freqs(buf)), 25)
  {
    FibValues();
    if |buf| <= 9227464 { DepthLimit(buf, 32); }
    if |buf| <= 264192 { DepthLimit(buf, 25); }
  }

  // ----- optimality ----------------------------------------------------------------------------------------------

  /** Number of bits that lengths g spend on a buffer. */
  function Bits(buf: seq<byte>, g: seq<nat>): nat
    requires |g| == ALPHABET_SIZE
  {
    if buf == [] then 0 else Bits(buf[..|buf| - 1], g) + g[buf[|buf| - 1]]
  }

  lemma {:induction false} BitsIsDot(buf: Buffer, g: seq<nat>)
    requires |g| == ALPHABET_SIZE
    ensures Bits(buf, g) == Dot(Freqs(buf), g)
  {
    if buf == [] {
      DotCommutes(Freqs(buf), g);
      ZeroDot(g, Freqs(buf));
    } else {
      var front, s := buf[..|buf| - 1], buf[|buf| - 1];
      BitsIsDot(front, g);
      OneMore(Freqs(front), g, s);
    }
  }

  lemma OneMore(f: seq<u32>, g: seq<nat>, s: byte)
    requires |f| == |g| == ALPHABET_SIZE && f[s] < 0xffff_ffff
    ensures Dot(f[s := f[s] + 1], g) == Dot(f, g) + g[s]
  {
    hide Dot;
    DotCommutes(f, g);
    DotUpdate(g, f, s, f[s] + 1);
    DotCommutes(f[s := f[s] + 1], g);
    assert g[s] * (f[s] + 1) == g[s] * f[s] + g[s];
  }

  lemma {:induction false} DotCommutes(ws: seq<nat>, ls: seq<nat>)
    requires |ws| == |ls|
    ensures Dot(ws, ls) == Dot(ls, ws)
  {
    if ws != [] { DotCommutes(ws[1..], ls[1..]); }
  }

  /** The symbols of a queue of leaves, in queue order. */
  function LeafSymbols(ts: seq<Tree>): (ss: seq<byte>)
    requires forall i :: 0 <= i < |ts| ==> ts[i].Leaf?
    ensures |ss| == |ts| && forall i :: 0 <= i < |ts| ==> ss[i] == ts[i].symbol
  {
    seq(|ts|, i requires 0 <= i < |ts| => ts[i].symbol)
  }

  function Pick<T>(g: seq<T>, ss: seq<byte>): (r: seq<T>)
    requires |g| == ALPHABET_SIZE
    ensures |r| == |ss| && forall i :: 0 <= i < |ss| ==> r[i] == g[ss[i]]
  {
    seq(|ss|, i requires 0 <= i < |ss| => g[ss[i]])
  }

  lemma {:induction false} LeafQueueDot(freq: seq<u32>, g: seq<nat>, k: nat)
    requires |freq| == |g| == ALPHABET_SIZE && k <= ALPHABET_SIZE
    ensures forall i :: 0 <= i < |LeafQueue(freq, k)| ==> LeafQueue(freq, k)[i].Leaf?
    ensures Dot(Weights(LeafQueue(freq, k)), Pick(g, LeafSymbols(LeafQueue(freq, k)))) == Dot(freq[..k], g[..k])
  {
    hide Dot, Enqueue;
    LeafQueueForest(freq, k);
    if k > 0 {
      LeafQueueDot(freq, g, k - 1);
      DotLast(freq, g, k);
      if freq[k - 1] > 0 {
        EnqueueDot(LeafQueue(freq, k - 1), Leaf(k - 1, freq[k - 1]), g);
      }
    }
  }

  lemma DotLast(ws: seq<nat>, ls: seq<nat>, k: nat)
    requires |ws| == |ls| && 0 < k <= |ws|
    ensures Dot(ws[..k], ls[..k]) == Dot(ws[..k - 1], ls[..k - 1]) + ws[k - 1] * ls[k - 1]
  {
    assert ws[..k] == ws[..k - 1] + [ws[k - 1]] && ls[..k] == ls[..k - 1] + [ls[k - 1]];
    DotAppend(ws[..k - 1], [ws[k - 1]], ls[..k - 1], [ls[k - 1]]);
    assert Dot([ws[k - 1]], [ls[k - 1]]) == ws[k - 1] * ls[k - 1];
  }

  lemma EnqueueDot(ts: seq<Tree>, t: Tree, g: seq<nat>)
    requires |g| == ALPHABET_SIZE && t.Leaf?
    requires forall i :: 0 <= i < |ts| ==> ts[i].Leaf?
    requires forall i :: 0 <= i < |Enqueue(ts, t)| ==> Enqueue(ts, t)[i].Leaf?
    ensures Dot(Weights(Enqueue(ts, t)), Pick(g, LeafSymbols(Enqueue(ts, t))))
         == Dot(Weights(ts), Pick(g, LeafSymbols(ts))) + t.freq * g[t.symbol]
  {
    var k := InsertPos(Weights(ts), t.freq);
    var ws, ls := Weights(ts), Pick(g, LeafSymbols(ts));
    EnqueueSums(ts, t);
    assert Pick(g, LeafSymbols(Enqueue(ts, t))) == InsertAt(ls, k, g[t.symbol]);
    DotInsertAt(ws, ls, k, t.freq, g[t.symbol]);
  }

  /** No two used symbols have comparable codes. */
  predicate PrefixFreeOn(code: seq<seq<bool>>, used: set<byte>)
    requires |code| == ALPHABET_SIZE
  {
    forall s, t | s in used && t in used && s != t :: !Comparable(code[s], code[t])
  }

  function {:induction false} Longest(ls: seq<nat>): (m: nat)
    ensures AtMost(ls, m)
  {
    if ls == [] then 0 else Max(ls[0], Longest(ls[1..]))
  }

  lemma LeavesAreUsed(freq: seq<u32>)
    requires |freq| == ALPHABET_SIZE
    ensures forall i :: 0 <= i < |LeafQueue(freq, ALPHABET_SIZE)| ==>
              LeafQueue(freq, ALPHABET_SIZE)[i].Leaf? && LeafQueue(freq, ALPHABET_SIZE)[i].symbol in Used(freq, ALPHABET_SIZE)
    ensures forall i, j :: 0 <= i < j < |LeafQueue(freq, ALPHABET_SIZE)| ==>
              LeafQueue(freq, ALPHABET_SIZE)[i].symbol != LeafQueue(freq, ALPHABET_SIZE)[j].symbol
    ensures SortedTrees(LeafQueue(freq, ALPHABET_SIZE))
  {
    var ts := LeafQueue(freq, ALPHABET_SIZE);
    LeafQueueForest(freq, ALPHABET_SIZE);
    assert forall i :: 0 <= i < |ts| ==> Good(ts[i], freq);
    forall i, j | 0 <= i < j < |ts|
      ensures ts[i].symbol != ts[j].symbol
    {
      assert Compatible(ts[i], ts[j]);
      assert ts[i].symbol in Symbols(ts[i]) && ts[j].symbol in Symbols(ts[j]);
    }
  }

  /** Optimality: no prefix-free binary code for the symbols of a buffer encodes it in fewer bits. */
  lemma HuffmanIsOptimal(buf: Buffer, code: seq<seq<bool>>)
    requires |code| == ALPHABET_SIZE
    requires |Used(Freqs(buf), ALPHABET_SIZE)| >= 2
    requires PrefixFreeOn(code, Used(Freqs(buf), ALPHABET_SIZE))
    ensures Bits(buf, LengthTable(Freqs(buf))) <= Bits(buf, Lengths(code))
  {
    hide LengthTable, LeafQueue, MergeCost, Dot, Bits, Sum, Freqs, Kraft;
    var freq := Freqs(buf);
    var ts := LeafQueue(freq, ALPHABET_SIZE);
    FreqsCount(buf);
    UsedNonEmpty(freq);
    LengthsCost(freq);
    LeavesAreUsed(freq);
    var cs := Pick(code, LeafSymbols(ts));
    KraftInequality(cs, Longest(Lengths(cs)));
    MergeCostIsLeast(Weights(ts), Lengths(cs), Longest(Lengths(cs)));
    assert Lengths(cs) == Pick(Lengths(code), LeafSymbols(ts));
    LeafQueueDot(freq, Lengths(code), ALPHABET_SIZE);
    assert freq[..ALPHABET_SIZE] == freq && Lengths(code)[..ALPHABET_SIZE] == Lengths(code);
    BitsIsDot(buf, LengthTable(freq));
    BitsIsDot(buf, Lengths(code));
  }

  lemma {:induction false} ConstantLengths(ws: seq<nat>, ls: seq<nat>, l: nat)
    requires |ws| == |ls| && forall i :: 0 <= i < |ls| ==> ls[i] == l
    ensures Kraft(ls, l) == |ls|
    ensures Dot(ws, ls) == l * Sum(ws)
  {
    if ls != [] {
      ConstantLengths(ws[1..], ls[1..], l);
      assert l * (ws[0] + Sum(ws[1..])) == ws[0] * l + l * Sum(ws[1..]);
    }
  }

  lemma MergeCostAtMostEight(freq: seq<u32>)
    requires |freq| == ALPHABET_SIZE
    ensures MergeCost(Weights(LeafQueue(freq, ALPHABET_SIZE))) <= 8 * Sum(freq)
  {
    hide LeafQueue, MergeCost, Dot, Sum, Kraft;
    var ts := LeafQueue(freq, ALPHABET_SIZE);
    LeafQueueSymbols(freq, ALPHABET_SIZE);
    LeafQueueSums(freq, ALPHABET_SIZE);
    assert freq[..ALPHABET_SIZE] == freq;
    LeavesAreUsed(freq);
    AtMostAlphabet(Used(freq, ALPHABET_SIZE), ALPHABET_SIZE);
    var eights := seq(|ts|, _ => 8);
    ConstantLengths(Weights(ts), eights, 8);
    assert Pow2(8) == 256;
    MergeCostIsLeast(Weights(ts), eights, 8);
  }

  /** Eight bits a symbol always do, so the packed data is never longer than the buffer. */
  lemma EncodedNotLonger(buf: Buffer)
    requires buf != []
    ensures Bits(buf, LengthTable(Freqs(buf))) <= 8 * |buf|
    ensures (Bits(buf, LengthTable(Freqs(buf))) + 7) / 8 <= |buf|
  {
    hide LengthTable, LeafQueue, MergeCost, Dot, Bits, Sum, Freqs;
    var freq := Freqs(buf);
    FreqsCount(buf);
    BitsIsDot(buf, LengthTable(freq));
    if |Used(freq, ALPHABET_SIZE)| >= 2 {
      LengthsCost(freq);
      MergeCostAtMostEight(freq);
    } else {
      LengthsUsed(freq);
      RootResult(freq);
      BitsAtMost(buf, LengthTable(freq), 1);
    }
  }

  lemma {:induction false} BitsAtMost(buf: seq<byte>, g: seq<nat>, l: nat)
    requires |g| == ALPHABET_SIZE && AtMost(g, l)
    ensures Bits(buf, g) <= l * |buf|
  {
    if buf != [] {
      BitsAtMost(buf[..|buf| - 1], g, l);
      assert l * |buf| == l * (|buf| - 1) + l;
    }
  }
}
