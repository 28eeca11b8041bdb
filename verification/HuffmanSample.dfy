/** The encoder on "abcccdeee": a buffer whose code lengths depend on how equal frequencies are queued. */
module HuffmanSample {
  import opened Bytes
  import opened BitStrings
  import opened HuffmanQueue
  import opened HuffmanTree
  import opened HuffmanLengths
  import opened HuffmanResults
  import opened CanonicalCodes
  import opened CanonicalOrder
  import opened HuffmanCodec

  function Sample(): (buf: Buffer)
    ensures |buf| == 9
  {
    [97, 98, 99, 99, 99, 100, 101, 101, 101]
  }

  // ----- the tree ------------------------------------------------------------------------------------------------

  lemma SampleCounts()
    ensures var c := multiset(Sample()); c[97] == 1 && c[98] == 1 && c[99] == 3 && c[100] == 1 && c[101] == 3
  {
    assert multiset(Sample()) == multiset{97, 98, 99, 99, 99, 100, 101, 101, 101};
  }

  lemma OtherCounts(s: byte)
    requires !(97 <= s <= 101)
    ensures multiset(Sample())[s] == 0
  {
    var buf: seq<byte> := Sample();
    assert forall i :: 0 <= i < |buf| ==> 97 <= buf[i] <= 101;
    assert s !in buf;
  }

  lemma SampleFreqs()
    ensures var f := Freqs(Sample());
            && f[97] == 1 && f[98] == 1 && f[99] == 3 && f[100] == 1 && f[101] == 3
            && forall s :: 0 <= s < ALPHABET_SIZE && !(97 <= s <= 101) ==> f[s] == 0
  {
    hide Freqs, Sample;
    FreqsCount(Sample());
    SampleCounts();
    var f := Freqs(Sample());
    var a: byte, b: byte, c: byte, d: byte, e: byte := 97, 98, 99, 100, 101;
    assert f[a] == 1 && f[b] == 1 && f[c] == 3 && f[d] == 1 && f[e] == 3;
    forall s | 0 <= s < ALPHABET_SIZE && !(97 <= s <= 101)
      ensures f[s] == 0
    {
      var x: byte := s;
      OtherCounts(x);
      assert f[x] == multiset(Sample())[x];
    }
  }

  /** Symbols that do not occur leave the queue alone. */
  lemma {:induction false} QuietSymbols(freq: seq<u32>, a: nat, b: nat)
    requires |freq| == ALPHABET_SIZE && a <= b <= ALPHABET_SIZE && forall s :: a <= s < b ==> freq[s] == 0
    ensures LeafQueue(freq, b) == LeafQueue(freq, a)
    decreases b
  {
    hide Enqueue;
    if a < b { QuietSymbols(freq, a, b - 1); }
  }

  const A: Tree := Leaf(97, 1)
  const B: Tree := Leaf(98, 1)
  const C: Tree := Leaf(99, 3)
  const D: Tree := Leaf(100, 1)
  const E: Tree := Leaf(101, 3)

  lemma SampleLeaves()
    ensures LeafQueue(Freqs(Sample()), ALPHABET_SIZE) == [A, D, B, E, C]
  {
    hide Freqs, Enqueue, LeafQueue;
    SampleFreqs();
    var f := Freqs(Sample());
    QuietSymbols(f, 0, 97);
    LeafQueueUnfold(f, 0);
    LeafQueueUnfold(f, 97);
    LeafQueueUnfold(f, 98);
    LeafQueueUnfold(f, 99);
    LeafQueueUnfold(f, 100);
    LeafQueueUnfold(f, 101);
    EnqueueAt([], A, 0);
    assert LeafQueue(f, 98) == [A];
    EnqueueAt([A], B, 1);
    assert LeafQueue(f, 99) == [A, B];
    EnqueueAt([A, B], C, 2);
    assert LeafQueue(f, 100) == [A, B, C];
    EnqueueAt([A, B, C], D, 1);
    assert LeafQueue(f, 101) == [A, D, B, C];
    EnqueueAt([A, D, B, C], E, 3);
    assert LeafQueue(f, 102) == [A, D, B, E, C];
    QuietSymbols(f, 102, ALPHABET_SIZE);
  }

  const AD: Tree := Node(2, A, D)
  const BAD: Tree := Node(3, B, AD)
  const EBAD: Tree := Node(6, E, BAD)
  const ROOT: Tree := Node(9, C, EBAD)

  lemma BuildOnce(ts: seq<Tree>, rest: seq<Tree>)
    requires |ts| >= 2 && MergeStep(ts) == rest
    ensures rest != [] && Build(ts) == Build(rest)
  {
    hide MergeStep;
  }

  lemma SampleTree()
    ensures HuffmanRoot(Freqs(Sample())) == Some(ROOT)
  {
    hide Freqs, Enqueue, LeafQueue, Build, Sample;
    SampleLeaves();
    EnqueueAt([B, E, C], AD, 1);
    BuildOnce([A, D, B, E, C], [B, AD, E, C]);
    EnqueueAt([E, C], BAD, 1);
    BuildOnce([B, AD, E, C], [E, BAD, C]);
    EnqueueAt([C], EBAD, 1);
    BuildOnce([E, BAD, C], [C, EBAD]);
    EnqueueAt([], ROOT, 0);
    BuildOnce([C, EBAD], [ROOT]);
    BuildAlone(ROOT);
  }

  lemma BuildAlone(t: Tree)
    ensures Build([t]) == t
  {
  }

  // ----- lengths and codes ---------------------------------------------------------------------------------------

  /** One bit for c, two for e, three for b, four for a and d. */
  lemma SampleLengths()
    ensures var l := LengthTable(Freqs(Sample()));
            && l[97] == 4 && l[98] == 3 && l[99] == 1 && l[100] == 4 && l[101] == 2
            && forall s :: 0 <= s < ALPHABET_SIZE && !(97 <= s <= 101) ==> l[s] == 0
  {
    hide Freqs, HuffmanRoot, Sample, WriteLengths;
    SampleTree();
    Visit(ROOT, 0, NoLengths());
    VisitLeaf(C, 1, NoLengths());
    var l1 := NoLengths()[99 := 1];
    Visit(EBAD, 1, l1);
    VisitLeaf(E, 2, l1);
    var l2 := l1[101 := 2];
    Visit(BAD, 2, l2);
    VisitLeaf(B, 3, l2);
    var l3 := l2[98 := 3];
    Visit(AD, 3, l3);
    VisitLeaf(A, 4, l3);
    VisitLeaf(D, 4, l3[97 := 4]);
  }

  lemma Visit(t: Tree, len: nat, lengths: seq<byte>)
    requires |lengths| == ALPHABET_SIZE && t.Node?
    ensures WriteLengths(t, len, lengths) == WriteLengths(t.right, len + 1, WriteLengths(t.left, len + 1, lengths))
  {
  }

  lemma VisitLeaf(t: Tree, len: nat, lengths: seq<byte>)
    requires |lengths| == ALPHABET_SIZE && t.Leaf? && 0 < len < 256
    ensures WriteLengths(t, len, lengths) == lengths[t.symbol := len]
  {
  }

  lemma SampleCoded()
    ensures Coded(LengthTable(Freqs(Sample())), 25)
  {
    hide Freqs, LengthTable, TableKraft, Sum, Used, Pow2, Sample;
    CodesFitWord(Sample());
    FreqsCount(Sample());
    LengthsKraft(Freqs(Sample()), 25);
  }

  lemma OrderIs(lengths: seq<byte>, i: nat, j: nat)
    requires |lengths| == ALPHABET_SIZE && Before(lengths, i, j)
    requires forall h :: 0 <= h < ALPHABET_SIZE && !(97 <= h <= 101) ==> lengths[h] == 0
    requires forall h :: 97 <= h <= 101 ==> !(Before(lengths, i, h) && Before(lengths, h, j))
    ensures CanonicalOrder.Next(lengths, i, j)
  {
    forall h | 0 <= h < |lengths|
      ensures !(Before(lengths, i, h) && Before(lengths, h, j))
    {
    }
  }

  lemma CodeIs(s: seq<bool>, t: seq<bool>)
    requires |s| == |t| && BitsValue(s) == BitsValue(t)
    ensures s == t
  {
    SameValue(s, t);
  }

  /** c is 0, e is 10, b is 110, a is 1110, d is 1111. */
  lemma SampleCodes()
    ensures var l := LengthTable(Freqs(Sample()));
            && Code(l, 99) == [false] && Code(l, 101) == [true, false] && Code(l, 98) == [true, true, false]
            && Code(l, 97) == [true, true, true, false] && Code(l, 100) == [true, true, true, true]
  {
    hide Freqs, LengthTable, Sample, Code, BitsValue, Pow2, Coded, CanonicalOrder.Next;
    var l := LengthTable(Freqs(Sample()));
    SampleLengths();
    SampleCoded();
    SampleOrder(l);
    SampleValues();
    FirstIsZero(l, 99, 25);
    assert Code(l, 99) == [false];
    NextCode(l, 99, 101, 25);
    CodeIs(Code(l, 101), [true, false]);
    NextCode(l, 101, 98, 25);
    CodeIs(Code(l, 98), [true, true, false]);
    NextCode(l, 98, 97, 25);
    CodeIs(Code(l, 97), [true, true, true, false]);
    NextCode(l, 97, 100, 25);
    CodeIs(Code(l, 100), [true, true, true, true]);
  }

  lemma SampleValues()
    ensures Pow2(0) == 1 && Pow2(1) == 2
    ensures BitsValue([false]) == 0 && BitsValue([true, false]) == 2 && BitsValue([true, true, false]) == 6
    ensures BitsValue([true, true, true, false]) == 14 && BitsValue([true, true, true, true]) == 15
  {
    hide BitsValue;
    assert BitsValue([]) == 0 by { NoValue(); }
    var t, tt, ttt := [true], [true, true], [true, true, true];
    ValueSnoc([], false);
    ValueSnoc([], true);
    assert [] + [false] == [false] && [] + [true] == t;
    ValueSnoc(t, false);
    ValueSnoc(t, true);
    assert t + [false] == [true, false] && t + [true] == tt;
    ValueSnoc(tt, false);
    ValueSnoc(tt, true);
    assert tt + [false] == [true, true, false] && tt + [true] == ttt;
    ValueSnoc(ttt, false);
    ValueSnoc(ttt, true);
    assert ttt + [false] == [true, true, true, false] && ttt + [true] == [true, true, true, true];
  }

  lemma NoValue()
    ensures BitsValue([]) == 0
  {
  }

  lemma SampleOrder(l: seq<byte>)
    requires |l| == ALPHABET_SIZE && l[97] == 4 && l[98] == 3 && l[99] == 1 && l[100] == 4 && l[101] == 2
    requires forall s :: 0 <= s < ALPHABET_SIZE && !(97 <= s <= 101) ==> l[s] == 0
    ensures forall h :: 0 <= h < ALPHABET_SIZE ==> !Before(l, h, 99)
    ensures CanonicalOrder.Next(l, 99, 101) && CanonicalOrder.Next(l, 101, 98)
    ensures CanonicalOrder.Next(l, 98, 97) && CanonicalOrder.Next(l, 97, 100)
  {
    OrderIs(l, 99, 101);
    OrderIs(l, 101, 98);
    OrderIs(l, 98, 97);
    OrderIs(l, 97, 100);
  }

  // ----- the packed bytes ----------------------------------------------------------------------------------------

  function SampleBits(): (bits: seq<bool>)
    ensures |bits| == 20
  {
    [true, true, true, false, true, true, false, false,
     false, false, true, true, true, true, true, false,
     true, false, true, false]
  }

  lemma NextBits(buf: seq<byte>, k: nat, lengths: seq<byte>, bits: seq<bool>, code: seq<bool>)
    requires |lengths| == ALPHABET_SIZE && k < |buf|
    requires CodeBits(buf[..k], lengths) == bits && Code(lengths, buf[k]) == code
    ensures CodeBits(buf[..k + 1], lengths) == bits + code
  {
    hide Code;
    assert buf[..k + 1][..k] == buf[..k];
  }

  lemma SampleCodeBits()
    ensures CodeBits(Sample(), LengthTable(Freqs(Sample()))) == SampleBits()
  {
    hide CodeBits, LengthTable, Freqs, Code;
    var l := LengthTable(Freqs(Sample()));
    var buf: seq<byte> := Sample();
    SampleCodes();
    NoBitsYet(l);
    assert buf[..0] == [] && buf[..9] == buf;
    SampleWalk(buf, l);
  }

  lemma SampleWalk(buf: seq<byte>, l: seq<byte>)
    requires buf == Sample() && |l| == ALPHABET_SIZE && CodeBits(buf[..0], l) == []
    requires Code(l, 99) == [false] && Code(l, 101) == [true, false] && Code(l, 98) == [true, true, false]
    requires Code(l, 97) == [true, true, true, false] && Code(l, 100) == [true, true, true, true]
    ensures CodeBits(buf[..9], l) == SampleBits()
  {
    hide CodeBits, Code;
    var t, f := true, false;
    NextBits(buf, 0, l, [], [t, t, t, f]);
    var b1 := [] + [t, t, t, f];
    NextBits(buf, 1, l, b1, [t, t, f]);
    var b2 := b1 + [t, t, f];
    NextBits(buf, 2, l, b2, [f]);
    NextBits(buf, 3, l, b2 + [f], [f]);
    NextBits(buf, 4, l, b2 + [f] + [f], [f]);
    var b5 := b2 + [f] + [f] + [f];
    NextBits(buf, 5, l, b5, [t, t, t, t]);
    var b6 := b5 + [t, t, t, t];
    NextBits(buf, 6, l, b6, [t, f]);
    NextBits(buf, 7, l, b6 + [t, f], [t, f]);
    NextBits(buf, 8, l, b6 + [t, f] + [t, f], [t, f]);
  }

  lemma NoBitsYet(lengths: seq<byte>)
    requires |lengths| == ALPHABET_SIZE
    ensures CodeBits([], lengths) == []
  {
  }

  lemma SampleBitAt()
    ensures var s := SampleBits();
            && s[0] && s[1] && s[2] && !s[3] && s[4] && s[5] && !s[6] && !s[7]
            && !s[8] && !s[9] && s[10] && s[11] && s[12] && s[13] && s[14] && !s[15]
            && s[16] && !s[17] && s[18] && !s[19]
  {
  }

  lemma SamplePacked()
    ensures Pack(SampleBits()) == [236, 62, 160]
  {
    hide ByteAt, SampleBits;
    SampleBitAt();
    ByteAtBits(SampleBits(), 0);
    ByteAtBits(SampleBits(), 1);
    ByteAtBits(SampleBits(), 2);
  }

  /** The whole answer of the encoder. */
  lemma SampleEncoded()
    ensures var c := Encoded(Sample());
            && c.Some? && c.value.data == [236, 62, 160] && c.value.origSize == 9 && c.value.encodedSize == 3
            && c.value.lengths == NoLengths()[97 := 4][98 := 3][99 := 1][100 := 4][101 := 2]
  {
    hide CodeBits, LengthTable, Freqs, Sample, Pack, SampleBits;
    SampleCodeBits();
    SamplePacked();
    SampleLengths();
  }
}
