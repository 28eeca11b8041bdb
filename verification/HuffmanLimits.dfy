/** Where Huffman coding stops working: exactly when a code outgrows 32 bits. */
module HuffmanLimits {
  import opened Bytes
  import opened BitStrings
  import opened HuffmanOptimality
  import opened HuffmanTree
  import opened HuffmanLengths
  import opened HuffmanResults
  import opened CanonicalCodes
  import opened DecodeTree
  import opened HuffmanCodec
  import opened HuffmanRoundTrip

  // ----- short codes cover almost all of the code space ----------------------------------------------------------

  /** At most 256 codes are longer than l, so the shorter ones leave at most 256 places of length l free. */
  lemma {:induction false} AlmostFull(lengths: seq<byte>, l: nat)
    requires |lengths| == ALPHABET_SIZE && l <= 255 && TableKraft(lengths, 255) == Pow2(255)
    ensures Filled(lengths, l, ALPHABET_SIZE) + 256 >= Pow2(l)
    decreases 255 - l
  {
    hide Filled, TableKraft, CountTo;
    if l == 255 {
      FilledScaled(lengths, 255, 255, ALPHABET_SIZE);
      assert lengths[..ALPHABET_SIZE] == lengths;
    } else {
      AlmostFull(lengths, l + 1);
      FilledStep(lengths, l + 1, ALPHABET_SIZE);
    }
  }

  /** The k-th code of a length belongs to some symbol. */
  lemma {:induction false} SymbolOfRank(lengths: seq<byte>, l: nat, k: nat, n: nat) returns (s: nat)
    requires n <= |lengths| && l > 0 && k < CountTo(lengths, l, n)
    ensures s < n && lengths[s] == l && CountTo(lengths, l, s) == k
  {
    if k == CountTo(lengths, l, n - 1) {
      s := n - 1;
    } else {
      s := SymbolOfRank(lengths, l, k, n - 1);
    }
  }

  /** Every place in front of the end of the codes of length l is covered by a code of at most l bits. */
  lemma {:induction false} Covered(lengths: seq<byte>, l: nat, u: nat) returns (s: nat)
    requires u < After(lengths, l)
    ensures s < |lengths| && 0 < lengths[s] <= l && u / Pow2(l - lengths[s]) == CodeValue(lengths, s)
  {
    hide CountTo, Pow2;
    s := 0;
    NoZeroLengths(lengths, |lengths|);
    if l > 0 && u < First(lengths, l) {
      s := Covered(lengths, l - 1, u / 2);
      PowUp(l - lengths[s]);
      DivideTwice(u, Pow2(l - 1 - lengths[s]));
    } else if l > 0 {
      s := SymbolOfRank(lengths, l, u - First(lengths, l), |lengths|);
      DivideByOne(u);
    }
  }

  lemma PowUp(d: nat)
    requires d > 0
    ensures Pow2(d) == 2 * Pow2(d - 1)
  {
  }

  /** Codes of at most 32 bits never wrap, however long other codes are. */
  lemma ShortCode(lengths: seq<byte>, s: nat)
    requires |lengths| == ALPHABET_SIZE && TableKraft(lengths, 255) <= Pow2(255)
    requires s < |lengths| && 0 < lengths[s] <= 32
    ensures CodeValue(lengths, s) < Pow2(lengths[s]) <= WORD
    ensures Code(lengths, s) == BitString(CodeValue(lengths, s), lengths[s])
  {
    hide CountTo, Pow2, First, TableKraft, BitString;
    CountToStrict(lengths, lengths[s], s, |lengths|);
    AfterFits(lengths, lengths[s], 255);
    Pow2Monotone(lengths[s], 32);
    WordIsPow2();
  }

  /** A code longer than 32 bits is cut down to 32 and begins with the code of some other symbol. */
  lemma LongCodeCollides(lengths: seq<byte>, t: nat) returns (s: nat)
    requires |lengths| == ALPHABET_SIZE && TableKraft(lengths, 255) == Pow2(255)
    requires t < |lengths| && lengths[t] > 32
    ensures s < |lengths| && 0 < lengths[s] <= 32 && Code(lengths, s) == Code(lengths, t)[..lengths[s]]
  {
    hide CountTo, Pow2, First, After, TableKraft, BitString, CodeValue, Filled;
    var len := lengths[t];
    var w := CodeValue(lengths, t) % WORD;
    var u := w / Pow2(len - 32);
    WrappedIsLow(w, len);
    AlmostFull(lengths, 32);
    AfterIsFilled(lengths, 32);
    WordIsPow2();
    s := Covered(lengths, 32, u);
    ShortCode(lengths, s);
    BitStringPrefix(w, len, 32);
    BitStringPrefix(u, 32, lengths[s]);
    TwicePrefix(BitString(w, len), 32, lengths[s]);
  }

  lemma WrappedIsLow(w: nat, len: nat)
    requires w < WORD && len > 32
    ensures w / Pow2(len - 32) < 0x8000_0000
  {
    Pow2Monotone(1, len - 32);
    assert Pow2(1) == 2;
    var p := Pow2(len - 32);
    MulMono(2, p, 0x8000_0000);
    QuotientBelow(w, 0x8000_0000, p);
  }

  lemma TwicePrefix(s: seq<bool>, m: nat, n: nat)
    requires n <= m <= |s|
    ensures s[..m][..n] == s[..n]
  {
  }

  // ----- the decoder never writes the symbol run over ------------------------------------------------------------

  /** Whatever the lengths: a tree that was built at all represents the codes. */
  lemma {:induction false} BuiltRepresents(lengths: seq<byte>, order: seq<byte>)
    requires |lengths| == ALPHABET_SIZE && BuildLabels(lengths, order).Some?
    ensures Represents(BuildLabels(lengths, order).value, lengths, order)
  {
    hide Code, Grow, Represents;
    if order == [] {
      EmptyRepresents(lengths);
    } else {
      var front, s := order[..|order| - 1], order[|order| - 1];
      BuiltRepresents(lengths, front);
      var m := BuildLabels(lengths, front).value;
      assert order == front + [s];
      if lengths[s] == 0 {
        RepresentsSkip(m, lengths, front, s);
      } else {
        GrownRepresents(m, lengths, front, s);
      }
    }
  }

  lemma GrownRepresents(m: Labels, lengths: seq<byte>, order: seq<byte>, s: byte)
    requires |lengths| == ALPHABET_SIZE && Represents(m, lengths, order) && lengths[s] > 0
    requires Grow(m, Code(lengths, s), 0, s).Some?
    ensures Represents(Grow(m, Code(lengths, s), 0, s).value, lengths, order + [s])
  {
    hide Code, Grow, IsPrefix, OnPath;
    var c := Code(lengths, s);
    assert |c| == lengths[s];
    GrowResult(m, c, 0, s);
    var r := Grow(m, c, 0, s).value;
    forall p
      ensures p in r <==> p == [] || OnPath(lengths, order + [s], p)
    {
      OnPathSnoc(lengths, order, s, p);
    }
    forall t | t in order + [s] && lengths[t] > 0
      ensures Code(lengths, t) in r && r[Code(lengths, t)] == t
    {
      assert t in order || t == s;
      if t == s { WholePrefix(c); }
    }
  }

  /** No leaf carries the symbol. */
  predicate NoLeafFor(m: Labels, s: byte)
  {
    forall p :: p in m && IsLeaf(m, p) && p != [] ==> m[p] != s
  }

  /** A symbol whose code is the beginning of another code ends in no leaf. */
  lemma RunOver(m: Labels, lengths: seq<byte>, s: byte, t: byte)
    requires |lengths| == ALPHABET_SIZE && Represents(m, lengths, Ascending(ALPHABET_SIZE))
    requires 0 < lengths[s] < lengths[t] && Code(lengths, s) == Code(lengths, t)[..lengths[s]]
    ensures NoLeafFor(m, s)
  {
    hide Code, Represents, IsLeaf;
    forall p | p in m && IsLeaf(m, p) && p != []
      ensures m[p] != s
    {
      var x := LeafIsCode(m, lengths, p);
      if x == s { InsideCode(m, lengths, t, p); }
    }
  }

  /** Inside a code there is no leaf. */
  lemma InsideCode(m: Labels, lengths: seq<byte>, x: byte, p: seq<bool>)
    requires |lengths| == ALPHABET_SIZE && Represents(m, lengths, Ascending(ALPHABET_SIZE))
    requires lengths[x] > 0 && |p| < lengths[x] && p == Code(lengths, x)[..|p|]
    ensures !IsLeaf(m, p)
  {
    hide Code, IsPrefix;
    var c := Code(lengths, x);
    assert Ascending(ALPHABET_SIZE)[x] == x;
    PrefixTake(c, |p|);
    assert OnPath(lengths, Ascending(ALPHABET_SIZE), p + [c[|p|]]);
    if c[|p|] {
      assert p + [true] in m;
    } else {
      assert p + [false] in m;
    }
  }

  lemma PrefixIs(p: seq<bool>, c: seq<bool>)
    requires IsPrefix(p, c)
    ensures |p| <= |c| && p == c[..|p|] && (|p| == |c| ==> p == c)
  {
  }

  /** Every leaf is the end of a symbol's code. */
  lemma LeafIsCode(m: Labels, lengths: seq<byte>, p: seq<bool>) returns (x: byte)
    requires |lengths| == ALPHABET_SIZE && Represents(m, lengths, Ascending(ALPHABET_SIZE))
    requires p in m && IsLeaf(m, p) && p != []
    ensures lengths[x] > 0 && p == Code(lengths, x) && m[p] == x
  {
    hide Code, IsPrefix, IsLeaf;
    assert OnPath(lengths, Ascending(ALPHABET_SIZE), p);
    x :| x in Ascending(ALPHABET_SIZE) && lengths[x] > 0 && IsPrefix(p, Code(lengths, x));
    PrefixIs(p, Code(lengths, x));
    if |p| < lengths[x] { InsideCode(m, lengths, x, p); }
  }

  lemma StepNeverWrites(m: Labels, w: Walker, bit: bool, s: byte)
    requires NoLeafFor(m, s) && s !in w.out && Step(m, w, bit).Some?
    ensures s !in Step(m, w, bit).value.out
  {
  }

  lemma {:induction false} ByteNeverWrites(m: Labels, w: Walker, bits: seq<bool>, limit: nat, s: byte)
    requires NoLeafFor(m, s) && s !in w.out && WalkByte(m, w, bits, limit).Some?
    ensures s !in WalkByte(m, w, bits, limit).value.out
    decreases |bits|
  {
    hide Step, NoLeafFor;
    if bits != [] {
      StepNeverWrites(m, w, bits[0], s);
      var w' := Step(m, w, bits[0]).value;
      if !(w'.path == [] && |w'.out| >= limit) {
        ByteNeverWrites(m, w', bits[1..], limit, s);
      }
    }
  }

  lemma {:induction false} DataNeverWrites(m: Labels, data: seq<byte>, limit: nat, s: byte)
    requires NoLeafFor(m, s) && WalkData(m, data, limit).Some?
    ensures s !in WalkData(m, data, limit).value.out
    decreases |data|
  {
    hide WalkByte, BitString, NoLeafFor;
    if data != [] {
      DataNeverWrites(m, data[..|data| - 1], limit, s);
      ByteNeverWrites(m, WalkData(m, data[..|data| - 1], limit).value, BitString(data[|data| - 1], 8), limit, s);
    }
  }

  // ----- the exact limit -----------------------------------------------------------------------------------------

  /** A lone symbol has one bit, so a code longer than 32 bits means at least two symbols. */
  lemma LongMeansMany(buf: Buffer)
    requires buf != [] && !LengthsAtMost(LengthTable(Freqs(buf)), 32)
    ensures TableKraft(LengthTable(Freqs(buf)), 255) == Pow2(255)
  {
    hide LengthTable, Freqs, TableKraft, Pow2, Sum, Used, HuffmanRoot, Good, Cost;
    FreqsCount(buf);
    var freq := Freqs(buf);
    LengthsKraft(freq, 255);
    RootResult(freq);
    LengthsUsed(freq);
  }

  /** With a code longer than 32 bits decoding never returns the buffer: one of its symbols is never written. */
  lemma LongCodesFail(buf: Buffer)
    requires buf != [] && BitsFit(buf) && !LengthsAtMost(LengthTable(Freqs(buf)), 32)
    ensures Encoded(buf).Some? && Decoded(Encoded(buf).value) != Some(buf)
  {
    hide *;
    EncodedFields(buf);
    LongMeansMany(buf);
    var lengths := LengthTable(Freqs(buf));
    var t := TooLong(lengths);
    var s := CollidingSymbol(lengths, t);
    SymbolOccurs(buf, s);
    CollisionFails(Encoded(buf).value, s, t);
  }

  lemma CollidingSymbol(lengths: seq<byte>, t: byte) returns (s: byte)
    requires |lengths| == ALPHABET_SIZE && TableKraft(lengths, 255) == Pow2(255) && lengths[t] > 32
    ensures 0 < lengths[s] < lengths[t] && Code(lengths, s) == Code(lengths, t)[..lengths[s]]
  {
    hide TableKraft, Pow2, Code;
    s := LongCodeCollides(lengths, t);
  }

  lemma TooLong(lengths: seq<byte>) returns (t: byte)
    requires |lengths| == ALPHABET_SIZE && !LengthsAtMost(lengths, 32)
    ensures lengths[t] > 32
  {
    t :| lengths[t] > 32;
  }

  lemma CollisionFails(c: Chunk, s: byte, t: byte)
    requires |c.lengths| == ALPHABET_SIZE && 0 < c.lengths[s] < c.lengths[t]
    requires Code(c.lengths, s) == Code(c.lengths, t)[..c.lengths[s]]
    ensures Decoded(c).Some? ==> s !in Decoded(c).value
  {
    hide Code, BuildLabels, WalkData, Represents, NoLeafFor;
    if BuildLabels(c.lengths, Ascending(ALPHABET_SIZE)).Some? {
      var m := BuildLabels(c.lengths, Ascending(ALPHABET_SIZE)).value;
      BuiltRepresents(c.lengths, Ascending(ALPHABET_SIZE));
      RunOver(m, c.lengths, s, t);
      if WalkData(m, c.data, c.origSize).Some? {
        DataNeverWrites(m, c.data, c.origSize, s);
      }
    }
  }

  lemma SymbolOccurs(buf: Buffer, s: byte)
    requires buf != [] && LengthTable(Freqs(buf))[s] > 0
    ensures s in buf
  {
    hide LengthTable, Freqs;
    FreqsCount(buf);
    LengthsUsed(Freqs(buf));
    assert s in multiset(buf);
  }

  /** Encoding and decoding returns the buffer if and only if no code is longer than 32 bits. */
  lemma RoundTripIff(buf: Buffer)
    requires buf != [] && BitsFit(buf)
    ensures Encoded(buf).Some?
    ensures Decoded(Encoded(buf).value) == Some(buf) <==> LengthsAtMost(LengthTable(Freqs(buf)), 32)
  {
    hide *;
    if LengthsAtMost(LengthTable(Freqs(buf)), 32) {
      RoundTrip(buf);
    } else {
      LongCodesFail(buf);
    }
  }
}
