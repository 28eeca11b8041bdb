/** A file the writer compresses and the reader refuses: one full chunk whose run-length coding outgrows the
    largest chunk although the whole shrinks. */
module UnreadableChunk {
  import opened Bytes
  import opened BitStrings
  import opened HuffmanOptimality
  import opened HuffmanLengths
  import opened HuffmanResults
  import opened ChunkHeader
  import opened ChunkCodec
  import opened FileCodec
  import opened PeriodicWord
  import HuffmanCodec
  import HuffmanRoundTrip
  import Bwt
  import Mtf
  import Rle

  // ----- move-to-front codes -------------------------------------------------------------------------------------

  /** Symbols come in pairs; a pair differs from the one before. */
  predicate Paired(buf: seq<byte>)
  {
    && (forall k :: 0 <= k < |buf| ==> buf[k] <= 4)
    && forall k :: 1 <= k < |buf| ==> (buf[k] == buf[k - 1] <==> k % 2 == 1)
  }

  lemma ColumnPaired(col: seq<byte>)
    requires forall k :: 0 <= k < |col| ==> col[k] == Column(k)
    ensures Paired(col)
  {
    forall k | 1 <= k < |col|
      ensures col[k] == col[k - 1] <==> k % 2 == 1
    {
      NeighbourColumns(k);
    }
  }

  lemma NeighbourColumns(k: nat)
    requires k >= 1
    ensures Column(k) == Column(k - 1) <==> k % 2 == 1
  {
    var h := k / 2;
    if k % 2 == 0 {
      assert (k - 1) / 2 == h - 1;
      var a, b := 3 + 2 * h, 3 + 2 * (h - 1);
      assert a == b + 2;
    } else {
      assert (k - 1) / 2 == h;
    }
  }

  /** Beyond the first five places the table is as at the start. */
  predicate HighUntouched(t: seq<byte>)
  {
    |t| == ALPHABET_SIZE && forall i :: 5 <= i < ALPHABET_SIZE ==> t[i] == i
  }

  lemma LowPosition(t: seq<byte>, s: byte)
    requires Mtf.IsTable(t) && HighUntouched(t) && s <= 4
    ensures Mtf.Position(t, s) <= 4 && HighUntouched(Mtf.Use(t, Mtf.Position(t, s)))
  {
    hide Mtf.Position;
    var p := Mtf.Position(t, s);
    assert t[p] == s;
  }

  /** The table holds the last symbol in front, and only its first five places ever change. */
  lemma {:induction false} TableFacts(buf: seq<byte>)
    requires forall k :: 0 <= k < |buf| ==> buf[k] <= 4
    ensures HighUntouched(Mtf.TableAfter(buf))
    ensures buf != [] ==> Mtf.TableAfter(buf)[0] == buf[|buf| - 1]
  {
    hide Mtf.IsTable, Mtf.Position, HighUntouched;
    if buf == [] {
      Mtf.TablesStart();
      StartUntouched();
    } else {
      var front, s := buf[..|buf| - 1], buf[|buf| - 1];
      TableFacts(front);
      LowPosition(Mtf.TableAfter(front), s);
    }
  }

  lemma StartUntouched()
    ensures HighUntouched(Mtf.InitialTable())
  {
  }

  /** The code of a symbol is zero exactly when it repeats the one before. */
  lemma {:induction false} CodesAlternate(buf: seq<byte>)
    requires Paired(buf) && (buf != [] ==> buf[0] > 0)
    ensures forall k :: 0 <= k < |buf| ==> Mtf.Encoded(buf)[k] <= 4
    ensures forall k :: 0 <= k < |buf| ==> (Mtf.Encoded(buf)[k] == 0 <==> k % 2 == 1)
    decreases |buf|
  {
    hide Mtf.IsTable, Mtf.TableAfter, Mtf.Position, HighUntouched;
    if buf != [] {
      var n := |buf| - 1;
      var front := buf[..n];
      assert Paired(front) && (front != [] ==> front[0] == buf[0]);
      CodesAlternate(front);
      TableFacts(front);
      LowPosition(Mtf.TableAfter(front), buf[n]);
      FrontPosition(Mtf.TableAfter(front), buf[n]);
      if n == 0 { FirstTable(); }
    }
  }

  lemma FirstTable()
    ensures Mtf.TableAfter([])[0] == 0
  {
    Mtf.TablesStart();
  }

  lemma FrontPosition(t: seq<byte>, s: byte)
    requires Mtf.IsTable(t)
    ensures Mtf.Position(t, s) == 0 <==> t[0] == s
  {
    Mtf.PositionUnique(t, 0);
  }

  // ----- run-length coding ---------------------------------------------------------------------------------------

  /** No byte equals its neighbour: there is no run, every block is literal. */
  predicate NoRepeats(buf: seq<byte>)
  {
    forall k :: 1 <= k < |buf| ==> buf[k] != buf[k - 1]
  }

  lemma SingleRun(buf: seq<byte>, i: nat)
    requires NoRepeats(buf) && i < |buf|
    ensures Rle.Run(buf, i) == 1
  {
    hide Rle.Extend;
    var r := Rle.Run(buf, i);
    assert i + 1 < |buf| ==> buf[i + 1] != buf[i];
  }

  /** Without runs every literal block but the last is full. */
  lemma FullLiteral(buf: seq<byte>, i: nat)
    requires NoRepeats(buf) && i < |buf|
    ensures Rle.Run(buf, i) < Rle.MIN_RUN && Rle.LiteralBlock(buf, i) == Min(Rle.MAX_RUN, |buf| - i)
  {
    hide Rle.Run, Rle.Literal;
    SingleRun(buf, i);
    var r := Rle.LiteralBlock(buf, i);
    if i + r < |buf| { SingleRun(buf, i + r); }
  }

  /** Every byte costs itself, and every 128 bytes begun one more; nothing exceeds 127. */
  lemma {:induction false} NoRunsSize(buf: seq<byte>, i: nat)
    requires NoRepeats(buf) && i <= |buf| && forall k :: 0 <= k < |buf| ==> buf[k] <= 4
    ensures |Rle.EncodedFrom(buf, i)| == (|buf| - i) + (|buf| - i + 127) / 128
    ensures forall k :: 0 <= k < |Rle.EncodedFrom(buf, i)| ==> Rle.EncodedFrom(buf, i)[k] < 128
    decreases |buf| - i
  {
    hide Rle.Run, Rle.Literal, Rle.EncodedFrom, NoRepeats, Rle.LiteralBlock;
    if i == |buf| {
      Rle.EncodedEnd(buf);
    } else {
      FullLiteral(buf, i);
      Rle.EncodedUnfold(buf, i);
      LiteralSmall(buf, i);
      NoRunsSize(buf, Rle.Reach(buf, i));
      OneBlock(|buf| - i);
    }
  }

  lemma OneBlock(n: nat)
    requires n > 0
    ensures var r := Min(128, n); r + 1 + (n - r) + (n - r + 127) / 128 == n + (n + 127) / 128
  {
  }

  lemma LiteralSmall(buf: seq<byte>, i: nat)
    requires i < |buf| && Rle.Run(buf, i) < Rle.MIN_RUN && forall k :: 0 <= k < |buf| ==> buf[k] <= 4
    ensures |Rle.Block(buf, i)| == 1 + Rle.LiteralBlock(buf, i)
    ensures forall k :: 0 <= k < |Rle.Block(buf, i)| ==> Rle.Block(buf, i)[k] < 128
  {
    hide Rle.Run, Rle.LiteralBlock;
  }

  /** The run-length coding of the codes of the witness is 264192 bytes long. */
  lemma WitnessCodes(col: seq<byte>)
    requires |col| == SIZE && forall k :: 0 <= k < SIZE ==> col[k] == Column(k)
    ensures |Rle.Encoded(Mtf.Encoded(col))| == 264192
    ensures forall k :: 0 <= k < 264192 ==> Rle.Encoded(Mtf.Encoded(col))[k] < 128
  {
    hide Mtf.Encoded, Rle.EncodedFrom, Paired, Column;
    ColumnPaired(col);
    ColumnAtZero();
    CodesAlternate(col);
    var codes := Mtf.Encoded(col);
    forall k | 1 <= k < |codes|
      ensures codes[k] != codes[k - 1]
    {
      assert codes[k] == 0 <==> k % 2 == 1;
      assert codes[k - 1] == 0 <==> (k - 1) % 2 == 1;
    }
    NoRunsSize(codes, 0);
  }

  lemma ColumnAtZero()
    ensures Column(0) == 3
  {
  }

  // ----- seven bits a symbol -------------------------------------------------------------------------------------

  /** Seven-bit codes for the symbols below 128. */
  function SevenBits(): (code: seq<seq<bool>>)
    ensures |code| == ALPHABET_SIZE
    ensures forall s :: 0 <= s < ALPHABET_SIZE ==> code[s] == BitString(s, 7)
  {
    seq(ALPHABET_SIZE, s requires 0 <= s < ALPHABET_SIZE => BitString(s, 7))
  }

  lemma SevenBitsApart(s: byte, t: byte)
    requires s < 128 && t < 128 && s != t
    ensures !Comparable(BitString(s, 7), BitString(t, 7))
  {
    hide BitString, BitsValue;
    SevenIs128();
    BitStringValue(s, 7);
    BitStringValue(t, 7);
    var a, b := BitString(s, 7), BitString(t, 7);
    assert a[..7] == a && b[..7] == b;
  }

  lemma SevenIs128()
    ensures Pow2(7) == 128
  {
  }

  /** A buffer of bytes below 128 is coded in at most seven bits a byte. */
  lemma SevenBitsDo(buf: Buffer)
    requires buf != [] && forall i :: 0 <= i < |buf| ==> buf[i] < 128
    ensures Bits(buf, LengthTable(Freqs(buf))) <= 7 * |buf|
  {
    hide LengthTable, Freqs, Bits, SevenBits, BitString, Comparable;
    FreqsCount(buf);
    if |Used(Freqs(buf), ALPHABET_SIZE)| >= 2 {
      forall s: byte, t: byte | s in Used(Freqs(buf), ALPHABET_SIZE) && t in Used(Freqs(buf), ALPHABET_SIZE) && s != t
        ensures !Comparable(SevenBits()[s], SevenBits()[t])
      {
        assert s in multiset(buf) && t in multiset(buf);
        SevenBitsApart(s, t);
      }
      HuffmanIsOptimal(buf, SevenBits());
      SevenLong();
      BitsAtMost(buf, Lengths(SevenBits()), 7);
    } else {
      LoneSymbol(buf);
      BitsAtMost(buf, LengthTable(Freqs(buf)), 1);
    }
  }

  lemma SevenLong()
    ensures AtMost(Lengths(SevenBits()), 7)
  {
  }

  lemma LoneSymbol(buf: Buffer)
    requires buf != [] && |Used(Freqs(buf), ALPHABET_SIZE)| < 2
    ensures AtMost(LengthTable(Freqs(buf)), 1)
  {
    hide LengthTable, Freqs, Used;
    FreqsCount(buf);
    RootResult(Freqs(buf));
    LengthsUsed(Freqs(buf));
  }

  lemma EncodedBySeven(buf: Buffer)
    requires 0 < |buf| < 0x2000_0000 && forall i :: 0 <= i < |buf| ==> buf[i] < 128
    ensures HuffmanCodec.Encoded(buf).Some?
    ensures HuffmanCodec.Encoded(buf).value.encodedSize <= (7 * |buf| + 7) / 8
  {
    hide LengthTable, Freqs, Bits;
    SevenBitsDo(buf);
    EncodedNotLonger(buf);
    HuffmanCodec.CodeBitsCount(buf, LengthTable(Freqs(buf)));
  }

  // ----- the witness ---------------------------------------------------------------------------------------------

  /** The witness is one chunk. However its equal rotations are ordered, the chunk shrinks, but its run-length
      coding has 264192 bytes and the header is not acceptable. */
  lemma WitnessChunk(c: Packed)
    requires IsPacked(Word(), c)
    ensures c.header.origSize == 264192 && !Validate(c.header)
    ensures WellFormed(c.header) && HEADER_SIZE + |c.payload| < SIZE
  {
    hide Word, Mtf.Encoded, Rle.Encoded, HuffmanCodec.Encoded, Bwt.IsBwt, Column;
    PackedFields(Word(), c);
    var col :| IsPackedBy(Word(), c, col);
    ColumnUnique(col, c.header.primaryIndex);
    WitnessCodes(col);
    var rle := Rle.Encoded(Mtf.Encoded(col));
    EncodedBySeven(rle);
    HuffmanRoundTrip.EncodedFields(rle);
  }

  /** A file the writer accepts as compressed and the reader cannot read. */
  lemma UnreadableFile(cs: seq<Packed>)
    requires Compressed(Word(), cs)
    ensures |Word()| == MAX_CHUNK_SIZE && |Written(cs)| < |Word()| && !AllAccepted(cs)
  {
    hide Word, IsPacked, OnDisk, Validate;
    assert |cs| == 1;
    PieceIsWord();
    WitnessChunk(cs[0]);
    HeaderSizes(cs[0].header);
    assert cs == [] + [cs[0]];
    WrittenNext([], cs[0]);
    assert !Validate(cs[0].header);
  }

  lemma PieceIsWord()
    ensures Piece(Word(), 0) == Word()
  {
    hide Word;
  }

  /** Compressing the witness succeeds, and decompressing what was written fails. */
  method WriteThenRead() returns (written: bool, read: bool)
    ensures written && !read
  {
    hide *;
    WitnessSize();
    ghost var cs;
    var y, writerCrc, readerCrc;
    written, read, y, writerCrc, readerCrc, cs := CompressAndBack(Word(), 0);
    UnreadableFile(cs);
  }

  lemma WitnessSize()
    ensures |Word()| < 0x1_0000_0000_0000_0000
  {
    hide Word;
  }
}
