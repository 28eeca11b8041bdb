/** Decoding what was encoded gives the buffer back. */
module HuffmanRoundTrip {
  import opened Bytes
  import opened BitStrings
  import opened HuffmanLengths
  import opened HuffmanResults
  import opened CanonicalCodes
  import opened DecodeTree
  import opened HuffmanCodec

  // ----- the walk without an end of output -----------------------------------------------------------------------

  /** The walk over a bit string that never stops early. */
  function FreeWalk(m: Labels, w: Walker, bits: seq<bool>): Option<Walker>
    decreases |bits|
  {
    if bits == [] then Some(w)
    else
      match FreeWalk(m, w, bits[..|bits| - 1])
      case None => None
      case Some(w') => Step(m, w', bits[|bits| - 1])
  }

  lemma {:induction false} FreeWalkAppend(m: Labels, w: Walker, a: seq<bool>, b: seq<bool>)
    ensures FreeWalk(m, w, a + b) ==
            match FreeWalk(m, w, a)
            case None => None
            case Some(w') => FreeWalk(m, w', b)
    decreases |b|
  {
    hide Step;
    if b == [] {
      assert a + b == a;
    } else {
      FreeWalkAppend(m, w, a, b[..|b| - 1]);
      assert (a + b)[..|a + b| - 1] == a + b[..|b| - 1];
    }
  }

  lemma {:induction false} FreeWalkWrites(m: Labels, w: Walker, bits: seq<bool>)
    requires FreeWalk(m, w, bits).Some?
    ensures |w.out| <= |FreeWalk(m, w, bits).value.out|
    decreases |bits|
  {
    if bits != [] { FreeWalkWrites(m, w, bits[..|bits| - 1]); }
  }

  lemma FreeWalkFirst(m: Labels, w: Walker, bits: seq<bool>)
    requires bits != []
    ensures FreeWalk(m, w, bits) ==
            match Step(m, w, bits[0])
            case None => None
            case Some(w') => FreeWalk(m, w', bits[1..])
  {
    hide Step;
    assert bits == [bits[0]] + bits[1..];
    FreeWalkAppend(m, w, [bits[0]], bits[1..]);
    assert [bits[0]][..0] == [];
    assert FreeWalk(m, w, [bits[0]]) == Step(m, w, bits[0]);
  }

  // ----- codes and buffers ---------------------------------------------------------------------------------------

  /** A tree built from usable lengths. */
  ghost predicate TreeOf(m: Labels, lengths: seq<byte>)
  {
    Usable(lengths) && Represents(m, lengths, Ascending(ALPHABET_SIZE))
  }

  lemma {:induction false} CodeWalk(m: Labels, lengths: seq<byte>, s: byte, out: seq<byte>, k: nat)
    requires |lengths| == ALPHABET_SIZE && TreeOf(m, lengths) && 0 < lengths[s] && k <= lengths[s]
    ensures FreeWalk(m, Walker([], out), Code(lengths, s)[..k]) ==
            Some(if k < lengths[s] then Walker(Code(lengths, s)[..k], out) else Walker([], out + [s]))
  {
    hide Code, Usable, Represents, IsLeaf;
    var c := Code(lengths, s);
    if k > 0 {
      CodeWalk(m, lengths, s, out, k - 1);
      StepOnCode(m, lengths, s, out, k);
      assert c[..k][..k - 1] == c[..k - 1];
    }
  }

  lemma StepOnCode(m: Labels, lengths: seq<byte>, s: byte, out: seq<byte>, k: nat)
    requires |lengths| == ALPHABET_SIZE && TreeOf(m, lengths) && 0 < k <= lengths[s]
    ensures Step(m, Walker(Code(lengths, s)[..k - 1], out), Code(lengths, s)[k - 1]) ==
            Some(if k < lengths[s] then Walker(Code(lengths, s)[..k], out) else Walker([], out + [s]))
  {
    hide Code, TableKraft, Represents, IsLeaf;
    var c := Code(lengths, s);
    assert Ascending(ALPHABET_SIZE)[s] == s;
    CodePath(m, lengths, Ascending(ALPHABET_SIZE), s, k);
    assert c[..k] == c[..k - 1] + [c[k - 1]];
  }

  predicate AllCoded(buf: seq<byte>, lengths: seq<byte>)
    requires |lengths| == ALPHABET_SIZE
  {
    forall i :: 0 <= i < |buf| ==> lengths[buf[i]] > 0
  }

  /** All codes of a buffer lead to exactly that buffer. */
  lemma {:induction false} BufferWalk(m: Labels, lengths: seq<byte>, buf: seq<byte>)
    requires |lengths| == ALPHABET_SIZE && TreeOf(m, lengths) && AllCoded(buf, lengths)
    ensures FreeWalk(m, Walker([], []), CodeBits(buf, lengths)) == Some(Walker([], buf))
  {
    hide Code, Represents, FreeWalk, TableKraft;
    if buf == [] {
      WalkNoBits(m);
    } else {
      var front, s := buf[..|buf| - 1], buf[|buf| - 1];
      BufferWalk(m, lengths, front);
      FreeWalkAppend(m, Walker([], []), CodeBits(front, lengths), Code(lengths, s));
      CodeWalk(m, lengths, s, front, lengths[s]);
      assert Code(lengths, s)[..lengths[s]] == Code(lengths, s);
      assert buf == front + [s];
    }
  }

  lemma WalkNoBits(m: Labels)
    ensures FreeWalk(m, Walker([], []), []) == Some(Walker([], []))
  {
  }

  /** Before the last bit, the buffer is not complete. */
  lemma {:induction false} PartialWalk(m: Labels, lengths: seq<byte>, buf: seq<byte>, n: nat)
    requires |lengths| == ALPHABET_SIZE && TreeOf(m, lengths) && AllCoded(buf, lengths) && n < |CodeBits(buf, lengths)|
    ensures FreeWalk(m, Walker([], []), CodeBits(buf, lengths)[..n]).Some?
    ensures |FreeWalk(m, Walker([], []), CodeBits(buf, lengths)[..n]).value.out| < |buf|
  {
    hide Code, Represents, FreeWalk, TableKraft;
    var front, s := buf[..|buf| - 1], buf[|buf| - 1];
    var fb, c := CodeBits(front, lengths), Code(lengths, s);
    assert CodeBits(buf, lengths) == fb + c;
    if n < |fb| {
      PartialWalk(m, lengths, front, n);
      assert (fb + c)[..n] == fb[..n];
    } else {
      BufferWalk(m, lengths, front);
      assert (fb + c)[..n] == fb + c[..n - |fb|];
      FreeWalkAppend(m, Walker([], []), fb, c[..n - |fb|]);
      CodeWalk(m, lengths, s, front, n - |fb|);
    }
  }

  // ----- bytes ---------------------------------------------------------------------------------------------------

  /** While the buffer is not complete, a byte is walked to its end. */
  lemma {:induction false} WholeByte(m: Labels, w: Walker, bits: seq<bool>, limit: nat)
    requires FreeWalk(m, w, bits).Some? && |FreeWalk(m, w, bits).value.out| < limit
    ensures WalkByte(m, w, bits, limit) == FreeWalk(m, w, bits)
    decreases |bits|
  {
    hide Step;
    if bits != [] {
      FreeWalkFirst(m, w, bits);
      var w' := Step(m, w, bits[0]).value;
      FreeWalkWrites(m, w', bits[1..]);
      WholeByte(m, w', bits[1..], limit);
    }
  }

  /** The last symbol ends the walk, whatever bits follow in its byte. */
  lemma {:induction false} LastSymbol(m: Labels, w: Walker, bits: seq<bool>, padding: seq<bool>, limit: nat)
    requires bits != [] && FreeWalk(m, w, bits).Some?
    requires FreeWalk(m, w, bits).value.path == [] && |FreeWalk(m, w, bits).value.out| == limit
    requires FreeWalk(m, w, bits[..|bits| - 1]).Some?
    requires |FreeWalk(m, w, bits[..|bits| - 1]).value.out| < limit
    ensures WalkByte(m, w, bits + padding, limit) == FreeWalk(m, w, bits)
    decreases |bits|
  {
    hide Step, FreeWalk;
    var w' := Step(m, w, bits[0]);
    FreeWalkFirst(m, w, bits);
    assert (bits + padding)[0] == bits[0] && (bits + padding)[1..] == bits[1..] + padding;
    if |bits| == 1 {
      assert bits[1..] == [];
      FreeWalkNone(m, w'.value);
    } else {
      var front := bits[..|bits| - 1];
      FreeWalkFirst(m, w, front);
      assert front[1..] == bits[1..][..|bits[1..]| - 1];
      FreeWalkWrites(m, w'.value, front[1..]);
      LastSymbol(m, w'.value, bits[1..], padding, limit);
    }
  }

  lemma FreeWalkNone(m: Labels, w: Walker)
    ensures FreeWalk(m, w, []) == Some(w)
  {
  }

  lemma {:induction false} WalkWholeBytes(m: Labels, lengths: seq<byte>, buf: seq<byte>, i: nat)
    requires |lengths| == ALPHABET_SIZE && TreeOf(m, lengths) && AllCoded(buf, lengths) && 8 * i < |CodeBits(buf, lengths)|
    ensures WalkData(m, Pack(CodeBits(buf, lengths))[..i], |buf|) ==
            FreeWalk(m, Walker([], []), CodeBits(buf, lengths)[..8 * i])
  {
    hide TreeOf, CodeBits, FreeWalk, ByteAt, Pack, WalkByte;
    var bits := CodeBits(buf, lengths);
    var data := Pack(bits);
    if i == 0 {
      WalkNothing(m, |buf|);
      FreeWalkNone(m, Walker([], []));
    } else {
      WalkWholeBytes(m, lengths, buf, i - 1);
      WalkOneMore(m, data, i - 1, |buf|);
      var part := bits[8 * (i - 1)..8 * i];
      InnerByte(bits, i - 1);
      PartialWalk(m, lengths, buf, 8 * (i - 1));
      PartialWalk(m, lengths, buf, 8 * i);
      assert bits[..8 * i] == bits[..8 * (i - 1)] + part;
      var w := FreeWalk(m, Walker([], []), bits[..8 * (i - 1)]).value;
      FreeWalkAppend(m, Walker([], []), bits[..8 * (i - 1)], part);
      WholeByte(m, w, part, |buf|);
    }
  }

  lemma InnerByte(bits: seq<bool>, i: nat)
    requires 8 * i + 8 <= |bits|
    ensures i < |Pack(bits)|
    ensures BitString(Pack(bits)[i], 8) == bits[8 * i..8 * i + 8]
  {
    hide BitString;
    forall j | 0 <= j < 8
      ensures Slice(bits, i, 8)[j] == bits[8 * i..8 * i + 8][j]
    {
    }
  }

  lemma OuterByte(bits: seq<bool>, i: nat) returns (padding: seq<bool>)
    requires 8 * i < |bits| <= 8 * i + 8
    ensures |Pack(bits)| == i + 1
    ensures BitString(Pack(bits)[i], 8) == bits[8 * i..] + padding
  {
    hide BitString;
    padding := Slice(bits, i, 8)[|bits| - 8 * i..];
    forall j | 0 <= j < 8
      ensures Slice(bits, i, 8)[j] == (bits[8 * i..] + padding)[j]
    {
    }
  }

  /** Walking all packed bytes writes the buffer, and only whole padding is skipped. */
  lemma WalkAllBytes(m: Labels, lengths: seq<byte>, buf: seq<byte>)
    requires |lengths| == ALPHABET_SIZE && TreeOf(m, lengths) && AllCoded(buf, lengths) && buf != []
    ensures WalkData(m, Pack(CodeBits(buf, lengths)), |buf|) == Some(Walker([], buf))
    ensures RoomForEachByte(m, Pack(CodeBits(buf, lengths)), |buf|)
  {
    hide TreeOf, FreeWalk, WalkByte, WalkData, Pack, Code, PackedSize;
    var bits := CodeBits(buf, lengths);
    var data := Pack(bits);
    assert |bits| >= |Code(lengths, buf[|buf| - 1])| > 0;
    var i := (|bits| - 1) / 8;
    var padding := OuterByte(bits, i);
    forall k | 0 <= k < |data|
      ensures WalkData(m, data[..k], |buf|).Some? && |WalkData(m, data[..k], |buf|).value.out| < |buf|
    {
      WalkWholeBytes(m, lengths, buf, k);
      PartialWalk(m, lengths, buf, 8 * k);
    }
    WalkLastByte(m, lengths, buf, i, padding);
    assert data[..i + 1] == data;
    WalkOneMore(m, data, i, |buf|);
  }

  lemma WalkLastByte(m: Labels, lengths: seq<byte>, buf: seq<byte>, i: nat, padding: seq<bool>)
    requires |lengths| == ALPHABET_SIZE && TreeOf(m, lengths) && AllCoded(buf, lengths)
    requires 8 * i < |CodeBits(buf, lengths)|
    ensures WalkData(m, Pack(CodeBits(buf, lengths))[..i], |buf|).Some?
    ensures var w := WalkData(m, Pack(CodeBits(buf, lengths))[..i], |buf|).value;
            WalkByte(m, w, CodeBits(buf, lengths)[8 * i..] + padding, |buf|) == Some(Walker([], buf))
  {
    hide TreeOf, FreeWalk, WalkByte, WalkData, Pack, CodeBits;
    var bits := CodeBits(buf, lengths);
    var start := Walker([], []);
    WalkWholeBytes(m, lengths, buf, i);
    PartialWalk(m, lengths, buf, 8 * i);
    PartialWalk(m, lengths, buf, |bits| - 1);
    BufferWalk(m, lengths, buf);
    var w := FreeWalk(m, start, bits[..8 * i]).value;
    var tail := bits[8 * i..];
    assert bits == bits[..8 * i] + tail;
    FreeWalkAppend(m, start, bits[..8 * i], tail);
    assert bits[..|bits| - 1] == bits[..8 * i] + tail[..|tail| - 1];
    FreeWalkAppend(m, start, bits[..8 * i], tail[..|tail| - 1]);
    LastSymbol(m, w, tail, padding, |buf|);
  }

  // ----- the theorem ---------------------------------------------------------------------------------------------

  lemma UsableTable(buf: Buffer)
    requires buf != [] && LengthsAtMost(LengthTable(Freqs(buf)), 32)
    ensures Usable(LengthTable(Freqs(buf)))
    ensures AllCoded(buf, LengthTable(Freqs(buf)))
  {
    hide LengthTable, TableKraft, Pow2, Freqs;
    FreqsCount(buf);
    LengthsKraft(Freqs(buf), 32);
    LengthsUsed(Freqs(buf));
    forall i | 0 <= i < |buf|
      ensures LengthTable(Freqs(buf))[buf[i]] > 0
    {
      assert buf[i] in multiset(buf);
    }
  }

  lemma EncodedFields(buf: Buffer)
    requires buf != [] && BitsFit(buf)
    ensures Encoded(buf).Some?
    ensures var c := Encoded(buf).value;
            && c.lengths == LengthTable(Freqs(buf)) && c.origSize == |buf|
            && c.data == Pack(CodeBits(buf, c.lengths)) && |c.data| == c.encodedSize
            && 0 < c.encodedSize <= |buf|
  {
    hide LengthTable, Freqs, CodeBits;
    EncodedNotLonger(buf);
    CodeBitsCount(buf, LengthTable(Freqs(buf)));
    SomeBits(buf);
  }

  lemma SomeBits(buf: Buffer)
    requires buf != []
    ensures |CodeBits(buf, LengthTable(Freqs(buf)))| > 0
  {
    hide LengthTable, Freqs, Code;
    FreqsCount(buf);
    LengthsUsed(Freqs(buf));
    assert buf[|buf| - 1] in multiset(buf);
  }

  lemma DecodesPacked(buf: Buffer, c: Chunk)
    requires buf != [] && |c.lengths| == ALPHABET_SIZE && Usable(c.lengths) && AllCoded(buf, c.lengths)
    requires c.origSize == |buf| && c.data == Pack(CodeBits(buf, c.lengths))
    ensures Decoded(c) == Some(buf) && StaysInBuffer(c)
  {
    hide BuildLabels, Represents, WalkData, CodeBits, Pack, RoomForEachByte, Usable;
    BuildInAnyOrder(c.lengths, Ascending(ALPHABET_SIZE));
    WalkAllBytes(BuildLabels(c.lengths, Ascending(ALPHABET_SIZE)).value, c.lengths, buf);
  }

  /** Decoding the encoder's output returns the buffer whenever no code exceeds 32 bits, and
      never writes past the output buffer. */
  lemma RoundTrip(buf: Buffer)
    requires buf != [] && BitsFit(buf) && LengthsAtMost(LengthTable(Freqs(buf)), 32)
    ensures Encoded(buf).Some?
    ensures Decoded(Encoded(buf).value) == Some(buf)
    ensures StaysInBuffer(Encoded(buf).value)
  {
    hide *;
    UsableTable(buf);
    EncodedFields(buf);
    DecodesPacked(buf, Encoded(buf).value);
  }

  /** Every buffer of 1 to 9227464 bytes survives. */
  lemma RoundTripUpTo(buf: Buffer)
    requires 1 <= |buf| <= 9227464
    ensures Encoded(buf).Some?
    ensures Decoded(Encoded(buf).value) == Some(buf)
    ensures StaysInBuffer(Encoded(buf).value)
  {
    hide Encoded, Decoded, StaysInBuffer, LengthTable, Freqs;
    CodesFitWord(buf);
    RoundTrip(buf);
  }
}
