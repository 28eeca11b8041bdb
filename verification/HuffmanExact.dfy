/** Exactly which data the Huffman decoder accepts, and what it returns. */
module HuffmanExact {
  import opened Bytes
  import opened BitStrings
  import opened CanonicalCodes
  import opened DecodeTree
  import opened HuffmanCodec
  import opened HuffmanRoundTrip
  import opened HuffmanLimits

  /** All bits of the data, most significant first in each byte. */
  function BitsOf(data: seq<byte>): (bits: seq<bool>)
    ensures |bits| == 8 * |data|
  {
    if data == [] then [] else BitsOf(data[..|data| - 1]) + BitString(data[|data| - 1], 8)
  }

  lemma {:induction false} BitsOfByte(data: seq<byte>, i: nat)
    requires i < |data|
    ensures BitsOf(data)[8 * i..8 * i + 8] == BitString(data[i], 8)
    ensures BitsOf(data)[..8 * i] == BitsOf(data[..i])
    decreases |data|
  {
    hide BitString;
    var n := |data| - 1;
    if i < n {
      BitsOfByte(data[..n], i);
      assert data[..n][..i] == data[..i];
      assert BitsOf(data)[8 * i..8 * i + 8] == BitsOf(data[..n])[8 * i..8 * i + 8];
      assert BitsOf(data)[..8 * i] == BitsOf(data[..n])[..8 * i];
    }
  }

  // ----- codes followed by padding are accepted ------------------------------------------------------------------

  lemma SameByte(b: byte, c: byte)
    requires BitString(b, 8) == BitString(c, 8)
    ensures b == c
  {
    hide BitString, BitsValue;
    assert Pow2(8) == 256;
    BitStringValue(b, 8);
    BitStringValue(c, 8);
  }

  lemma SlicesAgree(bits: seq<bool>, all: seq<bool>, i: nat)
    requires bits <= all && 8 * i + 8 <= |bits|
    ensures bits[8 * i..8 * i + 8] == all[8 * i..8 * i + 8]
  {
  }

  /** Bytes made of code bits only are those the encoder packs. */
  lemma PackedFront(bits: seq<bool>, data: seq<byte>, n: nat)
    requires bits <= BitsOf(data) && n <= |data| && 8 * n <= |bits|
    ensures n <= |Pack(bits)| && data[..n] == Pack(bits)[..n]
  {
    hide BitString, Pack, BitsOf;
    assert n <= |Pack(bits)| by { PackSize(bits); }
    forall k | 0 <= k < n
      ensures data[k] == Pack(bits)[k]
    {
      InnerByte(bits, k);
      BitsOfByte(data, k);
      SlicesAgree(bits, BitsOf(data), k);
      SameByte(data[k], Pack(bits)[k]);
    }
  }

  lemma PackSize(bits: seq<bool>)
    ensures |Pack(bits)| == (|bits| + 7) / 8
  {
  }

  /** The codes of a buffer, and whatever fills up the last byte, decode to the buffer. */
  lemma AnyPadding(m: Labels, lengths: seq<byte>, buf: seq<byte>, data: seq<byte>)
    requires |lengths| == ALPHABET_SIZE && TreeOf(m, lengths) && AllCoded(buf, lengths) && buf != []
    requires CodeBits(buf, lengths) <= BitsOf(data) && |data| == PackedSize(|CodeBits(buf, lengths)|)
    ensures WalkData(m, data, |buf|) == Some(Walker([], buf))
  {
    hide TreeOf, WalkData, WalkByte, CodeBits, Pack, BitsOf, BitString;
    var bits := CodeBits(buf, lengths);
    HasBits(buf, lengths);
    var i: nat := (|bits| - 1) / 8;
    PackedFront(bits, data, i);
    BitsOfByte(data, i);
    LastPadding(bits, BitsOf(data), i);
    WalkLastByte(m, lengths, buf, i, BitsOf(data)[8 * i..8 * i + 8][|bits| - 8 * i..]);
    WalkOneMore(m, data, i, |buf|);
    assert data[..i + 1] == data;
  }

  lemma HasBits(buf: seq<byte>, lengths: seq<byte>)
    requires |lengths| == ALPHABET_SIZE && AllCoded(buf, lengths) && buf != []
    ensures |CodeBits(buf, lengths)| > 0
  {
    hide Code;
    assert |Code(lengths, buf[|buf| - 1])| > 0;
  }

  lemma LastPadding(bits: seq<bool>, all: seq<bool>, i: nat)
    requires bits <= all && 8 * i < |bits| <= 8 * i + 8 <= |all|
    ensures all[8 * i..8 * i + 8] == bits[8 * i..] + all[8 * i..8 * i + 8][|bits| - 8 * i..]
  {
  }

  // ----- and nothing else is -------------------------------------------------------------------------------------

  /** The walker has read exactly the codes of what it wrote, and its path. */
  ghost predicate HasRead(lengths: seq<byte>, w: Walker, bits: seq<bool>)
    requires |lengths| == ALPHABET_SIZE
  {
    AllCoded(w.out, lengths) && CodeBits(w.out, lengths) + w.path == bits
  }

  lemma StepReads(m: Labels, lengths: seq<byte>, w: Walker, bits: seq<bool>, bit: bool)
    requires |lengths| == ALPHABET_SIZE && TreeOf(m, lengths) && HasRead(lengths, w, bits) && Step(m, w, bit).Some?
    ensures var v := Step(m, w, bit).value;
            HasRead(lengths, v, bits + [bit]) && |w.out| <= |v.out| <= |w.out| + 1 && (|v.out| > |w.out| ==> v.path == [])
  {
    hide Code, Usable, Represents, IsLeaf, CodeBits;
    var p := w.path + [bit];
    if IsLeaf(m, p) {
      var s := LeafIsCode(m, lengths, p);
      CodeBitsNext(w.out, lengths, s);
    }
  }

  lemma CodeBitsNext(out: seq<byte>, lengths: seq<byte>, s: byte)
    requires |lengths| == ALPHABET_SIZE
    ensures CodeBits(out + [s], lengths) == CodeBits(out, lengths) + Code(lengths, s)
  {
    hide Code;
    assert (out + [s])[..|out|] == out;
  }

  /** Over one byte: all bits are read unless the last symbol is written. */
  lemma {:induction false} ByteReads(m: Labels, lengths: seq<byte>, w: Walker, front: seq<bool>, bits: seq<bool>, limit: nat)
    returns (j: nat)
    requires |lengths| == ALPHABET_SIZE && TreeOf(m, lengths) && HasRead(lengths, w, front) && |w.out| < limit
    requires WalkByte(m, w, bits, limit).Some?
    ensures var v := WalkByte(m, w, bits, limit).value;
            && j <= |bits| && HasRead(lengths, v, front + bits[..j]) && |v.out| <= limit
            && (|v.out| == limit ==> v.path == [] && j > 0) && (|v.out| < limit ==> j == |bits|)
    decreases |bits|
  {
    hide Step, HasRead, TreeOf;
    if bits == [] {
      j := 0;
      assert front + bits[..0] == front;
    } else {
      StepReads(m, lengths, w, front, bits[0]);
      var v := Step(m, w, bits[0]).value;
      if v.path == [] && |v.out| >= limit {
        j := 1;
        assert bits[..1] == [bits[0]];
      } else {
        j := ByteReads(m, lengths, v, front + [bits[0]], bits[1..], limit);
        assert front + [bits[0]] + bits[1..][..j] == front + bits[..j + 1];
        j := j + 1;
      }
    }
  }

  /** As long as output is missing, everything so far has been read. */
  lemma {:induction false} FrontReads(m: Labels, lengths: seq<byte>, data: seq<byte>, limit: nat, i: nat)
    requires |lengths| == ALPHABET_SIZE && TreeOf(m, lengths) && i < |data| && RoomForEachByte(m, data, limit)
    requires WalkData(m, data[..i], limit).Some?
    ensures var w := WalkData(m, data[..i], limit).value; |w.out| < limit && HasRead(lengths, w, BitsOf(data[..i]))
  {
    hide WalkByte, BitString, BitsOf, HasRead, TreeOf, WalkData;
    if i == 0 {
      assert data[..0] == [];
      WalkNothing(m, limit);
      NothingRead(lengths);
    } else {
      WalkOneMore(m, data, i - 1, limit);
      FrontReads(m, lengths, data, limit, i - 1);
      var w, b := WalkData(m, data[..i - 1], limit).value, BitString(data[i - 1], 8);
      var j := ByteReads(m, lengths, w, BitsOf(data[..i - 1]), b, limit);
      OneMoreByte(data, i - 1);
      assert b[..8] == b;
    }
  }

  lemma NothingRead(lengths: seq<byte>)
    requires |lengths| == ALPHABET_SIZE
    ensures HasRead(lengths, Walker([], []), BitsOf([]))
  {
  }

  lemma OneMoreByte(data: seq<byte>, i: nat)
    requires i < |data|
    ensures BitsOf(data[..i + 1]) == BitsOf(data[..i]) + BitString(data[i], 8)
  {
    assert data[..i + 1][..i] == data[..i];
  }

  /** What is written has its codes at the front of the data, and the data ends in the byte its last code ends in. */
  lemma AllReads(m: Labels, lengths: seq<byte>, data: seq<byte>, limit: nat)
    requires |lengths| == ALPHABET_SIZE && TreeOf(m, lengths) && RoomForEachByte(m, data, limit)
    requires WalkData(m, data, limit).Some? && |WalkData(m, data, limit).value.out| == limit
    ensures var out := WalkData(m, data, limit).value.out;
            AllCoded(out, lengths) && CodeBits(out, lengths) <= BitsOf(data) && |data| == PackedSize(|CodeBits(out, lengths)|)
  {
    hide WalkByte, BitString, BitsOf, HasRead, TreeOf, WalkData, CodeBits;
    if data == [] {
      WalkNothing(m, limit);
      NoCodeBits(lengths);
    } else {
      var i := |data| - 1;
      assert data[..i + 1] == data;
      WalkOneMore(m, data, i, limit);
      FrontReads(m, lengths, data, limit, i);
      var w, b := WalkData(m, data[..i], limit).value, BitString(data[i], 8);
      var j := ByteReads(m, lengths, w, BitsOf(data[..i]), b, limit);
      OneMoreByte(data, i);
      ReadBits(lengths, WalkByte(m, w, b, limit).value, BitsOf(data[..i]) + b[..j]);
      assert BitsOf(data[..i]) + b[..j] <= BitsOf(data);
    }
  }

  lemma NoCodeBits(lengths: seq<byte>)
    requires |lengths| == ALPHABET_SIZE
    ensures CodeBits([], lengths) == []
  {
  }

  lemma ReadBits(lengths: seq<byte>, w: Walker, bits: seq<bool>)
    requires |lengths| == ALPHABET_SIZE && HasRead(lengths, w, bits) && w.path == []
    ensures AllCoded(w.out, lengths) && CodeBits(w.out, lengths) == bits
  {
    hide CodeBits;
    assert CodeBits(w.out, lengths) + [] == CodeBits(w.out, lengths);
  }

  // ----- the theorem ---------------------------------------------------------------------------------------------

  /** For usable lengths: the decoder returns out if and only if out has the recorded size and the data consists of
      the codes of out, in order, and what fills up the last byte; everything else is an error. */
  lemma DecodedIff(c: Chunk, out: seq<byte>)
    requires |c.lengths| == ALPHABET_SIZE && Usable(c.lengths) && StaysInBuffer(c)
    ensures Decoded(c) == Some(out) <==>
            && |out| == c.origSize && AllCoded(out, c.lengths)
            && CodeBits(out, c.lengths) <= BitsOf(c.data) && |c.data| == (|CodeBits(out, c.lengths)| + 7) / 8
  {
    hide WalkData, BuildLabels, Represents, Usable, CodeBits, RoomForEachByte, BitsOf;
    BuildInAnyOrder(c.lengths, Ascending(ALPHABET_SIZE));
    var m := BuildLabels(c.lengths, Ascending(ALPHABET_SIZE)).value;
    assert TreeOf(m, c.lengths);
    if Decoded(c) == Some(out) {
      AllReads(m, c.lengths, c.data, c.origSize);
    }
    if |out| == c.origSize && AllCoded(out, c.lengths) && CodeBits(out, c.lengths) <= BitsOf(c.data)
       && |c.data| == (|CodeBits(out, c.lengths)| + 7) / 8 {
      if out == [] {
        NoCodeBits(c.lengths);
        WalkNothing(m, 0);
        assert c.data == [];
      } else {
        AnyPadding(m, c.lengths, out, c.data);
      }
    }
  }
}
