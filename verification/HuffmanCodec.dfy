/** Encoding a buffer into packed canonical codes and decoding it again. */
module HuffmanCodec {
  import opened Bytes
  import opened BitStrings
  import opened HuffmanTree
  import opened HuffmanLengths
  import opened HuffmanResults
  import opened CanonicalCodes
  import opened DecodeTree

  // ----- encoding ------------------------------------------------------------------------------------------------

  /** The stored metadata and the packed bits. */
  datatype Chunk = Chunk(lengths: seq<byte>, origSize: u32, encodedSize: u32, data: seq<byte>)

  /** The codes of all bytes, one after the other. */
  function CodeBits(buf: seq<byte>, lengths: seq<byte>): (bits: seq<bool>)
    requires |lengths| == ALPHABET_SIZE
  {
    if buf == [] then [] else CodeBits(buf[..|buf| - 1], lengths) + Code(lengths, buf[|buf| - 1])
  }

  lemma {:induction false} CodeBitsCount(buf: seq<byte>, lengths: seq<byte>)
    requires |lengths| == ALPHABET_SIZE
    ensures |CodeBits(buf, lengths)| == Bits(buf, lengths)
  {
    if buf != [] { CodeBitsCount(buf[..|buf| - 1], lengths); }
  }

  /** The 32-bit counter takes the number of bits, rounded up to bytes. Buffers below 2^29 bytes always fit. */
  predicate BitsFit(buf: Buffer): (fit: bool)
    ensures |buf| < 0x2000_0000 ==> fit
  {
    buf == [] || (EncodedNotLonger(buf); Bits(buf, LengthTable(Freqs(buf))) <= WORD - 8)
  }

  /** What the encoder returns; nothing for an empty buffer, which has no tree. */
  function Encoded(buf: Buffer): Option<Chunk>
    requires BitsFit(buf)
  {
    if buf == [] then None
    else
      CodeBitsCount(buf, LengthTable(Freqs(buf)));
      var lengths := LengthTable(Freqs(buf));
      var bits := CodeBits(buf, lengths);
      Some(Chunk(lengths, |buf|, PackedSize(|bits|), Pack(bits)))
  }

  method CountBits(buf: array<byte>, lengths: array<byte>) returns (bitCount: u32)
    requires lengths.Length == ALPHABET_SIZE && Bits(buf[..], lengths[..]) < WORD
    ensures bitCount == Bits(buf[..], lengths[..])
  {
    bitCount := 0;
    for i := 0 to buf.Length
      invariant bitCount == Bits(buf[..i], lengths[..])
    {
      assert buf[..i + 1][..i] == buf[..i];
      BitsGrow(buf[..], lengths[..], i + 1);
      bitCount := bitCount + lengths[buf[i]];
    }
    assert buf[..buf.Length] == buf[..];
  }

  lemma {:induction false} BitsGrow(buf: seq<byte>, g: seq<nat>, k: nat)
    requires |g| == ALPHABET_SIZE && k <= |buf|
    ensures Bits(buf[..k], g) <= Bits(buf, g)
    decreases |buf|
  {
    if k == |buf| {
      assert buf[..k] == buf;
    } else {
      BitsGrow(buf[..|buf| - 1], g, k);
      assert buf[..|buf| - 1][..k] == buf[..k];
    }
  }

  /** The bytes written and the byte under construction after the first n bits of the stream. */
  ghost predicate Written(data: array<byte>, pos: nat, curByte: nat, bitPos: nat, bits: seq<bool>, n: nat)
    reads data
  {
    && n <= |bits| && bitPos == n % 8 && pos == n / 8 <= data.Length
    && (forall i :: 0 <= i < pos ==> data[i] == ByteAt(bits, i))
    && curByte == PartByte(bits, pos, bitPos)
  }

  /** Appends one bit; a full byte moves to the output. */
  method PutBit(data: array<byte>, pos: nat, curByte: byte, bitPos: nat, bit: bool, ghost bits: seq<bool>, ghost n: nat)
    returns (nextAt: nat, nextByte: byte, nextBit: nat)
    requires n < |bits| && bits[n] == bit && data.Length == PackedSize(|bits|)
    requires Written(data, pos, curByte, bitPos, bits, n)
    modifies data
    ensures Written(data, nextAt, nextByte, nextBit, bits, n + 1)
  {
    hide PartByte, ByteAt, SetBit;
    PartByteNext(bits, pos, bitPos);
    assert 8 * pos + bitPos == n;
    PartByteIsByte(bits, pos, bitPos + 1);
    nextByte := if bit then SetBit(curByte, 7 - bitPos) else curByte;
    nextAt, nextBit := pos, bitPos + 1;
    if nextBit == 8 {
      ByteEnds(bits, pos);
      data[nextAt] := nextByte;
      nextAt, nextByte, nextBit := nextAt + 1, 0, 0;
    }
  }

  lemma ByteEnds(bits: seq<bool>, i: nat)
    ensures PartByte(bits, i, 8) == ByteAt(bits, i)
    ensures PartByte(bits, i + 1, 0) == 0
  {
  }

  /** Appends the code of one symbol. */
  method PutCode(data: array<byte>, pos: nat, curByte: byte, bitPos: nat, codes: array2<bool>, symbol: byte, len: nat,
                 ghost bits: seq<bool>, ghost n: nat, ghost code: seq<bool>)
    returns (nextAt: nat, nextByte: byte, nextBit: nat)
    requires symbol < codes.Length0 && len == |code| <= codes.Length1
    requires forall j :: 0 <= j < len ==> codes[symbol, j] == code[j]
    requires n + len <= |bits| && bits[n..n + len] == code && data.Length == PackedSize(|bits|)
    requires Written(data, pos, curByte, bitPos, bits, n)
    modifies data
    ensures Written(data, nextAt, nextByte, nextBit, bits, n + len)
  {
    hide PartByte, ByteAt;
    nextAt, nextByte, nextBit := pos, curByte, bitPos;
    for j := 0 to len
      invariant Written(data, nextAt, nextByte, nextBit, bits, n + j)
    {
      assert code[j] == bits[n + j];
      nextAt, nextByte, nextBit := PutBit(data, nextAt, nextByte, nextBit, codes[symbol, j], bits, n + j);
    }
  }

  lemma {:induction false} CodeBitsAt(buf: seq<byte>, lengths: seq<byte>, k: nat)
    requires |lengths| == ALPHABET_SIZE && k < |buf|
    ensures CodeBits(buf[..k + 1], lengths) == CodeBits(buf[..k], lengths) + Code(lengths, buf[k])
    ensures CodeBits(buf[..k + 1], lengths) <= CodeBits(buf, lengths)
    decreases |buf|
  {
    if k + 1 == |buf| {
      assert buf[..k + 1] == buf;
    } else {
      var front := buf[..|buf| - 1];
      CodeBitsAt(front, lengths, k);
      assert front[..k + 1] == buf[..k + 1] && front[..k] == buf[..k];
    }
  }

  /** Packs the codes of the whole buffer into data. */
  method PackCodes(buf: array<byte>, lengths: array<byte>, codes: array2<bool>, data: array<byte>)
    requires lengths.Length == codes.Length0 == codes.Length1 == ALPHABET_SIZE
    requires CodesMatch(codes, lengths[..], ALPHABET_SIZE)
    requires data.Length == PackedSize(|CodeBits(buf[..], lengths[..])|) && data != buf && data != lengths
    modifies data
    ensures data[..] == Pack(CodeBits(buf[..], lengths[..]))
  {
    hide PartByte, ByteAt, Code, CodeBits;
    ghost var ls, bs := lengths[..], buf[..];
    ghost var bits := CodeBits(bs, ls);
    var pos: nat, curByte: byte, bitPos: nat := 0, 0, 0;
    NoCodeBits(bits, bs, ls);
    for i := 0 to buf.Length
      invariant Written(data, pos, curByte, bitPos, bits, |CodeBits(bs[..i], ls)|)
    {
      CodeBitsAt(bs, ls, i);
      ghost var n := |CodeBits(bs[..i], ls)|;
      var symbol := buf[i];
      CodeAtOffset(bits, bs, ls, i);
      pos, curByte, bitPos := PutCode(data, pos, curByte, bitPos, codes, symbol, lengths[symbol], bits, n, Code(ls, symbol));
    }
    assert bs[..buf.Length] == bs;
    if bitPos > 0 {
      LastByte(bits, pos, bitPos);
      data[pos] := curByte;
    }
  }

  lemma NoCodeBits(bits: seq<bool>, buf: seq<byte>, lengths: seq<byte>)
    requires |lengths| == ALPHABET_SIZE
    ensures CodeBits(buf[..0], lengths) == []
    ensures PartByte(bits, 0, 0) == 0
  {
  }

  lemma CodeAtOffset(bits: seq<bool>, buf: seq<byte>, lengths: seq<byte>, i: nat)
    requires |lengths| == ALPHABET_SIZE && i < |buf| && bits == CodeBits(buf, lengths)
    ensures var n := |CodeBits(buf[..i], lengths)|;
            n + lengths[buf[i]] <= |bits| && bits[n..n + lengths[buf[i]]] == Code(lengths, buf[i])
  {
    CodeBitsAt(buf, lengths, i);
  }

  /** The last, partial byte is the byte of the padded stream. */
  lemma LastByte(bits: seq<bool>, i: nat, n: nat)
    requires 0 < n < 8 && |bits| == 8 * i + n
    ensures PartByte(bits, i, n) == ByteAt(bits, i)
  {
    if n < 8 { LastByteStep(bits, i, n); }
  }

  lemma {:induction false} LastByteStep(bits: seq<bool>, i: nat, n: nat)
    requires n < 8 && |bits| <= 8 * i + n
    ensures PartByte(bits, i, n) == ByteAt(bits, i)
    decreases 8 - n
  {
    PartByteNext(bits, i, n);
    if n + 1 < 8 { LastByteStep(bits, i, n + 1); } else { ByteEnds(bits, i); }
  }

  method HuffmanEncode(buf: array<byte>) returns (chunk: Option<Chunk>)
    requires buf.Length < WORD && BitsFit(buf[..])
    ensures chunk == Encoded(buf[..])
  {
    hide PartByte, ByteAt, Code, CodeBits, LengthTable, HuffmanRoot, Freqs;
    ghost var bs := buf[..];
    var freq := CountFrequencies(buf);
    var root := TreeBuild(freq);
    RootExists(bs);
    if root == None {
      return None;
    }
    var lengths := new byte[ALPHABET_SIZE](_ => 0);
    assert lengths[..] == NoLengths();
    GenerateLengths(root.value, lengths, 0);
    TableOfRoot(freq[..]);
    ghost var table := LengthTable(Freqs(bs));
    assert lengths[..] == table;
    var codes := new bool[ALPHABET_SIZE, ALPHABET_SIZE];
    ComputeCanonicalCodes(lengths, codes);
    CodeBitsCount(bs, table);
    var bitCount := CountBits(buf, lengths);
    var encodedSize := (bitCount + 7) / 8;
    var data := new byte[encodedSize];
    PackCodes(buf, lengths, codes, data);
    chunk := Some(Chunk(lengths[..], buf.Length, encodedSize, data[..]));
  }

  lemma TableOfRoot(freq: seq<u32>)
    requires |freq| == ALPHABET_SIZE && HuffmanRoot(freq).Some?
    ensures LengthTable(freq) == WriteLengths(HuffmanRoot(freq).value, 0, NoLengths())
  {
  }

  lemma RootExists(buf: Buffer)
    ensures HuffmanRoot(Freqs(buf)) == None <==> buf == []
  {
    FreqsCount(buf);
    if buf != [] {
      RootResult(Freqs(buf));
    } else {
      UsedNonEmpty(Freqs(buf));
      LeafQueueSymbols(Freqs(buf), ALPHABET_SIZE);
    }
  }

  // ----- decoding ------------------------------------------------------------------------------------------------

  /** Where the decoder stands: the bits since the last leaf, and the symbols written. */
  datatype Walker = Walker(path: seq<bool>, out: seq<byte>)

  /** One bit down the tree; at a leaf the symbol is written and the walk restarts at the root.
      None when there is no such child. */
  function Step(m: Labels, w: Walker, bit: bool): Option<Walker>
  {
    var p := w.path + [bit];
    if p !in m then None
    else if IsLeaf(m, p) then Some(Walker([], w.out + [m[p]]))
    else Some(Walker(p, w.out))
  }

  /** The bits of one byte; the rest of the byte is skipped once limit symbols are written. */
  function WalkByte(m: Labels, w: Walker, bits: seq<bool>, limit: nat): Option<Walker>
    decreases |bits|
  {
    if bits == [] then Some(w)
    else
      match Step(m, w, bits[0])
      case None => None
      case Some(w') =>
        if w'.path == [] && |w'.out| >= limit then Some(w') else WalkByte(m, w', bits[1..], limit)
  }

  function WalkData(m: Labels, data: seq<byte>, limit: nat): Option<Walker>
  {
    if data == [] then Some(Walker([], []))
    else
      match WalkData(m, data[..|data| - 1], limit)
      case None => None
      case Some(w) => WalkByte(m, w, BitString(data[|data| - 1], 8), limit)
  }

  /** What the decoder returns for metadata and data. */
  function Decoded(c: Chunk): Option<seq<byte>>
    requires |c.lengths| == ALPHABET_SIZE
  {
    match BuildLabels(c.lengths, Ascending(ALPHABET_SIZE))
    case None => None
    case Some(m) =>
      match WalkData(m, c.data, c.origSize)
      case None => None
      case Some(w) => if |w.out| == c.origSize then Some(w.out) else None
  }

  /** The output buffer of origSize bytes is never full before a byte of input remains. */
  ghost predicate StaysInBuffer(c: Chunk)
    requires |c.lengths| == ALPHABET_SIZE
  {
    match BuildLabels(c.lengths, Ascending(ALPHABET_SIZE))
    case None => true
    case Some(m) => RoomForEachByte(m, c.data, c.origSize)
  }

  ghost predicate Stands(t: Trie, cur: TrieNode, w: Walker, decoded: array<byte>)
    reads t, t.nodes.Values, decoded
  {
    && t.Valid() && w.path in t.nodes && t.nodes[w.path] == cur
    && |w.out| <= decoded.Length && decoded[..|w.out|] == w.out
  }

  /** Takes one bit down the tree, writing the symbol of a leaf; false when the child is missing. */
  method DecodeBit(t: Trie, start: TrieNode, bit: bool, decoded: array<byte>, index: nat, ghost w: Walker)
    returns (ok: bool, cur: TrieNode, next: nat)
    requires Stands(t, start, w, decoded) && |w.out| == index < decoded.Length
    modifies decoded
    ensures ok == Step(LabelsOf(t.nodes), w, bit).Some?
    ensures ok ==> Stands(t, cur, Step(LabelsOf(t.nodes), w, bit).value, decoded)
    ensures ok ==> |Step(LabelsOf(t.nodes), w, bit).value.out| == next
    ensures ok ==> (next > index <==> Step(LabelsOf(t.nodes), w, bit).value.path == [])
  {
    LabelsKeys(t.nodes);
    ghost var p := w.path + [bit];
    var child := t.Child(start, bit, w.path);
    if child == null {
      return false, start, index;
    }
    ok, cur, next := true, child, index;
    if cur.left == null && cur.right == null {
      decoded[next] := cur.symbol;
      next := next + 1;
      cur := t.root;
    }
  }

  /** Decodes the bits of one byte; false when a child is missing. */
  method DecodeByte(t: Trie, start: TrieNode, b: byte, decoded: array<byte>, index: nat, ghost w: Walker)
    returns (ok: bool, cur: TrieNode, next: nat)
    requires Stands(t, start, w, decoded) && |w.out| == index < decoded.Length
    modifies decoded
    ensures ok == WalkByte(LabelsOf(t.nodes), w, BitString(b, 8), decoded.Length).Some?
    ensures ok ==> Stands(t, cur, WalkByte(LabelsOf(t.nodes), w, BitString(b, 8), decoded.Length).value, decoded)
    ensures ok ==> |WalkByte(LabelsOf(t.nodes), w, BitString(b, 8), decoded.Length).value.out| == next
  {
    hide Step, WalkByte, BitString, LabelsOf;
    ghost var m, bits, w' := LabelsOf(t.nodes), BitString(b, 8), w;
    cur, next := start, index;
    var bit := 8;
    assert bits[0..] == bits;
    while bit > 0
      invariant 0 <= bit <= 8
      invariant Stands(t, cur, w', decoded) && |w'.out| == next < decoded.Length
      invariant WalkByte(m, w', bits[8 - bit..], decoded.Length) == WalkByte(m, w, bits, decoded.Length)
    {
      bit := bit - 1;
      BitOfByte(b, bit);
      WalkUnfold(m, w', bits, 7 - bit, decoded.Length);
      var before := next;
      ok, cur, next := DecodeBit(t, cur, BitOf(b, bit), decoded, next, w');
      if !ok {
        return;
      }
      w' := Step(m, w', bits[7 - bit]).value;
      if next > before && next >= decoded.Length {
        return;
      }
    }
    WalkUnfold(m, w', bits, 8, decoded.Length);
    ok := true;
  }

  lemma WalkUnfold(m: Labels, w: Walker, bits: seq<bool>, k: nat, limit: nat)
    requires k <= |bits|
    ensures WalkByte(m, w, bits[k..], limit) ==
            if k == |bits| then Some(w)
            else match Step(m, w, bits[k])
                 case None => None
                 case Some(w') =>
                   if w'.path == [] && |w'.out| >= limit then Some(w') else WalkByte(m, w', bits[k + 1..], limit)
  {
    if k < |bits| { assert bits[k..][1..] == bits[k + 1..]; }
  }

  ghost predicate RoomForEachByte(m: Labels, data: seq<byte>, limit: nat)
  {
    forall i :: 0 <= i < |data| ==>
      match WalkData(m, data[..i], limit)
      case None => true
      case Some(w) => |w.out| < limit
  }

  /** Runs the tree over all bytes of data, writing into out. */
  method DecodeData(t: Trie, data: array<byte>, out: array<byte>) returns (ok: bool, index: nat)
    requires t.Valid() && data != out
    requires RoomForEachByte(LabelsOf(t.nodes), data[..], out.Length)
    modifies out
    ensures ok == WalkData(LabelsOf(t.nodes), data[..], out.Length).Some?
    ensures ok ==> var w := WalkData(LabelsOf(t.nodes), data[..], out.Length).value;
                   index == |w.out| <= out.Length && out[..index] == w.out
  {
    hide WalkData, WalkByte, LabelsOf, BitString;
    ghost var m, bytes := LabelsOf(t.nodes), data[..];
    var cur := t.root;
    index := 0;
    ghost var w := Walker([], []);
    WalkNothing(m, out.Length);
    for i := 0 to data.Length
      invariant Stands(t, cur, w, out) && |w.out| == index
      invariant WalkData(m, bytes[..i], out.Length) == Some(w)
    {
      WalkOneMore(m, bytes, i, out.Length);
      ok, cur, index := DecodeByte(t, cur, data[i], out, index, w);
      if !ok {
        WalkStuck(m, bytes, i + 1, out.Length);
        return;
      }
      w := WalkByte(m, w, BitString(bytes[i], 8), out.Length).value;
    }
    assert bytes[..data.Length] == bytes;
    ok := true;
  }

  method HuffmanDecode(lengths: array<byte>, origSize: u32, data: array<byte>, ghost c: Chunk)
    returns (decoded: Option<seq<byte>>)
    requires lengths.Length == ALPHABET_SIZE && data.Length == c.encodedSize
    requires c.lengths == lengths[..] && c.origSize == origSize && c.data == data[..]
    requires StaysInBuffer(c)
    ensures decoded == Decoded(c)
  {
    hide BuildLabels, WalkData, LabelsOf;
    var t := BuildFromLengths(lengths);
    if t == null {
      return None;
    }
    var out := new byte[origSize];
    assert data[..] == c.data;
    var ok, index := DecodeData(t, data, out);
    if !ok || index != origSize {
      return None;
    }
    assert out[..index] == out[..];
    decoded := Some(out[..]);
  }

  lemma WalkNothing(m: Labels, limit: nat)
    ensures WalkData(m, [], limit) == Some(Walker([], []))
  {
  }

  lemma WalkOneMore(m: Labels, data: seq<byte>, i: nat, limit: nat)
    requires i < |data|
    ensures WalkData(m, data[..i + 1], limit) ==
            match WalkData(m, data[..i], limit)
            case None => None
            case Some(w) => WalkByte(m, w, BitString(data[i], 8), limit)
  {
    assert data[..i + 1][..i] == data[..i];
  }

  lemma {:induction false} WalkStuck(m: Labels, data: seq<byte>, i: nat, limit: nat)
    requires i <= |data| && WalkData(m, data[..i], limit) == None
    ensures WalkData(m, data, limit) == None
    decreases |data|
  {
    if i == |data| {
      assert data[..i] == data;
    } else {
      assert data[..|data| - 1][..i] == data[..i];
      WalkStuck(m, data[..|data| - 1], i, limit);
    }
  }
}
