/** A file that is stored with a checksum the reader does not accept: 2^32 zero bytes, archived under three names. */
module ZeroFile {
  import opened Bytes
  import opened Words
  import opened LittleEndian
  import opened MetaEntry
  import opened ChunkHeader
  import opened ChunkCodec
  import opened FileCodec
  import opened Crc32c
  import opened CrcPeriod
  import opened EntryRecords
  import opened EntryFile
  import opened EntryReader
  import opened SafePaths
  import opened Archive
  import opened UnreadableChunk
  import Bwt
  import Mtf
  import Rle
  import HuffmanCodec
  import HuffmanRoundTrip

  const SIZE: nat := 0x1_0000_0000
  const CHUNKS: nat := 0x4000

  predicate AllZero(s: seq<byte>)
  {
    forall i :: 0 <= i < |s| ==> s[i] == 0
  }

  function Zeros(n: nat): (s: seq<byte>)
    ensures |s| == n && AllZero(s)
  {
    seq(n, _ => 0)
  }

  lemma SameZeros(s: seq<byte>, t: seq<byte>)
    requires AllZero(s) && AllZero(t) && |s| == |t|
    ensures s == t
  {
  }

  // ----- one chunk -----------------------------------------------------------------------------------------------

  lemma ZeroColumn(x: seq<byte>, col: seq<byte>, primary: nat)
    requires AllZero(x) && Bwt.IsBwt(x, col, primary)
    ensures AllZero(col) && |col| == |x|
  {
    var starts :| Bwt.SortedStarts(x, starts) && col == Bwt.LastColumn(x, starts)
                  && primary < |starts| && starts[primary] == 0;
    Bwt.SortedLength(x, starts);
  }

  lemma {:induction false} ZeroCodes(buf: seq<byte>)
    requires AllZero(buf)
    ensures AllZero(Mtf.Encoded(buf))
  {
    hide Mtf.IsTable, Mtf.TableAfter, Mtf.Position, HighUntouched;
    if buf != [] {
      var front := buf[..|buf| - 1];
      ZeroCodes(front);
      TableFacts(front);
      if front == [] { FirstTable(); }
      FrontPosition(Mtf.TableAfter(front), 0);
    }
  }

  lemma {:induction false} ExtendZeros(buf: seq<byte>, i: nat, run: nat)
    requires AllZero(buf) && 1 <= run <= Rle.MAX_RUN && i + Rle.MAX_RUN <= |buf|
    ensures Rle.Extend(buf, i, run) == Rle.MAX_RUN
    decreases Rle.MAX_RUN - run
  {
    if run < Rle.MAX_RUN { ExtendZeros(buf, i, run + 1); }
  }

  lemma ZeroBlock(buf: seq<byte>, i: nat)
    requires AllZero(buf) && i + Rle.MAX_RUN <= |buf|
    ensures Rle.Reach(buf, i) == i + Rle.MAX_RUN && |Rle.Block(buf, i)| == 2
  {
    hide Rle.Extend;
    ExtendZeros(buf, i, 1);
  }

  /** 128 zero bytes become two bytes. */
  lemma {:induction false} ZeroRuns(buf: seq<byte>, i: nat, n: nat)
    requires AllZero(buf) && i + 128 * n == |buf|
    ensures |Rle.EncodedFrom(buf, i)| == 2 * n
    decreases n
  {
    hide Rle.EncodedFrom, Rle.Reach, Rle.Block;
    if n == 0 {
      Rle.EncodedEnd(buf);
    } else {
      ZeroBlock(buf, i);
      Rle.EncodedUnfold(buf, i);
      ZeroRuns(buf, i + 128, n - 1);
    }
  }

  /** The run-length coding of a full chunk of zeros. */
  function ZeroRle(): seq<byte>
  {
    Rle.Encoded(Mtf.Encoded(Zeros(MAX_CHUNK_SIZE)))
  }

  lemma ZeroRleSize()
    ensures |ZeroRle()| == 4096
  {
    hide Mtf.Encoded, Rle.EncodedFrom;
    var z := Zeros(MAX_CHUNK_SIZE);
    ZeroCodes(z);
    ZeroRuns(Mtf.Encoded(z), 0, 2048);
  }

  lemma ZeroRleCoded()
    ensures 0 < |ZeroRle()| == 4096 && HuffmanCodec.Encoded(ZeroRle()).Some?
    ensures var c := HuffmanCodec.Encoded(ZeroRle()).value; 0 < c.encodedSize <= 4096 == c.origSize
  {
    hide ZeroRle, HuffmanCodec.Encoded;
    ZeroRleSize();
    HuffmanRoundTrip.EncodedFields(ZeroRle());
  }

  /** Bytes of the payload of a full chunk of zeros. */
  function ZeroPayload(): nat
  {
    ZeroRleCoded();
    HuffmanCodec.Encoded(ZeroRle()).value.encodedSize
  }

  /** However the equal rotations are ordered, a full chunk of zeros is coded in the same few bytes and accepted. */
  lemma ZeroChunk(x: seq<byte>, c: Packed)
    requires AllZero(x) && |x| == MAX_CHUNK_SIZE && IsPacked(x, c)
    ensures WellFormed(c.header) && Validate(c.header) && |c.payload| == ZeroPayload() <= 4096
  {
    hide Mtf.Encoded, Rle.Encoded, HuffmanCodec.Encoded, Bwt.IsBwt, AllZero;
    ZeroRleCoded();
    PackedFields(x, c);
    var col :| IsPackedBy(x, c, col);
    ZeroColumn(x, col, c.header.primaryIndex);
    SameZeros(col, Zeros(MAX_CHUNK_SIZE));
  }

  // ----- the whole file ------------------------------------------------------------------------------------------

  lemma ZeroPiece(k: nat)
    requires k < CHUNKS
    ensures AllZero(Piece(Zeros(SIZE), k)) && |Piece(Zeros(SIZE), k)| == MAX_CHUNK_SIZE
  {
    var z := Zeros(SIZE);
    var p := Piece(z, k);
    assert p == z[k * MAX_CHUNK_SIZE..(k + 1) * MAX_CHUNK_SIZE];
  }

  lemma ZeroChunks()
    ensures NumChunks(SIZE) == CHUNKS
  {
  }

  ghost predicate EachZero(cs: seq<Packed>)
  {
    forall k :: 0 <= k < |cs| ==> WellFormed(cs[k].header) && Validate(cs[k].header) && |cs[k].payload| == ZeroPayload()
  }

  lemma {:induction false} WrittenZeros(cs: seq<Packed>)
    requires EachZero(cs)
    ensures |Written(cs)| == |cs| * (HEADER_SIZE + ZeroPayload())
  {
    hide ZeroPayload, OnDisk, Validate;
    if cs != [] {
      var k := |cs| - 1;
      WrittenZeros(cs[..k]);
      HeaderSizes(cs[k].header);
      Distribute(k, 1, HEADER_SIZE + ZeroPayload());
    }
  }

  /** Every compression of the file is kept, has acceptable headers, and has one and the same size. */
  lemma ZeroFileKept(cs: seq<Packed>)
    requires Compressed(Zeros(SIZE), cs)
    ensures |Written(cs)| == CHUNKS * (HEADER_SIZE + ZeroPayload()) < SIZE && AllAccepted(cs)
  {
    hide Zeros, IsPacked, Piece, NumChunks, ZeroPayload, Written, Validate, AllZero;
    ZeroChunks();
    assert |Zeros(SIZE)| == SIZE by { ZerosSize(SIZE); }
    forall k | 0 <= k < |cs|
      ensures WellFormed(cs[k].header) && Validate(cs[k].header) && |cs[k].payload| == ZeroPayload() <= 4096
    {
      ZeroPiece(k);
      ZeroChunk(Piece(Zeros(SIZE), k), cs[k]);
    }
    assert |cs[0].payload| == ZeroPayload();
    WrittenZeros(cs);
  }

  lemma ZerosSize(n: nat)
    ensures |Zeros(n)| == n
  {
  }

  // ----- three entries -------------------------------------------------------------------------------------------

  /** r is a compressed entry of the file under a name of one byte. */
  ghost predicate ZeroEntry(r: Record, a: byte, name: byte)
  {
    r.PackedRecord? && r.attributes == a && r.path == [name] && r.content == Zeros(SIZE) && Compressed(r.content, r.chunks)
  }

  /** The length combined is cut once, so only two checksums of header and size would do. */
  lemma ZeroEntrySound(r: Record, a: byte, name: byte)
    requires ZeroEntry(r, a, name) && Sound(r)
    ensures FrontChecksum(r) == 0 || FrontChecksum(r) == FIXED
  {
    hide Zeros, Sound, FrontChecksum, Compressed, Checked, Crc, NumChunks;
    SoundIff(r);
    ZerosSize(SIZE);
    ZeroChunks();
    CutOnce(FrontChecksum(r), Crc(Checked(r.content, r.chunks), 0));
  }

  lemma CutOnce(a: bv32, b: bv32)
    requires CutHarmless(a, b, SIZE + MEMORY_HEADER_SIZE * CHUNKS)
    ensures a == 0 || a == FIXED
  {
    var len := SIZE + MEMORY_HEADER_SIZE * CHUNKS;
    assert len / 0x1_0000_0000 == 1 && len % 0x1_0000_0000 == 4390912;
    assert 1 % ORDER == 1;
  }

  /** Names apart, checksums apart. */
  lemma FrontsApart(r: Record, s: Record, a: byte, name: byte, other: byte)
    requires ZeroEntry(r, a, name) && ZeroEntry(s, a, other) && Word(name) != Word(other)
    ensures FrontChecksum(r) != FrontChecksum(s)
  {
    hide Zeros, Compressed, Written, Crc, LE, ZeroPayload;
    ZeroFileKept(r.chunks);
    ZeroFileKept(s.chunks);
    var p, t := [a] + LE(1, 2), LE(DataSize(r), 8);
    assert PathHeader(a, [name]) == p + [name] && PathHeader(a, [other]) == p + [other];
    if FrontChecksum(r) == FrontChecksum(s) { OneByteMatters(p, name, other, t, 0); }
  }

  lemma NamesApart()
    ensures Word(97) != Word(98) && Word(98) != Word(99) && Word(97) != Word(99)
  {
  }

  /** Of the three entries at most two carry the checksum the reader computes. */
  lemma ThreeEntries(r: Record, s: Record, t: Record, a: byte)
    requires ZeroEntry(r, a, 97) && ZeroEntry(s, a, 98) && ZeroEntry(t, a, 99)
    ensures !Sound(r) || !Sound(s) || !Sound(t)
  {
    hide ZeroEntry, Sound, FrontChecksum, Word;
    NamesApart();
    FrontsApart(r, s, a, 97, 98);
    FrontsApart(s, t, a, 98, 99);
    FrontsApart(r, t, a, 97, 99);
    if Sound(r) && Sound(s) && Sound(t) {
      ZeroEntrySound(r, a, 97);
      ZeroEntrySound(s, a, 98);
      ZeroEntrySound(t, a, 99);
    }
  }

  // ----- an archive that does not come back ----------------------------------------------------------------------

  function ZeroItem(name: byte): Item
  {
    FileItem([], [name], Zeros(SIZE))
  }

  /** The file as "a", "b" and "c" in the root. */
  function ThreeItems(): (items: seq<Item>)
    ensures |items| == 3
  {
    [ZeroItem(97), ZeroItem(98), ZeroItem(99)]
  }

  lemma ItemsFit()
    ensures InOrder(ThreeItems()) && AllFit(ThreeItems())
  {
    hide Zeros;
    ZerosSize(SIZE);
    var items := ThreeItems();
    assert items[..0] == [] && items[..1][..0] == [] && items[..2][..1] == items[..1];
    assert items[..3] == items && items[..1] == [ZeroItem(97)] && items[..2] == [ZeroItem(97), ZeroItem(98)];
    assert InOrder([]);
    OneMoreItem([], ZeroItem(97));
    OneMoreItem(items[..1], ZeroItem(98));
    OneMoreItem(items[..2], ZeroItem(99));
  }

  lemma OneMoreItem(items: seq<Item>, item: Item)
    requires InOrder(items) && MayFollow(items, item)
    ensures InOrder(items + [item])
  {
    SnocItem(items, item);
  }

  /** The record of such an item is a compressed entry of the file. */
  lemma ItemIsEntry(items: seq<Item>, name: byte, r: Record)
    requires IsRecordFor(items, ZeroItem(name), true, r)
    ensures ZeroEntry(r, FileAttributes(true), name)
  {
    hide Zeros, Compressed, Written, FileAttributes, TypeOf, CompOf, SetComp;
    AttributesOf(true);
    ZerosSize(SIZE);
    if r.StoredRecord? {
      assert Incompressible(Zeros(SIZE));
      var cs :| Compressed(Zeros(SIZE), cs) && |Written(cs)| >= |Zeros(SIZE)|;
      ZeroFileKept(cs);
    }
  }

  lemma RecordIsEntry(rs: seq<Record>, k: nat, name: byte)
    requires AreRecordsFor(ThreeItems(), true, rs) && k < 3 && ThreeItems()[k] == ZeroItem(name)
    ensures |rs| == 3 && ZeroEntry(rs[k], FileAttributes(true), name)
  {
    hide Zeros, IsRecordFor, ZeroEntry, ZeroItem, ThreeItems;
    assert IsRecordAt(ThreeItems(), k, true, rs[k]);
    ItemIsEntry(ThreeItems()[..k], name, rs[k]);
  }

  lemma ItemsAre()
    ensures ThreeItems()[0] == ZeroItem(97) && ThreeItems()[1] == ZeroItem(98) && ThreeItems()[2] == ZeroItem(99)
  {
  }

  lemma OneUnsound(rs: seq<Record>) returns (k: nat)
    requires AreRecordsFor(ThreeItems(), true, rs)
    ensures |rs| == 3 && k < 3 && !Sound(rs[k])
  {
    hide AreRecordsFor, ZeroEntry, Sound, FileAttributes, ThreeItems;
    ItemsAre();
    RecordIsEntry(rs, 0, 97);
    RecordIsEntry(rs, 1, 98);
    RecordIsEntry(rs, 2, 99);
    ThreeEntries(rs[0], rs[1], rs[2], FileAttributes(true));
    k := if !Sound(rs[0]) then 0 else if !Sound(rs[1]) then 1 else 2;
  }

  /** Archiving the three files succeeds and extracting them fails: at least one entry is refused. */
  method WriteThenExtract() returns (ok: bool)
    ensures !ok
  {
    hide AreRecordsFor, Sound, Readable, SafePath, PathOfItem, InOrder, AllFit, ThreeItems;
    ItemsFit();
    var outcomes;
    ghost var rs;
    ok, outcomes, rs := RoundTrip(ThreeItems(), true);
    ghost var k := OneUnsound(rs);
    assert !Extractable(ThreeItems()[k], rs[k], true);
  }
}
