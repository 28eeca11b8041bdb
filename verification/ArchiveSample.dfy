/** A small archive, byte by byte: directory "d", directory "d/e" and in it the file "fg" with the contents "xy". */
module ArchiveSample {
  import opened Bytes
  import opened LittleEndian
  import opened Streams
  import opened MetaEntry
  import opened DirPaths
  import opened Directories
  import opened DirLockstep
  import opened Crc32c
  import opened CrcChecks
  import opened EntryRecords
  import opened EntryFile
  import opened EntryWriter
  import opened EntryReader
  import opened Archive

  const D: Name := [100]
  const E: Name := [101]
  const FG: Name := [102, 103]

  function Items(): (items: seq<Item>)
    ensures |items| == 3
  {
    [DirItem([D]), DirItem([D, E]), FileItem([D, E], FG, [120, 121])]
  }

  // ----- checksums -----------------------------------------------------------------------------------------------

  lemma FirstSumSteps()
    ensures Next(0xFFFF_FFFF, 1) == 0x5FE9_2FAD && Next(0x5FE9_2FAD, 1) == 0xEF57_9359 && Next(0xEF57_9359, 0) == 0x2978_568C
    ensures Next(0x2978_568C, 100) == 0x69C0_8883
  {
  }

  /** Directory: attributes, length and path. */
  lemma FirstSum()
    ensures Crc([1, 1, 0, 100], 0) == 0x963F_777C
  {
    hide Next, Raw;
    var s: seq<byte> := [1, 1, 0, 100];
    FirstSumSteps();
    NothingRead(0xFFFF_FFFF, s);
    Extend(0xFFFF_FFFF, s, 0, 0xFFFF_FFFF, 0x5FE9_2FAD);
    Extend(0xFFFF_FFFF, s, 1, 0x5FE9_2FAD, 0xEF57_9359);
    Extend(0xFFFF_FFFF, s, 2, 0xEF57_9359, 0x2978_568C);
    Extend(0xFFFF_FFFF, s, 3, 0x2978_568C, 0x69C0_8883);
    assert s[..4] == s;
    Inverted();
  }

  lemma SecondSumSteps()
    ensures Next(0xFFFF_FFFF, 3) == 0xBED2_5F5A && Next(0xBED2_5F5A, 3) == 0x2929_D340 && Next(0x2929_D340, 0) == 0x4152_346F
    ensures Next(0x4152_346F, 100) == 0x99C8_F90F && Next(0x99C8_F90F, 47) == 0x2024_4627 && Next(0x2024_4627, 101) == 0xA060_490D
    ensures Next(0xA060_490D, 1) == 0x4DE3_AF99 && Next(0x4DE3_AF99, 0) == 0xEA57_C474 && Next(0xEA57_C474, 0) == 0xB6E8_94D6
    ensures Next(0xB6E8_94D6, 0) == 0xF5C4_EED7
  {
  }

  /** Sub-directory: attributes, length, path and parent index. */
  lemma SecondSum()
    ensures Crc([3, 3, 0, 100, 47, 101, 1, 0, 0, 0], 0) == 0x0A3B_1128
  {
    hide Next, Raw;
    var s: seq<byte> := [3, 3, 0, 100, 47, 101, 1, 0, 0, 0];
    SecondSumSteps();
    NothingRead(0xFFFF_FFFF, s);
    Extend(0xFFFF_FFFF, s, 0, 0xFFFF_FFFF, 0xBED2_5F5A);
    Extend(0xFFFF_FFFF, s, 1, 0xBED2_5F5A, 0x2929_D340);
    Extend(0xFFFF_FFFF, s, 2, 0x2929_D340, 0x4152_346F);
    Extend(0xFFFF_FFFF, s, 3, 0x4152_346F, 0x99C8_F90F);
    Extend(0xFFFF_FFFF, s, 4, 0x99C8_F90F, 0x2024_4627);
    Extend(0xFFFF_FFFF, s, 5, 0x2024_4627, 0xA060_490D);
    Extend(0xFFFF_FFFF, s, 6, 0xA060_490D, 0x4DE3_AF99);
    Extend(0xFFFF_FFFF, s, 7, 0x4DE3_AF99, 0xEA57_C474);
    Extend(0xFFFF_FFFF, s, 8, 0xEA57_C474, 0xB6E8_94D6);
    Extend(0xFFFF_FFFF, s, 9, 0xB6E8_94D6, 0xF5C4_EED7);
    assert s[..10] == s;
    Inverted();
  }

  lemma ThirdSumSteps0()
    ensures Next(0xFFFF_FFFF, 0) == 0xAD82_ACAE && Next(0xAD82_ACAE, 6) == 0x283F_6FC5 && Next(0x283F_6FC5, 0) == 0xF654_0DB7
    ensures Next(0xF654_0DB7, 100) == 0xC075_4652 && Next(0xC075_4652, 47) == 0xCE70_6D98 && Next(0xCE70_6D98, 101) == 0x4C88_53CB
    ensures Next(0x4C88_53CB, 47) == 0x24E6_B756 && Next(0x24E6_B756, 102) == 0x30C7_AF06 && Next(0x30C7_AF06, 103) == 0x939D_D7CE
  {
  }

  lemma ThirdSumSteps1()
    ensures Next(0x939D_D7CE, 2) == 0x8E5D_74C3 && Next(0x8E5D_74C3, 0) == 0xD053_8844 && Next(0xD053_8844, 0) == 0x8631_D92B
    ensures Next(0x8631_D92B, 0) == 0xB9B2_143C && Next(0xB9B2_143C, 0) == 0x7D19_3475 && Next(0x7D19_3475, 0) == 0x4414_5925
    ensures Next(0x4414_5925, 0) == 0x1508_8E9B && Next(0x1508_8E9B, 0) == 0x0B34_5FA2 && Next(0x0B34_5FA2, 120) == 0xB83A_FDCC
    ensures Next(0xB83A_FDCC, 121) == 0x875C_5C28
  {
  }

  function ThirdData(): (s: seq<byte>)
    ensures |s| == 19
  {
    [0, 6, 0, 100, 47, 101, 47, 102, 103, 2, 0, 0, 0, 0, 0, 0, 0, 120, 121]
  }

  lemma ThirdElements()
    ensures var s := ThirdData();
            && s[0] == 0 && s[1] == 6 && s[2] == 0 && s[3] == 100 && s[4] == 47 && s[5] == 101 && s[6] == 47
            && s[7] == 102 && s[8] == 103 && s[9] == 2 && s[10] == 0 && s[11] == 0 && s[12] == 0 && s[13] == 0
            && s[14] == 0 && s[15] == 0 && s[16] == 0 && s[17] == 120 && s[18] == 121
  {
  }

  lemma ThirdFront()
    ensures Raw(0xFFFF_FFFF, ThirdData()[..9]) == 0x939D_D7CE
  {
    hide Next, Raw, ThirdData;
    var s := ThirdData();
    ThirdElements();
    ThirdSumSteps0();
    NothingRead(0xFFFF_FFFF, s);
    Extend(0xFFFF_FFFF, s, 0, 0xFFFF_FFFF, 0xAD82_ACAE);
    Extend(0xFFFF_FFFF, s, 1, 0xAD82_ACAE, 0x283F_6FC5);
    Extend(0xFFFF_FFFF, s, 2, 0x283F_6FC5, 0xF654_0DB7);
    Extend(0xFFFF_FFFF, s, 3, 0xF654_0DB7, 0xC075_4652);
    Extend(0xFFFF_FFFF, s, 4, 0xC075_4652, 0xCE70_6D98);
    Extend(0xFFFF_FFFF, s, 5, 0xCE70_6D98, 0x4C88_53CB);
    Extend(0xFFFF_FFFF, s, 6, 0x4C88_53CB, 0x24E6_B756);
    Extend(0xFFFF_FFFF, s, 7, 0x24E6_B756, 0x30C7_AF06);
    Extend(0xFFFF_FFFF, s, 8, 0x30C7_AF06, 0x939D_D7CE);
  }

  lemma ThirdBack()
    ensures Raw(0xFFFF_FFFF, ThirdData()[..19]) == 0x875C_5C28
  {
    hide Next, Raw, ThirdData;
    var s := ThirdData();
    ThirdElements();
    ThirdFront();
    ThirdSumSteps1();
    Extend(0xFFFF_FFFF, s, 9, 0x939D_D7CE, 0x8E5D_74C3);
    Extend(0xFFFF_FFFF, s, 10, 0x8E5D_74C3, 0xD053_8844);
    Extend(0xFFFF_FFFF, s, 11, 0xD053_8844, 0x8631_D92B);
    Extend(0xFFFF_FFFF, s, 12, 0x8631_D92B, 0xB9B2_143C);
    Extend(0xFFFF_FFFF, s, 13, 0xB9B2_143C, 0x7D19_3475);
    Extend(0xFFFF_FFFF, s, 14, 0x7D19_3475, 0x4414_5925);
    Extend(0xFFFF_FFFF, s, 15, 0x4414_5925, 0x1508_8E9B);
    Extend(0xFFFF_FFFF, s, 16, 0x1508_8E9B, 0x0B34_5FA2);
    Extend(0xFFFF_FFFF, s, 17, 0x0B34_5FA2, 0xB83A_FDCC);
    Extend(0xFFFF_FFFF, s, 18, 0xB83A_FDCC, 0x875C_5C28);
  }

  /** File: attributes, length, path, size and contents. */
  lemma ThirdSum()
    ensures Crc(ThirdData(), 0) == 0x78A3_A3D7
  {
    hide Raw, ThirdData;
    ThirdBack();
    assert ThirdData()[..19] == ThirdData();
    Inverted();
  }

  lemma SumBytes()
    ensures WordBytes(0x963F_777C) == [124, 119, 63, 150]
    ensures WordBytes(0x0A3B_1128) == [40, 17, 59, 10]
    ensures WordBytes(0x78A3_A3D7) == [215, 163, 163, 120]
  {
  }

  // ----- integers ------------------------------------------------------------------------------------------------

  lemma {:induction false} ZeroDigits(n: nat)
    ensures forall k :: 0 <= k < n ==> LE(0, n)[k] == 0
  {
    if n > 0 { ZeroDigits(n - 1); }
  }

  /** Small integers: one byte, then zeros. */
  lemma SmallLE(v: byte, n: nat)
    requires n > 0
    ensures LE(v, n)[0] == v && forall k :: 1 <= k < n ==> LE(v, n)[k] == 0
  {
    ZeroDigits(n - 1);
  }

  lemma Integers()
    ensures LE(1, 2) == [1, 0] && LE(3, 2) == [3, 0] && LE(6, 2) == [6, 0]
    ensures LE(1, 4) == [1, 0, 0, 0] && LE(3, 4) == [3, 0, 0, 0] && LE(2, 8) == [2, 0, 0, 0, 0, 0, 0, 0]
  {
    hide LE;
    SmallLE(1, 2);
    SmallLE(3, 2);
    SmallLE(6, 2);
    SmallLE(1, 4);
    SmallLE(3, 4);
    SmallLE(2, 8);
  }

  lemma Magic()
    ensures LE(MAGIC, 4) == [66, 82, 45, 97]
  {
    hide LE;
    WordSizeBack(MAGIC);
    MagicBytes(LE(MAGIC, 4));
  }

  // ----- the tree ------------------------------------------------------------------------------------------------

  function One(): seq<Dir> { [Dir(ROOT, []), Dir(ROOT, D)] }

  function Two(): seq<Dir> { [Dir(ROOT, []), Dir(ROOT, D), Dir(1, E)] }

  lemma AddOne()
    ensures ChildNamed(EmptyTree(), ROOT, D) == None && AddChild(EmptyTree(), ROOT, D) == Added(One(), 1)
  {
  }

  lemma AddTwo()
    ensures ChildNamed(One(), ROOT, D) == Some(1) && AddChild(One(), ROOT, D) == Added(One(), 1)
    ensures ChildNamed(One(), 1, E) == None && AddChild(One(), 1, E) == Added(Two(), 2)
  {
    assert IsChildNamed(One(), ROOT, D, 1);
  }

  lemma LookupOnce(ds: seq<Dir>, p: nat, name: Name)
    requires p < |ds|
    ensures Lookup(ds, p, [name]) == ChildNamed(ds, p, name)
    ensures Insert(ds, p, [name]) == AddChild(ds, p, name)
  {
    var parts: seq<Name> := [name];
    assert parts[1..] == [];
  }

  lemma LookupTwice(ds: seq<Dir>, p: nat, first: Name, second: Name)
    requires p < |ds|
    ensures Lookup(ds, p, [first, second]) ==
            if ChildNamed(ds, p, first).Some? then Lookup(ds, ChildNamed(ds, p, first).value, [second]) else None
    ensures Insert(ds, p, [first, second]) ==
            Insert(AddChild(ds, p, first).dirs, AddChild(ds, p, first).at, [second])
  {
    hide AddChild;
    var parts: seq<Name> := [first, second];
    assert parts[1..] == [second];
  }

  lemma FirstStep()
    ensures WriterStep(EmptyTree(), [D]) == Some(Added(One(), 1))
  {
    hide Lookup, Insert, AddChild;
    AddOne();
    LookupOnce(EmptyTree(), ROOT, D);
  }

  lemma SecondStep()
    ensures WriterStep(One(), [D, E]) == Some(Added(Two(), 2))
  {
    hide Lookup, Insert, AddChild;
    AddTwo();
    LookupTwice(One(), ROOT, D, E);
    LookupOnce(One(), 1, E);
  }

  lemma Paths()
    ensures Joined([D]) == [100] && Joined([D, E]) == [100, 47, 101]
    ensures Inside(Joined([D, E]), FG) == [100, 47, 101, 47, 102, 103]
  {
    assert [D, E][..1] == [D];
  }

  lemma States()
    ensures StateAfter([]) == Some(Added(EmptyTree(), ROOT))
    ensures StateAfter([DirItem([D])]) == Some(Added(One(), 1))
  {
    hide WriterStep, EmptyTree, One;
    FirstStep();
    assert [DirItem([D])][..0] == [];
  }

  function FirstEntry(): (r: Record)
    ensures |r.name| <= MAX_NAME
  {
    DirRecord(1, D, [100], 0)
  }

  function SecondEntry(): (r: Record)
    ensures |r.name| <= MAX_NAME
  {
    DirRecord(3, E, [100, 47, 101], 1)
  }

  function ThirdEntry(): (r: Record)
    ensures |r.name| <= MAX_NAME
  {
    StoredRecord(0, FG, [100, 47, 101, 47, 102, 103], [120, 121])
  }

  // ----- the records ---------------------------------------------------------------------------------------------

  lemma Types()
    ensures TypeOf(1) == TYPE_DIR && TypeOf(3) == TYPE_SUBDIR
  {
    hide TypeOf, CompOf, SetType, SetComp;
    SmallAttribute(1);
    SmallAttribute(3);
  }

  lemma FirstRecord(items: seq<Item>, item: Item, r: Record)
    requires items == [] && item == DirItem([D]) && IsRecordFor(items, item, false, r)
    ensures r == FirstEntry()
  {
    hide WriterStep, StateAfter, DirEntry, Joined, EmptyTree;
    States();
    FirstStep();
    Paths();
    EntryOf(Added(One(), 1), [100]);
  }

  lemma EntryOf(w: Added, path: seq<byte>)
    requires w.at < |w.dirs| && w.dirs[w.at].parent < 0x1_0000_0000
    ensures DirEntry(DIR_ATTRIBUTES, w, path)
         == DirRecord(if w.dirs[w.at].parent == 0 then 1 else 3, w.dirs[w.at].name, path, w.dirs[w.at].parent)
  {
    hide SetType, SetComp;
    DirBytes();
  }

  lemma SecondRecord(items: seq<Item>, item: Item, r: Record)
    requires items == [DirItem([D])] && item == DirItem([D, E]) && IsRecordFor(items, item, false, r)
    ensures r == SecondEntry()
  {
    hide WriterStep, StateAfter, DirEntry, Joined;
    States();
    SecondStep();
    Paths();
    EntryOf(Added(Two(), 2), [100, 47, 101]);
  }

  lemma ThirdRecord(items: seq<Item>, item: Item, r: Record)
    requires item == FileItem([D, E], FG, [120, 121]) && IsRecordFor(items, item, false, r)
    ensures r == ThirdEntry()
  {
    hide StateAfter, SetComp, SetType, Joined, Inside, FileAttributes, CompOf, Incompressible;
    Paths();
    FileBytes();
    StoredByte(false);
    NoComp();
  }

  lemma FirstChecksum()
    ensures WriterChecksum(FirstEntry()) == 0x963F_777C
  {
    hide Crc, LE, TypeOf;
    Types();
    Integers();
    FirstSum();
    assert PathHeader(1, [100]) + [] == [1, 1, 0, 100];
  }

  lemma FirstBytes()
    ensures RecordBytes(FirstEntry()) == [1, 1, 100, 124, 119, 63, 150]
  {
    hide WriterChecksum, WordBytes, TypeOf;
    Types();
    FirstChecksum();
    SumBytes();
  }

  lemma SecondChecksum()
    ensures WriterChecksum(SecondEntry()) == 0x0A3B_1128
  {
    hide Crc, LE, TypeOf;
    Types();
    Integers();
    SecondSum();
    assert PathHeader(3, [100, 47, 101]) + LE(1, 4) == [3, 3, 0, 100, 47, 101, 1, 0, 0, 0];
  }

  lemma SecondBytes()
    ensures RecordBytes(SecondEntry()) == [3, 1, 101, 1, 0, 0, 0, 40, 17, 59, 10]
  {
    hide WriterChecksum, LE, WordBytes, TypeOf;
    Types();
    Integers();
    SecondChecksum();
    SumBytes();
  }

  lemma ThirdChecksum()
    ensures WriterChecksum(ThirdEntry()) == 0x78A3_A3D7
  {
    hide Crc, LE;
    Integers();
    ThirdSum();
    assert PathHeader(0, [100, 47, 101, 47, 102, 103]) + (LE(2, 8) + [120, 121]) ==
           ThirdData();
  }

  lemma ThirdBytes()
    ensures RecordBytes(ThirdEntry()) ==
            [0, 2, 102, 103, 2, 0, 0, 0, 0, 0, 0, 0, 120, 121, 215, 163, 163, 120]
  {
    hide WriterChecksum, LE, WordBytes;
    Integers();
    ThirdChecksum();
    SumBytes();
  }

  // ----- the archive ---------------------------------------------------------------------------------------------

  lemma ThreeRecords(rs: seq<Record>)
    requires |rs| == 3 && |rs[0].name| <= MAX_NAME && |rs[1].name| <= MAX_NAME && |rs[2].name| <= MAX_NAME
    ensures AllBytes(rs) == RecordBytes(rs[0]) + RecordBytes(rs[1]) + RecordBytes(rs[2])
  {
    hide RecordBytes;
    var two, one := rs[..2], rs[..1];
    assert two[..1] == one && one[..0] == [];
    assert AllBytes(one) == AllBytes([]) + RecordBytes(rs[0]);
    assert AllBytes(two) == AllBytes(one) + RecordBytes(rs[1]);
  }

  lemma SampleArchive(data: seq<byte>, rs: seq<Record>)
    requires IsArchive(data, Items(), false, rs)
    ensures data == [66, 82, 45, 97, 3, 0, 0, 0]
                    + [1, 1, 100, 124, 119, 63, 150]
                    + [3, 1, 101, 1, 0, 0, 0, 40, 17, 59, 10]
                    + [0, 2, 102, 103, 2, 0, 0, 0, 0, 0, 0, 0, 120, 121, 215, 163, 163, 120]
  {
    hide Items, RecordBytes, IsRecordFor, LE;
    assert IsRecordAt(Items(), 0, false, rs[0]) && IsRecordAt(Items(), 1, false, rs[1]) && IsRecordAt(Items(), 2, false, rs[2]);
    ItemsAre();
    FirstRecord(Items()[..0], Items()[0], rs[0]);
    SecondRecord(Items()[..1], Items()[1], rs[1]);
    ThirdRecord(Items()[..2], Items()[2], rs[2]);
    FirstBytes();
    SecondBytes();
    ThirdBytes();
    ThreeRecords(rs);
    Magic();
    Integers();
  }

  lemma ItemsAre()
    ensures var items := Items();
            && items[0] == DirItem([D]) && items[1] == DirItem([D, E]) && items[2] == FileItem([D, E], FG, [120, 121])
            && items[..0] == [] && items[..1] == [DirItem([D])]
            && items == [] + [items[0]] + [items[1]] + [items[2]]
            && [] + [items[0]] == [items[0]] && [items[0]] + [items[1]] == [items[0], items[1]]
  {
  }

  lemma OneMore(items: seq<Item>, item: Item)
    requires InOrder(items) && MayFollow(items, item)
    ensures InOrder(items + [item])
  {
    hide MayFollow;
    assert (items + [item])[..|items|] == items;
  }

  lemma ItemsOrdered()
    ensures InOrder(Items()) && AllFit(Items())
  {
    hide InOrder, MayFollow, AllFit, Items;
    MayBegin();
    ItemsAre();
    OneMore([], Items()[0]);
    OneMore([Items()[0]], Items()[1]);
    OneMore([Items()[0], Items()[1]], Items()[2]);
    ItemsFit();
  }

  lemma MayBegin()
    ensures InOrder([]) && MayFollow([], Items()[0])
    ensures MayFollow([Items()[0]], Items()[1]) && MayFollow([Items()[0], Items()[1]], Items()[2])
  {
    var a, b := Items()[0], Items()[1];
    SnocItem([], a);
    SnocItem([a], b);
    assert [] + [a] == [a] && [a] + [b] == [a, b];
    assert DirsOf([]) == [] && DirsOf([a]) == [[D]] && CurrentDir([a, b]) == [D, E];
    assert [D, E][..1] == [D];
  }

  lemma ItemsFit()
    ensures AllFit(Items())
  {
    hide Joined, Inside;
    Paths();
  }

  /** The writer produces exactly these bytes. */
  method WriteSample() returns (f: Stream)
    ensures f.data == [66, 82, 45, 97, 3, 0, 0, 0]
                      + [1, 1, 100, 124, 119, 63, 150]
                      + [3, 1, 101, 1, 0, 0, 0, 40, 17, 59, 10]
                      + [0, 2, 102, 103, 2, 0, 0, 0, 0, 0, 0, 0, 120, 121, 215, 163, 163, 120]
  {
    hide Items, InOrder, AllFit, IsArchive;
    ItemsOrdered();
    var ok;
    ghost var rs;
    ok, f, rs := WriteArchive(Items(), false);
    SampleArchive(f.data, rs);
  }
}
