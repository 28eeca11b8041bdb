/** The transform of "banana". */
module BwtSample {
  import opened Bytes
  import opened RotationOrder
  import opened BwtTransform
  import opened Bwt

  function Banana(): (x: Row)
    ensures |x| == 6
  {
    [98, 97, 110, 97, 110, 97]
  }

  /** Where its rotations start, in lexicographic order. */
  function Starts(): (s: seq<nat>)
    ensures |s| == 6 && forall i :: 0 <= i < 6 ==> s[i] < 6
  {
    [5, 3, 1, 0, 4, 2]
  }

  /** Rotation i in that order: abanan, anaban, ananab, banana, nabana, nanaba. */
  function Row(i: nat): (r: seq<byte>)
    requires i < 6
    ensures |r| == 6
  {
    if i == 0 then [97, 98, 97, 110, 97, 110]
    else if i == 1 then [97, 110, 97, 98, 97, 110]
    else if i == 2 then [97, 110, 97, 110, 97, 98]
    else if i == 3 then [98, 97, 110, 97, 110, 97]
    else if i == 4 then [110, 97, 98, 97, 110, 97]
    else [110, 97, 110, 97, 98, 97]
  }

  lemma RowIsRotation(i: nat)
    requires i < 6
    ensures Rotation(Banana(), Starts()[i]) == Row(i)
  {
    if i == 0 { RowBytes(5, Row(0)); }
    if i == 1 { RowBytes(3, Row(1)); }
    if i == 2 { RowBytes(1, Row(2)); }
    if i == 3 { RowBytes(0, Row(3)); }
    if i == 4 { RowBytes(4, Row(4)); }
    if i == 5 { RowBytes(2, Row(5)); }
  }

  lemma RowBytes(k: nat, r: seq<byte>)
    requires k < 6 && |r| == 6 && forall i :: 0 <= i < 6 ==> r[i] == Banana()[if k + i < 6 then k + i else k + i - 6]
    ensures Rotation(Banana(), k) == r
  {
  }

  lemma FirstDifference(a: seq<byte>, b: seq<byte>, k: nat)
    requires |a| == |b| && k < |a| && a[..k] == b[..k] && a[k] < b[k]
    ensures LexLe(a, b) && !LexLe(b, a)
  {
    LexSkip(a, b, k);
    LexSkip(b, a, k);
  }

  lemma NextRow(i: nat)
    requires i < 5
    ensures LexLe(Row(i), Row(i + 1))
  {
    hide LexLe;
    var k: nat := if i == 1 then 3 else if i == 4 then 2 else if i == 0 then 1 else 0;
    FirstDifference(Row(i), Row(i + 1), k);
  }

  lemma {:induction false} RowsAscend(i: nat, j: nat)
    requires i < j < 6
    ensures LexLe(Row(i), Row(j))
    decreases j
  {
    hide LexLe, Row;
    NextRow(j - 1);
    if i < j - 1 {
      RowsAscend(i, j - 1);
      LexTransitive(Row(i), Row(j - 1), Row(j));
    }
  }

  lemma StartRows()
    ensures SortedRows(Rotations(Banana(), Starts()), 6)
  {
    hide LexLe, Rotation, Row, Banana, Starts;
    var rows := Rotations(Banana(), Starts());
    forall i, j | 0 <= i < j < 6
      ensures LexLe(rows[i], rows[j])
    {
      RowIsRotation(i);
      RowIsRotation(j);
      RowsAscend(i, j);
    }
  }

  lemma StartsSorted()
    ensures SortedStarts(Banana(), Starts())
  {
    hide SortedRows, Banana, Starts;
    SixStarts();
    StartRows();
  }

  lemma SixStarts()
    ensures multiset(Starts()) == multiset(Iota(6))
  {
    assert Iota(6) == [0, 1, 2, 3, 4, 5];
    assert multiset(Starts()) == multiset{0, 1, 2, 3, 4, 5};
  }

  /** There is only this order. */
  lemma RowsAre(starts: seq<nat>)
    requires SortedStarts(Banana(), starts)
    ensures |starts| == 6 && forall i :: 0 <= i < 6 ==> starts[i] < 6 && Rotation(Banana(), starts[i]) == Row(i)
  {
    hide LexLe, Rotation, SortedRows, Banana, Starts, Row;
    StartsSorted();
    SortedLength(Banana(), starts);
    RotationsMultiset(Banana(), starts, Starts());
    SortedUnique(Rotations(Banana(), starts), Rotations(Banana(), Starts()), 6);
    forall i | 0 <= i < 6
      ensures Rotation(Banana(), starts[i]) == Row(i)
    {
      RowIsRotation(i);
      assert Rotations(Banana(), starts)[i] == Rotations(Banana(), Starts())[i];
    }
  }

  lemma ColumnOf(starts: seq<nat>, col: seq<byte>, primary: nat)
    requires |starts| == |col| == 6
    requires forall i :: 0 <= i < 6 ==> starts[i] < 6 && Rotation(Banana(), starts[i]) == Row(i)
    requires forall i :: 0 <= i < 6 ==> col[i] == LastByte(Banana(), starts[i])
    requires primary < 6 && starts[primary] == 0
    ensures col == [110, 110, 98, 97, 97, 97] && primary == 3
  {
    hide Rotation, LastByte, Banana, Row;
    forall i | 0 <= i < 6
      ensures col[i] == Row(i)[5]
    {
      LastIsLast(starts[i]);
    }
    RowEnds();
    OnlyRow3(primary);
  }

  /** Every encoding of "banana" is "nnbaaa" with primary index 3. */
  lemma BananaTransformed(col: seq<byte>, primary: nat)
    requires IsBwt(Banana(), col, primary)
    ensures col == [110, 110, 98, 97, 97, 97] && primary == 3
  {
    hide Rotation, LastByte, Banana, Row, SortedRows;
    var starts :| SortedStarts(Banana(), starts) && col == LastColumn(Banana(), starts)
                  && primary < |starts| && starts[primary] == 0;
    RowsAre(starts);
    ColumnOf(starts, col, primary);
  }

  lemma LastIsLast(s: nat)
    requires s < 6
    ensures LastByte(Banana(), s) == Rotation(Banana(), s)[5]
  {
    hide Rotation, LastByte, Banana;
    PrevRow(Banana(), s);
  }

  lemma RowEnds()
    ensures Row(0)[5] == 110 && Row(1)[5] == 110 && Row(2)[5] == 98 && Row(3)[5] == 97 && Row(4)[5] == 97 && Row(5)[5] == 97
    ensures Rotation(Banana(), 0) == Banana()
  {
  }

  lemma OnlyRow3(i: nat)
    requires i < 6 && Row(i) == Banana()
    ensures i == 3
  {
    assert Row(i)[0] == 98;
  }
}
