/** The Burrows-Wheeler transform: encoding by sorting rotations, decoding by counting. */
module Bwt {
  import opened Bytes
  import opened RotationOrder
  import opened BwtTransform

  // ----- what the encoder produces -------------------------------------------------------------------------------

  /** starts lists all rotations in lexicographic order; ties may stand in any order. */
  ghost predicate SortedStarts(x: Row, starts: seq<nat>)
  {
    && multiset(starts) == multiset(Iota(|x|))
    && (forall i :: 0 <= i < |starts| ==> starts[i] < |x|)
    && SortedRows(Rotations(x, starts), |x|)
  }

  /** The last byte of the rotation that starts at s. */
  function LastByte(x: Row, s: nat): byte
    requires s < |x|
  {
    x[(s + |x| - 1) % |x|]
  }

  /** The last bytes of the rotations. */
  function LastColumn(x: Row, starts: seq<nat>): (col: seq<byte>)
    requires forall i :: 0 <= i < |starts| ==> starts[i] < |x|
    ensures |col| == |starts|
    ensures forall i :: 0 <= i < |col| ==> col[i] == LastByte(x, starts[i])
  {
    seq(|starts|, i requires 0 <= i < |starts| => LastByte(x, starts[i]))
  }

  /** col and primary are an encoding of x: some sorted order of the rotations leads to them. */
  ghost predicate IsBwt(x: Row, col: seq<byte>, primary: nat)
  {
    exists starts :: SortedStarts(x, starts) && col == LastColumn(x, starts)
                     && primary < |starts| && starts[primary] == 0
  }

  // ----- sorting -------------------------------------------------------------------------------------------------

  /** Compares two rotations: negative, zero or positive. */
  method CompareRotations(data: array<byte>, sa: nat, sb: nat) returns (r: int)
    requires sa < data.Length && sb < data.Length
    ensures r <= 0 <==> LexLe(Rotation(data[..], sa), Rotation(data[..], sb))
    ensures r == 0 <==> Rotation(data[..], sa) == Rotation(data[..], sb)
  {
    ghost var a, b := Rotation(data[..], sa), Rotation(data[..], sb);
    for i := 0 to data.Length
      invariant a[..i] == b[..i]
    {
      RotationAt(data[..], sa, i);
      RotationAt(data[..], sb, i);
      var byteA := data[(sa + i) % data.Length];
      var byteB := data[(sb + i) % data.Length];
      if byteA != byteB {
        LexSkip(a, b, i);
        assert a[i..][0] == byteA && b[i..][0] == byteB;
        return if byteA < byteB then -1 else 1;
      }
      assert a[..i + 1] == a[..i] + [a[i]] && b[..i + 1] == b[..i] + [b[i]];
    }
    assert a[..data.Length] == a && b[..data.Length] == b;
    LexReflexive(a);
    r := 0;
  }

  ghost predicate SortedPart(x: Row, starts: seq<nat>)
  {
    && (forall i :: 0 <= i < |starts| ==> starts[i] < |x|)
    && SortedRows(Rotations(x, starts), |x|)
  }

  /** Inserts a start into a sorted list of starts. */
  method InsertStart(data: array<byte>, starts: seq<nat>, s: nat) returns (r: seq<nat>)
    requires SortedPart(data[..], starts) && s < data.Length
    ensures SortedPart(data[..], r) && multiset(r) == multiset(starts) + multiset{s} && |r| == |starts| + 1
  {
    hide LexLe, Rotation, SortedRows;
    ghost var x := data[..];
    var k := |starts|;
    while k > 0
      invariant 0 <= k <= |starts|
      invariant k < |starts| ==> LexLe(Rotation(x, s), Rotation(x, starts[k]))
    {
      var c := CompareRotations(data, starts[k - 1], s);
      if c <= 0 {
        break;
      }
      LexTotal(Rotation(x, starts[k - 1]), Rotation(x, s));
      k := k - 1;
    }
    SortedTail(x, starts, k, s);
    r := starts[..k] + [s] + starts[k..];
    InsertedSorted(x, starts, k, s);
    InsertedOne(starts, k, s);
  }

  lemma InsertedOne(starts: seq<nat>, k: nat, s: nat)
    requires k <= |starts|
    ensures multiset(starts[..k] + [s] + starts[k..]) == multiset(starts) + multiset{s}
  {
    assert starts == starts[..k] + starts[k..];
  }

  lemma SortedTail(x: Row, starts: seq<nat>, k: nat, s: nat)
    requires SortedPart(x, starts) && s < |x| && k <= |starts|
    requires k < |starts| ==> LexLe(Rotation(x, s), Rotation(x, starts[k]))
    ensures forall i :: k <= i < |starts| ==> LexLe(Rotation(x, s), Rotation(x, starts[i]))
  {
    hide LexLe, Rotation;
    var rows := Rotations(x, starts);
    forall i | k < i < |starts|
      ensures LexLe(Rotation(x, s), Rotation(x, starts[i]))
    {
      assert LexLe(rows[k], rows[i]);
      LexTransitive(Rotation(x, s), Rotation(x, starts[k]), Rotation(x, starts[i]));
    }
  }

  lemma InsertedSorted(x: Row, starts: seq<nat>, k: nat, s: nat)
    requires SortedPart(x, starts) && s < |x| && k <= |starts|
    requires k > 0 ==> LexLe(Rotation(x, starts[k - 1]), Rotation(x, s))
    requires forall i :: k <= i < |starts| ==> LexLe(Rotation(x, s), Rotation(x, starts[i]))
    ensures SortedPart(x, starts[..k] + [s] + starts[k..])
  {
    hide LexLe, Rotation;
    var r := starts[..k] + [s] + starts[k..];
    var rows := Rotations(x, starts);
    forall i, j | 0 <= i < j < |r|
      ensures LexLe(Rotations(x, r)[i], Rotations(x, r)[j])
    {
      if i < k && j == k {
        if i < k - 1 {
          assert LexLe(rows[i], rows[k - 1]);
          LexTransitive(Rotation(x, starts[i]), Rotation(x, starts[k - 1]), Rotation(x, s));
        }
      } else if i != k {
        var i', j' := if i < k then i else i - 1, if j < k then j else j - 1;
        assert LexLe(rows[i'], rows[j']);
      }
    }
  }

  /** Stands for the library sort: the result is sorted, and nothing is said about ties. */
  method SortRotations(data: array<byte>, index: array<nat>)
    requires index.Length == data.Length && index[..] == Iota(data.Length)
    modifies index
    ensures SortedStarts(data[..], index[..])
  {
    var sorted: seq<nat> := [];
    for i := 0 to index.Length
      invariant SortedPart(data[..], sorted) && index[..] == Iota(data.Length)
      invariant |sorted| == i && multiset(sorted) == multiset(index[..i])
    {
      assert index[..i + 1] == index[..i] + [index[i]];
      sorted := InsertStart(data, sorted, index[i]);
    }
    assert index[..index.Length] == index[..];
    ghost var x := data[..];
    forall i | 0 <= i < index.Length {
      index[i] := sorted[i];
    }
    assert index[..] == sorted && data[..] == x;
  }

  // ----- encoding ------------------------------------------------------------------------------------------------

  method Encode(buf: array<byte>, out: array<byte>) returns (primary: nat)
    requires 0 < buf.Length == out.Length && buf != out
    modifies out
    ensures primary < buf.Length && IsBwt(buf[..], out[..], primary)
  {
    ghost var x := buf[..];
    var index := new nat[buf.Length](i => i);
    assert index[..] == Iota(buf.Length);
    SortRotations(buf, index);
    ghost var starts := index[..];
    primary := 0;
    ghost var z := ZeroStart(x, starts);
    for i := 0 to buf.Length
      invariant buf[..] == x && index[..] == starts
      invariant forall k :: 0 <= k < i ==> out[k] == LastByte(x, starts[k])
      invariant 0 <= primary < buf.Length
      invariant starts[primary] == 0 || z >= i
    {
      var lastPos := (index[i] + buf.Length - 1) % buf.Length;
      out[i] := buf[lastPos];
      if index[i] == 0 {
        primary := i;
      }
    }
    assert out[..] == LastColumn(x, starts);
  }

  lemma ZeroStart(x: Row, starts: seq<nat>) returns (z: nat)
    requires x != [] && SortedStarts(x, starts)
    ensures z < |starts| == |x| && starts[z] == 0
  {
    assert |starts| == |multiset(starts)| == |multiset(Iota(|x|))| == |x|;
    assert Iota(|x|)[0] == 0;
    z := Find(starts, 0);
  }

  // ----- decoding ------------------------------------------------------------------------------------------------

  /** The chain of rows the decoder follows. */
  function Chain(t: seq<nat>, primary: nat, k: nat): (j: nat)
    requires primary < |t| && forall i :: 0 <= i < |t| ==> t[i] < |t|
    ensures j < |t|
  {
    if k == 0 then primary else t[Chain(t, primary, k - 1)]
  }

  /** What the decoder writes. */
  function Decoded(col: seq<byte>, primary: nat): (x: seq<byte>)
    requires primary < |col|
    ensures |x| == |col|
  {
    TransformIsPermutation(col);
    seq(|col|, i requires 0 <= i < |col| => col[Chain(Transform(col, ALPHABET_SIZE), primary, i + 1)])
  }

  method Decode(col: array<byte>, primary: nat, transform: array<nat>, out: array<byte>)
    requires primary < col.Length == transform.Length == out.Length && col != out
    modifies transform, out
    ensures out[..] == Decoded(col[..], primary)
  {
    ghost var bytes := col[..];
    BuildTransform(col, transform);
    TransformIsPermutation(bytes);
    ghost var t := transform[..];
    var index := primary;
    for i := 0 to col.Length
      invariant col[..] == bytes && transform[..] == t && index == Chain(t, primary, i) < |t|
      invariant forall k :: 0 <= k < i ==> out[k] == Decoded(bytes, primary)[k]
    {
      index := transform[index];
      out[i] := col[index];
    }
  }

  // ----- the round trip ------------------------------------------------------------------------------------------

  /** The row of rotation s, rotated right by one, is a rotation again: its last byte, then the rest. */
  function Prev(n: nat, s: nat): (r: nat)
    requires s < n
    ensures r < n
  {
    (s + n - 1) % n
  }

  lemma PrevValue(n: nat, s: nat)
    requires s < n
    ensures Prev(n, s) == if s == 0 then n - 1 else s - 1
  {
    WrapOnce(s + n - 1, n);
  }

  lemma PrevRow(x: Row, s: nat)
    requires s < |x|
    ensures Prev(|x|, s) < |x|
    ensures Rotation(x, Prev(|x|, s)) == [LastByte(x, s)] + Rotation(x, s)[..|x| - 1]
    ensures Rotation(x, s)[|x| - 1] == LastByte(x, s)
  {
    PrevValue(|x|, s);
    assert LastByte(x, s) == x[Prev(|x|, s)];
    hide Prev, LastByte;
    var r, q := Rotation(x, s), Rotation(x, Prev(|x|, s));
    forall i | 0 <= i < |x|
      ensures q[i] == ([LastByte(x, s)] + r[..|x| - 1])[i]
    {
    }
  }

  /** The starts of the rows rotated right by one, in the order of the transform. */
  function Shifted(x: Row, starts: seq<nat>, t: seq<nat>): (r: seq<nat>)
    requires forall i :: 0 <= i < |starts| ==> starts[i] < |x|
    requires forall j :: 0 <= j < |t| ==> t[j] < |starts|
    ensures |r| == |t| && forall j :: 0 <= j < |t| ==> r[j] == Prev(|x|, starts[t[j]]) < |x|
  {
    seq(|t|, j requires 0 <= j < |t| => Prev(|x|, starts[t[j]]))
  }

  /** Sorting the rotated rows by their first byte alone sorts them completely. */
  lemma ShiftedSorted(x: Row, starts: seq<nat>, t: seq<nat>)
    requires SortedStarts(x, starts) && |starts| == |x|
    requires t == Transform(LastColumn(x, starts), ALPHABET_SIZE)
    requires forall j :: 0 <= j < |t| ==> t[j] < |starts|
    ensures SortedRows(Rotations(x, Shifted(x, starts, t)), |x|)
  {
    hide Rotation, Transform, LastByte, Prev;
    var col := LastColumn(x, starts);
    TransformOrder(col, ALPHABET_SIZE);
    forall i, j | 0 <= i < j < |t|
      ensures LexLe(Rotation(x, Shifted(x, starts, t)[i]), Rotation(x, Shifted(x, starts, t)[j]))
    {
      assert Before(col, t[i], t[j]);
      ShiftedPair(x, starts, t[i], t[j]);
    }
  }

  lemma ShiftedPair(x: Row, starts: seq<nat>, p: nat, q: nat)
    requires SortedStarts(x, starts) && p < |starts| && q < |starts|
    requires Before(LastColumn(x, starts), p, q)
    ensures LexLe(Rotation(x, Prev(|x|, starts[p])), Rotation(x, Prev(|x|, starts[q])))
  {
    hide Rotation, Prev;
    PrevRow(x, starts[p]);
    PrevRow(x, starts[q]);
    var a, b := Rotation(x, starts[p]), Rotation(x, starts[q]);
    if LastByte(x, starts[p]) == LastByte(x, starts[q]) {
      assert LexLe(Rotations(x, starts)[p], Rotations(x, starts)[q]);
      LexPrefix(a, b, |x| - 1);
      LexCons(LastByte(x, starts[p]), a[..|x| - 1], b[..|x| - 1]);
    }
  }

  lemma LexCons(c: byte, a: Row, b: Row)
    requires |a| == |b| && LexLe(a, b)
    ensures LexLe([c] + a, [c] + b)
  {
    assert ([c] + a)[1..] == a && ([c] + b)[1..] == b;
  }

  /** f applied to every element. */
  function Map(s: seq<nat>, f: nat -> nat): (r: seq<nat>)
    ensures |r| == |s| && forall i :: 0 <= i < |s| ==> r[i] == f(s[i])
  {
    seq(|s|, i requires 0 <= i < |s| => f(s[i]))
  }

  lemma MapRemove(q: seq<nat>, k: nat, f: nat -> nat)
    requires k < |q|
    ensures Map(Remove(q, k), f) == Remove(Map(q, f), k)
  {
  }

  lemma MapTail(p: seq<nat>, f: nat -> nat)
    requires p != []
    ensures Map(p[1..], f) == Map(p, f)[1..]
  {
  }

  lemma SameSize(p: seq<nat>, q: seq<nat>)
    requires multiset(p) == multiset(q)
    ensures |p| == |q|
  {
    assert |p| == |multiset(p)| == |multiset(q)| == |q|;
  }

  lemma {:induction false} MapMultiset(p: seq<nat>, q: seq<nat>, f: nat -> nat)
    requires multiset(p) == multiset(q)
    ensures multiset(Map(p, f)) == multiset(Map(q, f))
  {
    hide Map, Remove;
    SameSize(p, q);
    if p == [] {
      assert q == [];
    } else {
      assert p[0] in multiset(p);
      var k := Find(q, p[0]);
      MultisetTail(p);
      MapMultiset(p[1..], Remove(q, k), f);
      MapRemove(q, k, f);
      MapTail(p, f);
      PutBack(Map(p, f), Map(q, f), k);
    }
  }

  function PrevOrZero(n: nat): nat -> nat
  {
    (s: nat) => if s < n then Prev(n, s) else 0
  }

  function StartOrZero(starts: seq<nat>): nat -> nat
  {
    (j: nat) => if j < |starts| then starts[j] else 0
  }

  /** Stepping back from every position reaches every position. */
  lemma PrevPermutes(n: nat)
    requires n > 0
    ensures multiset(Map(Iota(n), PrevOrZero(n))) == multiset(Iota(n))
  {
    hide Prev;
    var m := Map(Iota(n), PrevOrZero(n));
    forall i | 0 <= i < n
      ensures m[i] == ([n - 1] + Iota(n - 1))[i]
    {
      PrevValue(n, i);
    }
    RotateOne(Iota(n - 1), n - 1, m, Iota(n));
  }

  lemma RotateOne(s: seq<nat>, x: nat, a: seq<nat>, b: seq<nat>)
    requires a == [x] + s && b == s + [x]
    ensures multiset(a) == multiset(b)
  {
  }

  lemma ShiftedPermutation(x: Row, starts: seq<nat>, t: seq<nat>)
    requires x != [] && SortedStarts(x, starts) && |starts| == |x|
    requires multiset(t) == multiset(Iota(|x|))
    requires forall j :: 0 <= j < |t| ==> t[j] < |starts|
    ensures multiset(Shifted(x, starts, t)) == multiset(starts)
  {
    hide Prev, Rotation, SortedRows;
    var n := |x|;
    PrevPermutes(n);
    MapMultiset(t, Iota(n), StartOrZero(starts));
    assert Map(Iota(n), StartOrZero(starts)) == starts;
    MapMultiset(Map(t, StartOrZero(starts)), Iota(n), PrevOrZero(n));
    assert Map(Map(t, StartOrZero(starts)), PrevOrZero(n)) == Shifted(x, starts, t);
  }

  /** Key lemma: the row reached by the transform from row j has row j's content rotated left by
      one. It holds for contents, so tied rows do no harm. */
  lemma TransformRotates(x: Row, starts: seq<nat>, j: nat)
    requires x != [] && SortedStarts(x, starts) && j < |starts| == |x|
    ensures var t := Transform(LastColumn(x, starts), ALPHABET_SIZE);
            |t| == |x| && t[j] < |x| && Rotation(x, Prev(|x|, starts[t[j]])) == Rotation(x, starts[j])
  {
    hide Transform, LastByte, Prev, Rotation;
    var col := LastColumn(x, starts);
    var t := Transform(col, ALPHABET_SIZE);
    TransformIsPermutation(col);
    ShiftedSorted(x, starts, t);
    ShiftedPermutation(x, starts, t);
    var a, b := Rotations(x, starts), Rotations(x, Shifted(x, starts, t));
    RotationsMultiset(x, starts, Shifted(x, starts, t));
    SortedUnique(a, b, |x|);
    assert a[j] == b[j];
  }

  /** After k steps the decoder stands on a row with the content of rotation k. */
  lemma {:induction false} ChainRow(x: Row, starts: seq<nat>, primary: nat, k: nat)
    requires x != [] && SortedStarts(x, starts) && primary < |starts| == |x| && starts[primary] == 0
    requires k <= |x|
    ensures var t := Transform(LastColumn(x, starts), ALPHABET_SIZE);
            && |t| == |x| && (forall j :: 0 <= j < |t| ==> t[j] < |t|)
            && Rotation(x, starts[Chain(t, primary, k)]) == Rotation(x, k)
  {
    hide Transform, SortedRows, Rotation, LastByte, Prev;
    var col := LastColumn(x, starts);
    TransformIsPermutation(col);
    var t := Transform(col, ALPHABET_SIZE);
    if k > 0 {
      ChainRow(x, starts, primary, k - 1);
      var j := Chain(t, primary, k - 1);
      TransformRotates(x, starts, j);
      NextRotation(x, starts[t[j]], k);
    }
  }

  lemma RotateLeft(x: Row, k: nat)
    requires 0 < k <= |x|
    ensures Rotation(x, k) == Rotation(x, k - 1)[1..] + [Rotation(x, k - 1)[0]]
  {
    var q := Rotation(x, k - 1);
    assert q[0] == x[k - 1];
    assert q[1..] == x[k..] + x[..k - 1];
    assert x[..k] == x[..k - 1] + [x[k - 1]];
  }

  lemma UndoRight(q: Row, r: Row)
    requires |r| > 0 && q == [r[|r| - 1]] + r[..|r| - 1]
    ensures r == q[1..] + [q[0]]
  {
  }

  /** A row whose right rotation is rotation k - 1 has the content of rotation k. */
  lemma NextRotation(x: Row, s: nat, k: nat)
    requires s < |x| && 0 < k <= |x|
    requires Rotation(x, Prev(|x|, s)) == Rotation(x, k - 1)
    ensures Rotation(x, s) == Rotation(x, k)
  {
    hide Rotation, Prev, LastByte;
    PrevRow(x, s);
    RotateLeft(x, k);
    UndoRight(Rotation(x, k - 1), Rotation(x, s));
  }

  /** Round trip: whatever the order of tied rotations, decoding returns the buffer. */
  lemma RoundTrip(x: Row, col: seq<byte>, primary: nat)
    requires x != [] && IsBwt(x, col, primary)
    ensures primary < |col| == |x| && Decoded(col, primary) == x
  {
    hide Transform, SortedRows, Rotation, LastByte;
    var starts :| SortedStarts(x, starts) && col == LastColumn(x, starts)
                  && primary < |starts| && starts[primary] == 0;
    SortedLength(x, starts);
    TransformIsPermutation(col);
    forall i | 0 <= i < |x|
      ensures Decoded(col, primary)[i] == x[i]
    {
      DecodedByte(x, starts, primary, i);
    }
  }

  lemma DecodedByte(x: Row, starts: seq<nat>, primary: nat, i: nat)
    requires SortedStarts(x, starts) && primary < |starts| == |x| && starts[primary] == 0 && i < |x|
    ensures Decoded(LastColumn(x, starts), primary)[i] == x[i]
  {
    hide Transform, SortedRows, Rotation, LastByte;
    TransformIsPermutation(LastColumn(x, starts));
    ChainRow(x, starts, primary, i + 1);
    PrevRow(x, starts[Chain(Transform(LastColumn(x, starts), ALPHABET_SIZE), primary, i + 1)]);
    LastOfRotation(x, i);
  }

  lemma LastOfRotation(x: Row, i: nat)
    requires i < |x|
    ensures Rotation(x, i + 1)[|x| - 1] == x[i]
  {
  }

  lemma SortedLength(x: Row, starts: seq<nat>)
    requires SortedStarts(x, starts)
    ensures |starts| == |x|
  {
    assert |starts| == |multiset(starts)| == |multiset(Iota(|x|))| == |x|;
  }
}
