/** Rotations of a buffer and their lexicographic order. */
module RotationOrder {
  import opened Bytes

  type Row = seq<byte>

  /** The rotation of x that starts at position k. */
  function Rotation(x: Row, k: nat): (r: Row)
    requires k <= |x|
    ensures |r| == |x|
  {
    x[k..] + x[..k]
  }

  lemma RotationAt(x: Row, k: nat, i: nat)
    requires k < |x| && i < |x|
    ensures Rotation(x, k)[i] == x[(k + i) % |x|]
  {
    WrapOnce(k + i, |x|);
    if k + i < |x| {
      assert x[k..][i] == x[k + i];
    } else {
      assert x[..k][i - (|x| - k)] == x[k + i - |x|];
    }
  }

  lemma WrapOnce(v: nat, n: nat)
    requires v < 2 * n
    ensures v % n == if v < n then v else v - n
  {
    if v >= n { assert v == n + (v - n); }
  }

  // ----- lexicographic order -------------------------------------------------------------------------------------

  predicate LexLe(a: Row, b: Row)
    requires |a| == |b|
  {
    a == [] || a[0] < b[0] || (a[0] == b[0] && LexLe(a[1..], b[1..]))
  }

  lemma {:induction false} LexReflexive(a: Row)
    ensures LexLe(a, a)
  {
    if a != [] { LexReflexive(a[1..]); }
  }

  lemma {:induction false} LexTotal(a: Row, b: Row)
    requires |a| == |b|
    ensures LexLe(a, b) || LexLe(b, a)
  {
    if a != [] { LexTotal(a[1..], b[1..]); }
  }

  lemma {:induction false} LexAntisymmetric(a: Row, b: Row)
    requires |a| == |b| && LexLe(a, b) && LexLe(b, a)
    ensures a == b
  {
    if a != [] {
      LexAntisymmetric(a[1..], b[1..]);
      assert a == [a[0]] + a[1..] && b == [b[0]] + b[1..];
    }
  }

  lemma {:induction false} LexTransitive(a: Row, b: Row, c: Row)
    requires |a| == |b| == |c| && LexLe(a, b) && LexLe(b, c)
    ensures LexLe(a, c)
  {
    if a != [] && a[0] == b[0] == c[0] { LexTransitive(a[1..], b[1..], c[1..]); }
  }

  /** Cutting both rows at the same place keeps their order. */
  lemma {:induction false} LexPrefix(a: Row, b: Row, k: nat)
    requires |a| == |b| && k <= |a| && LexLe(a, b)
    ensures LexLe(a[..k], b[..k])
  {
    if k > 0 && a[0] == b[0] {
      LexPrefix(a[1..], b[1..], k - 1);
      assert a[..k][1..] == a[1..][..k - 1] && b[..k][1..] == b[1..][..k - 1];
    }
  }

  /** Rows that agree on their first k bytes compare like what follows. */
  lemma {:induction false} LexSkip(a: Row, b: Row, k: nat)
    requires |a| == |b| && k <= |a| && a[..k] == b[..k]
    ensures LexLe(a, b) <==> LexLe(a[k..], b[k..])
  {
    if k > 0 {
      assert a[0] == a[..k][0] == b[..k][0] == b[0];
      assert a[1..][..k - 1] == a[..k][1..] == b[..k][1..] == b[1..][..k - 1];
      LexSkip(a[1..], b[1..], k - 1);
      assert a[1..][k - 1..] == a[k..] && b[1..][k - 1..] == b[k..];
    } else {
      assert a[0..] == a && b[0..] == b;
    }
  }

  // ----- sequences of rows ---------------------------------------------------------------------------------------

  predicate SameLength(rows: seq<Row>, n: nat)
  {
    forall i :: 0 <= i < |rows| ==> |rows[i]| == n
  }

  predicate SortedRows(rows: seq<Row>, n: nat)
    requires SameLength(rows, n)
  {
    forall i, j :: 0 <= i < j < |rows| ==> LexLe(rows[i], rows[j])
  }

  function Remove<T>(s: seq<T>, k: nat): (r: seq<T>)
    requires k < |s|
    ensures |r| == |s| - 1
    ensures multiset(r) == multiset(s) - multiset{s[k]}
  {
    assert s == s[..k] + [s[k]] + s[k + 1..];
    s[..k] + s[k + 1..]
  }

  /** A sorted sequence of rows is determined by which rows occur how often. */
  lemma {:induction false} SortedUnique(a: seq<Row>, b: seq<Row>, n: nat)
    requires SameLength(a, n) && SameLength(b, n)
    requires SortedRows(a, n) && SortedRows(b, n)
    requires multiset(a) == multiset(b)
    ensures a == b
  {
    hide LexLe;
    assert |a| == |multiset(a)| == |multiset(b)| == |b|;
    if a != [] {
      SameFirst(a, b, n);
      MultisetTail(a);
      MultisetTail(b);
      SortedUnique(a[1..], b[1..], n);
      assert a == [a[0]] + a[1..] && b == [b[0]] + b[1..];
    }
  }

  lemma SameFirst(a: seq<Row>, b: seq<Row>, n: nat)
    requires SameLength(a, n) && SameLength(b, n) && a != [] && b != []
    requires SortedRows(a, n) && SortedRows(b, n)
    requires multiset(a) == multiset(b)
    ensures a[0] == b[0]
  {
    hide LexLe;
    assert a[0] in multiset(a) && b[0] in multiset(b);
    var i := Find(b, a[0]);
    var j := Find(a, b[0]);
    LexReflexive(a[0]);
    LexReflexive(b[0]);
    assert LexLe(a[0], a[j]) && LexLe(b[0], b[i]);
    LexAntisymmetric(a[0], b[0]);
  }

  lemma MultisetTail<T>(s: seq<T>)
    requires s != []
    ensures multiset(s[1..]) == multiset(s) - multiset{s[0]}
  {
    assert s == [s[0]] + s[1..];
  }

  lemma Find<T>(s: seq<T>, x: T) returns (k: nat)
    requires x in multiset(s)
    ensures k < |s| && s[k] == x
  {
    assert x in s;
    k :| 0 <= k < |s| && s[k] == x;
  }

  /** The rotations that start at the given positions. */
  function Rotations(x: Row, starts: seq<nat>): (rows: seq<Row>)
    requires forall i :: 0 <= i < |starts| ==> starts[i] <= |x|
    ensures |rows| == |starts| && forall i :: 0 <= i < |starts| ==> rows[i] == Rotation(x, starts[i])
    ensures SameLength(rows, |x|)
  {
    seq(|starts|, i requires 0 <= i < |starts| => Rotation(x, starts[i]))
  }

  /** Rearranging the starts rearranges the rotations. */
  lemma {:induction false} RotationsMultiset(x: Row, p: seq<nat>, q: seq<nat>)
    requires forall i :: 0 <= i < |p| ==> p[i] <= |x|
    requires forall i :: 0 <= i < |q| ==> q[i] <= |x|
    requires multiset(p) == multiset(q)
    ensures multiset(Rotations(x, p)) == multiset(Rotations(x, q))
  {
    hide Rotation;
    assert |p| == |multiset(p)| == |multiset(q)| == |q|;
    if p != [] {
      assert p[0] in multiset(p);
      var k := Find(q, p[0]);
      MultisetTail(p);
      RotationsMultiset(x, p[1..], Remove(q, k));
      RotationsShorter(x, p, q, k);
      PutBack(Rotations(x, p), Rotations(x, q), k);
    } else {
      assert q == [];
    }
  }

  lemma RotationsShorter(x: Row, p: seq<nat>, q: seq<nat>, k: nat)
    requires forall i :: 0 <= i < |p| ==> p[i] <= |x|
    requires forall i :: 0 <= i < |q| ==> q[i] <= |x|
    requires p != [] && k < |q|
    ensures Rotations(x, Remove(q, k)) == Remove(Rotations(x, q), k)
    ensures Rotations(x, p[1..]) == Rotations(x, p)[1..]
  {
    hide Rotation;
  }

  lemma PutBack<T>(a: seq<T>, b: seq<T>, k: nat)
    requires a != [] && k < |b| && a[0] == b[k]
    requires multiset(a[1..]) == multiset(Remove(b, k))
    ensures multiset(a) == multiset(b)
  {
    assert a == [a[0]] + a[1..];
    assert b == b[..k] + [b[k]] + b[k + 1..];
  }
}
