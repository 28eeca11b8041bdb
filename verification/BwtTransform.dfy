/** The decoder's transform: a stable counting sort of the positions of the last column. */
module BwtTransform {
  import opened Bytes

  /** The positions below n that hold c, in ascending order. */
  function Where(col: seq<byte>, c: nat, n: nat): (ps: seq<nat>)
    requires n <= |col|
  {
    if n == 0 then []
    else Where(col, c, n - 1) + if col[n - 1] == c then [n - 1] else []
  }

  /** The positions of all bytes below k, byte by byte: the first part of the transform. */
  function Transform(col: seq<byte>, k: nat): seq<nat>
  {
    if k == 0 then [] else Transform(col, k - 1) + Where(col, k - 1, |col|)
  }

  function FirstOf(col: seq<byte>, c: nat): nat
  {
    |Transform(col, c)|
  }

  lemma {:induction false} WhereMembers(col: seq<byte>, c: nat, n: nat)
    requires n <= |col|
    ensures forall i :: 0 <= i < |Where(col, c, n)| ==> Where(col, c, n)[i] < n && col[Where(col, c, n)[i]] == c
    ensures forall i, j :: 0 <= i < j < |Where(col, c, n)| ==> Where(col, c, n)[i] < Where(col, c, n)[j]
  {
    if n > 0 { WhereMembers(col, c, n - 1); }
  }

  /** j comes before j' in the transform: a smaller byte, or the same byte further up. */
  predicate Before(col: seq<byte>, p: nat, q: nat)
    requires p < |col| && q < |col|
  {
    col[p] < col[q] || (col[p] == col[q] && p < q)
  }

  lemma {:induction false} TransformOrder(col: seq<byte>, k: nat)
    ensures forall i :: 0 <= i < |Transform(col, k)| ==> Transform(col, k)[i] < |col| && col[Transform(col, k)[i]] < k
    ensures forall i, j :: 0 <= i < j < |Transform(col, k)| ==> Before(col, Transform(col, k)[i], Transform(col, k)[j])
  {
    if k > 0 {
      TransformOrder(col, k - 1);
      WhereMembers(col, k - 1, |col|);
    }
  }

  /** 0, 1, ..., n - 1. */
  function Iota(n: nat): (s: seq<nat>)
    ensures |s| == n && forall i :: 0 <= i < n ==> s[i] == i
  {
    seq(n, i requires 0 <= i < n => i)
  }

  /** The positions below n that hold a byte below k, in ascending order. */
  function Smaller(col: seq<byte>, k: nat, n: nat): seq<nat>
    requires n <= |col|
  {
    if n == 0 then []
    else Smaller(col, k, n - 1) + if col[n - 1] < k then [n - 1] else []
  }

  lemma {:induction false} SmallerStep(col: seq<byte>, k: nat, n: nat)
    requires n <= |col|
    ensures multiset(Smaller(col, k + 1, n)) == multiset(Smaller(col, k, n)) + multiset(Where(col, k, n))
  {
    hide Smaller, Where;
    NoneBelow(col, k);
    if n > 0 {
      SmallerStep(col, k, n - 1);
      OneSmaller(multiset(Smaller(col, k + 1, n - 1)), multiset(Smaller(col, k, n - 1)), multiset(Where(col, k, n - 1)), n - 1);
      Unfolded(col, k + 1, n - 1);
      Unfolded(col, k, n - 1);
    }
  }

  lemma NoneBelow(col: seq<byte>, k: nat)
    ensures Smaller(col, k, 0) == Smaller(col, k + 1, 0) == Where(col, k, 0) == []
  {
  }

  lemma OneSmaller(s: multiset<nat>, a: multiset<nat>, b: multiset<nat>, x: nat)
    requires s == a + b
    ensures s + multiset{x} == (a + multiset{x}) + b
    ensures s + multiset{x} == a + (b + multiset{x})
  {
  }

  lemma Unfolded(col: seq<byte>, k: nat, x: nat)
    requires x < |col|
    ensures multiset(Smaller(col, k, x + 1)) ==
            if col[x] < k then multiset(Smaller(col, k, x)) + multiset{x} else multiset(Smaller(col, k, x))
    ensures multiset(Where(col, k, x + 1)) ==
            if col[x] == k then multiset(Where(col, k, x)) + multiset{x} else multiset(Where(col, k, x))
  {
  }

  lemma {:induction false} SmallerNone(col: seq<byte>, n: nat)
    requires n <= |col|
    ensures Smaller(col, 0, n) == []
  {
    if n > 0 { SmallerNone(col, n - 1); }
  }

  lemma {:induction false} SmallerAll(col: seq<byte>, n: nat)
    requires n <= |col|
    ensures Smaller(col, ALPHABET_SIZE, n) == Iota(n)
  {
    if n > 0 { SmallerAll(col, n - 1); }
  }

  lemma {:induction false} TransformMultiset(col: seq<byte>, k: nat)
    ensures multiset(Transform(col, k)) == multiset(Smaller(col, k, |col|))
  {
    hide Smaller, Where;
    if k == 0 {
      SmallerNone(col, |col|);
    } else {
      TransformMultiset(col, k - 1);
      SmallerStep(col, k - 1, |col|);
    }
  }

  /** The transform of every column is a permutation of its positions. */
  lemma TransformIsPermutation(col: seq<byte>)
    ensures |Transform(col, ALPHABET_SIZE)| == |col|
    ensures multiset(Transform(col, ALPHABET_SIZE)) == multiset(Iota(|col|))
    ensures forall j :: 0 <= j < |col| ==> Transform(col, ALPHABET_SIZE)[j] < |col|
  {
    hide Transform, Smaller;
    TransformMultiset(col, ALPHABET_SIZE);
    SmallerAll(col, |col|);
    assert |Transform(col, ALPHABET_SIZE)| == |multiset(Transform(col, ALPHABET_SIZE))| == |multiset(Iota(|col|))|;
    TransformOrder(col, ALPHABET_SIZE);
  }

  // ----- the loops -----------------------------------------------------------------------------------------------

  lemma {:induction false} FirstMonotone(col: seq<byte>, c: nat, d: nat)
    requires c <= d
    ensures FirstOf(col, c) <= FirstOf(col, d)
    ensures c < d ==> FirstOf(col, c) + |Where(col, c, |col|)| <= FirstOf(col, d)
    decreases d
  {
    if c < d { FirstMonotone(col, c, d - 1); }
  }

  lemma {:induction false} WhereGrows(col: seq<byte>, c: nat, i: nat, n: nat)
    requires i <= n <= |col|
    ensures |Where(col, c, i)| <= |Where(col, c, n)| <= n
    ensures i < n && col[i] == c ==> |Where(col, c, i)| < |Where(col, c, n)|
    decreases n
  {
    if i < n {
      WhereGrows(col, c, i, n - 1);
      if i + 1 < n { WhereGrows(col, c, i, n - 1); }
    } else if n > 0 {
      WhereGrows(col, c, n - 1, n - 1);
    }
  }

  /** Counts, per byte, how often it occurs. */
  method CountBytes(col: array<byte>) returns (count: array<nat>)
    ensures fresh(count) && count.Length == ALPHABET_SIZE
    ensures forall c :: 0 <= c < ALPHABET_SIZE ==> count[c] == |Where(col[..], c, col.Length)|
  {
    count := new nat[ALPHABET_SIZE](_ => 0);
    for i := 0 to col.Length
      invariant forall c :: 0 <= c < ALPHABET_SIZE ==> count[c] == |Where(col[..], c, i)|
    {
      count[col[i]] := count[col[i]] + 1;
    }
  }

  /** Cumulative counts: where each byte's positions start in the transform. */
  method FirstOccurrences(count: array<nat>, ghost col: seq<byte>) returns (first: array<nat>)
    requires count.Length == ALPHABET_SIZE
    requires forall c :: 0 <= c < ALPHABET_SIZE ==> count[c] == |Where(col, c, |col|)|
    ensures fresh(first) && first.Length == ALPHABET_SIZE
    ensures forall c :: 0 <= c < ALPHABET_SIZE ==> first[c] == FirstOf(col, c)
  {
    first := new nat[ALPHABET_SIZE](_ => 0);
    for c := 1 to ALPHABET_SIZE
      invariant forall d :: 0 <= d < c ==> first[d] == FirstOf(col, d)
    {
      first[c] := first[c - 1] + count[c - 1];
    }
  }

  /** Entry k of byte c's block is the k-th position that holds c. */
  predicate Placed(t: seq<nat>, col: seq<byte>, n: nat, c: nat, k: nat)
    requires n <= |col| && k < |Where(col, c, n)|
  {
    FirstOf(col, c) + k < |t| && t[FirstOf(col, c) + k] == Where(col, c, n)[k]
  }

  /** Every byte's block of the transform is filled with the positions found so far. */
  ghost predicate Filled(t: seq<nat>, col: seq<byte>, n: nat)
    requires n <= |col|
  {
    forall c, k :: 0 <= c < ALPHABET_SIZE && 0 <= k < |Where(col, c, n)| ==> Placed(t, col, n, c, k)
  }

  /** Where position i belongs: behind the earlier positions of its byte. */
  function Slot(col: seq<byte>, i: nat): nat
    requires i < |col|
  {
    FirstOf(col, col[i]) + |Where(col, col[i], i)|
  }

  lemma SlotInside(col: seq<byte>, i: nat)
    requires i < |col|
    ensures Slot(col, i) < |col|
  {
    hide Transform, Where;
    WhereGrows(col, col[i], i, |col|);
    FirstMonotone(col, col[i], ALPHABET_SIZE);
    TransformIsPermutation(col);
  }

  /** The slot of position i is not one that an earlier position took. */
  lemma SlotIsFree(col: seq<byte>, i: nat, c: nat, k: nat)
    requires i < |col| && c < ALPHABET_SIZE && k < |Where(col, c, i)|
    ensures FirstOf(col, c) + k != Slot(col, i)
  {
    hide FirstOf, Where;
    var d := col[i];
    WhereGrows(col, d, i, |col|);
    WhereGrows(col, c, i, |col|);
    FirstMonotone(col, if c < d then c else d, if c < d then d else c);
  }

  /** Putting position i into its slot. */
  lemma FillSlot(t: seq<nat>, col: seq<byte>, i: nat)
    requires i < |col| == |t| && Slot(col, i) < |col| && Filled(t, col, i)
    ensures Filled(t[Slot(col, i) := i], col, i + 1)
  {
    hide FirstOf;
    var r, n := t[Slot(col, i) := i], i + 1;
    forall c, k | 0 <= c < ALPHABET_SIZE && 0 <= k < |Where(col, c, n)|
      ensures Placed(r, col, n, c, k)
    {
      if k < |Where(col, c, i)| {
        SlotIsFree(col, i, c, k);
        assert Placed(t, col, i, c, k);
      }
    }
  }

  /** A completely filled array is the transform. */
  lemma {:induction false} FilledPrefix(t: seq<nat>, col: seq<byte>, k: nat)
    requires k <= ALPHABET_SIZE && FirstOf(col, k) <= |t| && Filled(t, col, |col|)
    ensures t[..FirstOf(col, k)] == Transform(col, k)
  {
    hide Where;
    if k > 0 {
      FilledPrefix(t, col, k - 1);
      var block := Where(col, k - 1, |col|);
      assert FirstOf(col, k) == FirstOf(col, k - 1) + |block|;
      forall j | 0 <= j < |block|
        ensures t[FirstOf(col, k - 1)..FirstOf(col, k)][j] == block[j]
      {
        assert Placed(t, col, |col|, k - 1, j);
      }
      assert t[..FirstOf(col, k)] == t[..FirstOf(col, k - 1)] + t[FirstOf(col, k - 1)..FirstOf(col, k)];
    }
  }

  method BuildTransform(col: array<byte>, transform: array<nat>)
    requires transform.Length == col.Length
    modifies transform
    ensures transform[..] == Transform(col[..], ALPHABET_SIZE)
  {
    hide Transform, Where;
    ghost var bytes := col[..];
    var count := CountBytes(col);
    var first := FirstOccurrences(count, bytes);
    var next := new nat[ALPHABET_SIZE](c requires 0 <= c < ALPHABET_SIZE && first.Length == ALPHABET_SIZE reads first => first[c]);
    NoneFound(bytes);
    for i := 0 to col.Length
      invariant col[..] == bytes
      invariant Filled(transform[..], bytes, i)
      invariant forall c :: 0 <= c < ALPHABET_SIZE ==> next[c] == FirstOf(bytes, c) + |Where(bytes, c, i)|
    {
      var c := col[i];
      SlotInside(bytes, i);
      WhereStep(bytes, i);
      var slot := next[c];
      FillSlot(transform[..], bytes, i);
      next[c] := slot + 1;
      transform[slot] := i;
    }
    TransformIsPermutation(bytes);
    FilledPrefix(transform[..], bytes, ALPHABET_SIZE);
    assert transform[..][..col.Length] == transform[..];
  }

  lemma NoneFound(col: seq<byte>)
    ensures forall c :: Where(col, c, 0) == []
  {
  }

  lemma WhereStep(col: seq<byte>, i: nat)
    requires i < |col|
    ensures forall c :: |Where(col, c, i + 1)| == |Where(col, c, i)| + if col[i] == c then 1 else 0
  {
  }
}
