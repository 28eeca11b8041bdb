/** Which codes a table of lengths gets: from the all-zero code on, each symbol in order of length and then of value
    gets the next one. */
module CanonicalOrder {
  import opened Bytes
  import opened BitStrings
  import opened HuffmanLengths
  import opened CanonicalCodes

  /** Lengths for which no code wraps or collides. */
  predicate Coded(lengths: seq<byte>, m: nat)
  {
    m <= 32 && LengthsAtMost(lengths, m) && TableKraft(lengths, m) <= Pow2(m)
  }

  /** Both symbols have codes, and i has the shorter one or, of the same length, is the smaller symbol. */
  predicate Before(lengths: seq<byte>, i: nat, j: nat)
  {
    && i < |lengths| && j < |lengths| && lengths[i] > 0 && lengths[j] > 0
    && (lengths[i] < lengths[j] || (lengths[i] == lengths[j] && i < j))
  }

  /** The first bit in which they differ is zero in a and one in b. */
  predicate Precedes(a: seq<bool>, b: seq<bool>)
  {
    exists k :: 0 <= k < |a| && k < |b| && a[..k] == b[..k] && !a[k] && b[k]
  }

  // ----- bit strings and their values ----------------------------------------------------------------------------

  lemma {:induction false} SmallerPrecedes(a: seq<bool>, b: seq<bool>)
    requires |a| == |b| && BitsValue(a) < BitsValue(b)
    ensures Precedes(a, b)
    decreases |a|
  {
    var n := |a| - 1;
    if BitsValue(a[..n]) < BitsValue(b[..n]) {
      SmallerPrecedes(a[..n], b[..n]);
      Longer(a[..n], b[..n], a, b);
    } else {
      SameValue(a[..n], b[..n]);
      assert a[..n] == b[..n] && !a[n] && b[n];
    }
  }

  lemma SameValue(a: seq<bool>, b: seq<bool>)
    requires |a| == |b| && BitsValue(a) == BitsValue(b)
    ensures a == b
  {
    ValueBitString(a);
    ValueBitString(b);
  }

  lemma Longer(a: seq<bool>, b: seq<bool>, c: seq<bool>, d: seq<bool>)
    requires Precedes(a, b) && a <= c && b <= d
    ensures Precedes(c, d)
  {
    var k :| 0 <= k < |a| && k < |b| && a[..k] == b[..k] && !a[k] && b[k];
    assert c[..k] == a[..k] && d[..k] == b[..k];
  }

  lemma {:induction false} ZeroString(n: nat)
    ensures forall k :: 0 <= k < n ==> !BitString(0, n)[k]
  {
    if n > 0 { ZeroString(n - 1); }
  }

  // ----- the order of the codes ----------------------------------------------------------------------------------

  /** The code of a symbol is as long as the table says, and its value is the one assigned. */
  lemma CodeHasValue(lengths: seq<byte>, i: nat, m: nat)
    requires Coded(lengths, m) && i < |lengths| && lengths[i] > 0
    ensures |Code(lengths, i)| == lengths[i] && BitsValue(Code(lengths, i)) == CodeValue(lengths, i)
    ensures First(lengths, lengths[i]) <= CodeValue(lengths, i) < After(lengths, lengths[i]) <= Pow2(lengths[i])
  {
    hide First, After, BitString, BitsValue, Pow2, TableKraft, CodeValue, Code;
    CodeInBlock(lengths, i, m);
    BitStringValue(CodeValue(lengths, i), lengths[i]);
  }

  /** Of two symbols with codes of one length the smaller symbol has the smaller code. */
  lemma SameLengthOrder(lengths: seq<byte>, i: nat, j: nat, m: nat)
    requires Coded(lengths, m) && i < j < |lengths| && lengths[i] == lengths[j] > 0
    ensures BitsValue(Code(lengths, i)) < BitsValue(Code(lengths, j))
  {
    hide First, CountTo, BitsValue, Code, Pow2, Coded;
    CodeHasValue(lengths, i, m);
    CodeHasValue(lengths, j, m);
    CountToStrict(lengths, lengths[i], i, j);
  }

  /** In order of length, then of symbol, codes increase lexicographically. */
  lemma CodesIncrease(lengths: seq<byte>, i: nat, j: nat, m: nat)
    requires Coded(lengths, m) && Before(lengths, i, j)
    ensures Precedes(Code(lengths, i), Code(lengths, j))
  {
    hide First, After, CountTo, BitsValue, Code, Pow2, Coded, Precedes;
    if lengths[i] == lengths[j] {
      SameLengthOrder(lengths, i, j, m);
      SmallerPrecedes(Code(lengths, i), Code(lengths, j));
    } else {
      FrontIsLarger(lengths, i, j, m);
      var a, b := Code(lengths, i), Code(lengths, j);
      SmallerPrecedes(a, b[..|a|]);
      Longer(a, b[..|a|], a, b);
    }
  }

  lemma FrontIsLarger(lengths: seq<byte>, i: nat, j: nat, m: nat)
    requires Coded(lengths, m) && i < |lengths| && j < |lengths| && 0 < lengths[i] < lengths[j]
    ensures |Code(lengths, i)| == lengths[i] && |Code(lengths, j)| == lengths[j]
    ensures BitsValue(Code(lengths, i)) < BitsValue(Code(lengths, j)[..lengths[i]])
  {
    hide First, After, CountTo, BitsValue, Code, Pow2, CodeValue, TableKraft, BitString;
    var li, lj := lengths[i], lengths[j];
    CodeHasValue(lengths, i, m);
    CodeHasValue(lengths, j, m);
    CodeInBlock(lengths, j, m);
    var p, q := Pow2(lj - li), CodeValue(lengths, j) / Pow2(lj - li);
    FirstBeyond(lengths, li, lj - li);
    QuotientAtLeast(CodeValue(lengths, j), After(lengths, li), p);
    PrefixValue(CodeValue(lengths, j), lj, li, p, q);
    BitStringValue(q, li);
  }

  // ----- each code is the next one -------------------------------------------------------------------------------

  lemma {:induction false} CountGap(lengths: seq<byte>, l: nat, i: nat, k: nat)
    requires i < k <= |lengths| && lengths[i] == l > 0 && forall h :: i < h < k ==> lengths[h] != l
    ensures CountTo(lengths, l, k) == CountTo(lengths, l, i) + 1
    decreases k
  {
    if i < k - 1 { CountGap(lengths, l, i, k - 1); }
  }

  lemma {:induction false} CountNone(lengths: seq<byte>, l: nat, k: nat)
    requires k <= |lengths| && forall h :: 0 <= h < k ==> lengths[h] != l
    ensures CountTo(lengths, l, k) == 0
  {
    if k > 0 { CountNone(lengths, l, k - 1); }
  }

  /** Over lengths that no code has the first code only doubles. */
  lemma {:induction false} UnusedLengths(lengths: seq<byte>, l: nat, d: nat)
    requires d > 0 && forall h :: 0 <= h < |lengths| ==> !(l < lengths[h] < l + d)
    ensures First(lengths, l + d) == Pow2(d) * After(lengths, l)
    decreases d
  {
    if d > 1 {
      UnusedLengths(lengths, l, d - 1);
      CountNone(lengths, l + (d - 1), |lengths|);
      DoublePow(d, After(lengths, l));
    }
  }

  lemma {:induction false} NothingShorter(lengths: seq<byte>, l: nat)
    requires forall h :: 0 <= h < |lengths| ==> lengths[h] == 0 || lengths[h] >= l
    ensures First(lengths, l) == 0
  {
    if l > 0 {
      NothingShorter(lengths, l - 1);
      if l == 1 {
        NoZeroLengths(lengths, |lengths|);
      } else {
        CountNone(lengths, l - 1, |lengths|);
      }
    }
  }

  /** The first symbol in order has the code of all zeros. */
  lemma FirstIsZero(lengths: seq<byte>, i: nat, m: nat)
    requires Coded(lengths, m) && i < |lengths| && lengths[i] > 0
    requires forall h :: 0 <= h < |lengths| ==> !Before(lengths, h, i)
    ensures forall k :: 0 <= k < |Code(lengths, i)| ==> !Code(lengths, i)[k]
  {
    hide First, CountTo, Pow2, TableKraft, Before, BitString;
    forall h | 0 <= h < |lengths|
      ensures lengths[h] == 0 || lengths[h] >= lengths[i]
      ensures h < i ==> lengths[h] != lengths[i]
    {
      NotBefore(lengths, h, i);
    }
    NothingShorter(lengths, lengths[i]);
    CountNone(lengths, lengths[i], i);
    CodeInBlock(lengths, i, m);
    ZeroString(lengths[i]);
  }

  lemma NotBefore(lengths: seq<byte>, h: nat, i: nat)
    requires h < |lengths| && i < |lengths| && lengths[i] > 0 && !Before(lengths, h, i)
    ensures lengths[h] == 0 || lengths[h] >= lengths[i]
    ensures h < i ==> lengths[h] != lengths[i]
  {
  }

  /** No symbol stands between i and j. */
  predicate Next(lengths: seq<byte>, i: nat, j: nat)
  {
    Before(lengths, i, j) && forall h :: 0 <= h < |lengths| ==> !(Before(lengths, i, h) && Before(lengths, h, j))
  }

  /** The next symbol's code is one more, with zeros appended when it is longer. */
  lemma NextCode(lengths: seq<byte>, i: nat, j: nat, m: nat)
    requires Coded(lengths, m) && Next(lengths, i, j)
    ensures BitsValue(Code(lengths, j)) == (BitsValue(Code(lengths, i)) + 1) * Pow2(lengths[j] - lengths[i])
  {
    hide Coded, First, After, CountTo, BitsValue, Code, Pow2, Before;
    assert Before(lengths, i, j);
    BeforeFacts(lengths, i, j);
    CodeHasValue(lengths, i, m);
    CodeHasValue(lengths, j, m);
    if lengths[i] == lengths[j] {
      NextSameLength(lengths, i, j);
    } else {
      NextLonger(lengths, i, j);
    }
  }

  lemma BeforeFacts(lengths: seq<byte>, i: nat, j: nat)
    requires Before(lengths, i, j)
    ensures i < |lengths| && j < |lengths| && 0 < lengths[i] <= lengths[j] && (lengths[i] == lengths[j] ==> i < j)
  {
  }

  lemma NextSameLength(lengths: seq<byte>, i: nat, j: nat)
    requires Next(lengths, i, j) && lengths[i] == lengths[j]
    ensures CodeValue(lengths, j) == (CodeValue(lengths, i) + 1) * Pow2(0)
  {
    hide First, CountTo;
    forall h | i < h < j
      ensures lengths[h] != lengths[i]
    {
      assert !(Before(lengths, i, h) && Before(lengths, h, j));
    }
    CountGap(lengths, lengths[i], i, j);
  }

  lemma NextLonger(lengths: seq<byte>, i: nat, j: nat)
    requires Next(lengths, i, j) && lengths[i] < lengths[j]
    ensures CodeValue(lengths, j) == (CodeValue(lengths, i) + 1) * Pow2(lengths[j] - lengths[i])
  {
    hide First, CountTo, Pow2;
    var li: nat, lj: nat := lengths[i], lengths[j];
    forall h | 0 <= h < |lengths|
      ensures !(li < lengths[h] < lj) && (i < h ==> lengths[h] != li) && (h < j ==> lengths[h] != lj)
    {
      assert !(Before(lengths, i, h) && Before(lengths, h, j));
    }
    UnusedLengths(lengths, li, lj - li);
    CountGap(lengths, li, i, |lengths|);
    CountNone(lengths, lj, j);
    assert After(lengths, li) == CodeValue(lengths, i) + 1;
  }
}
