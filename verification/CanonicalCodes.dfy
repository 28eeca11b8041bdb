/** Canonical codes from code lengths: the assignment of section 3.2.2 of RFC 1951, computed in
    32-bit words, and why it is prefix-free. */
module CanonicalCodes {
  import opened Bytes
  import opened BitStrings
  import opened HuffmanOptimality
  import opened HuffmanLengths

  const WORD: nat := 0x1_0000_0000

  // ----- the assignment ------------------------------------------------------------------------------------------

  /** How many of the first k symbols have codes of length l. */
  function CountTo(lengths: seq<byte>, l: nat, k: nat): (c: nat)
    requires k <= |lengths|
    ensures c <= k
  {
    if k == 0 then 0
    else CountTo(lengths, l, k - 1) + if lengths[k - 1] == l && l > 0 then 1 else 0
  }

  /** The first code of length l; one past the last code of length l. */
  function First(lengths: seq<byte>, l: nat): nat
    decreases l, 0
  {
    if l == 0 then 0 else 2 * After(lengths, l - 1)
  }

  function After(lengths: seq<byte>, l: nat): nat
    decreases l, 1
  {
    First(lengths, l) + CountTo(lengths, l, |lengths|)
  }

  function CodeValue(lengths: seq<byte>, i: nat): nat
    requires i < |lengths|
  {
    First(lengths, lengths[i]) + CountTo(lengths, lengths[i], i)
  }

  /** The code of symbol i as the coder stores it: computed modulo 2^32. */
  function Code(lengths: seq<byte>, i: nat): (s: seq<bool>)
    requires i < |lengths|
    ensures |s| == lengths[i]
  {
    BitString(CodeValue(lengths, i) % WORD, lengths[i])
  }

  predicate CodesMatch(codes: array2<bool>, lengths: seq<byte>, k: nat)
    requires codes.Length0 == codes.Length1 == |lengths| == ALPHABET_SIZE && k <= ALPHABET_SIZE
    reads codes
  {
    forall i, j :: 0 <= i < k && 0 <= j < lengths[i] ==> codes[i, j] == Code(lengths, i)[j]
  }

  method CountLengths(lengths: array<byte>) returns (count: array<u32>)
    requires lengths.Length == ALPHABET_SIZE
    ensures fresh(count) && count.Length == ALPHABET_SIZE + 1
    ensures forall l :: 0 <= l <= ALPHABET_SIZE ==> count[l] == CountTo(lengths[..], l, ALPHABET_SIZE)
  {
    count := new u32[ALPHABET_SIZE + 1](_ => 0);
    for i := 0 to ALPHABET_SIZE
      invariant forall l :: 0 <= l <= ALPHABET_SIZE ==> count[l] == CountTo(lengths[..], l, i)
    {
      if lengths[i] > 0 {
        count[lengths[i]] := count[lengths[i]] + 1;
      }
    }
  }

  /** Turns the counts into starting codes, one length after the other. */
  method StartingCodes(count: array<u32>, ghost lengths: seq<byte>)
    requires |lengths| == ALPHABET_SIZE && count.Length == ALPHABET_SIZE + 1
    requires forall l :: 0 <= l <= ALPHABET_SIZE ==> count[l] == CountTo(lengths, l, ALPHABET_SIZE)
    modifies count
    ensures forall l :: 1 <= l <= ALPHABET_SIZE ==> count[l] == First(lengths, l) % WORD
  {
    hide First, After, CountTo;
    var code: u32 := 0;
    count[0] := 0;
    NoZeroLengths(lengths, ALPHABET_SIZE);
    NextLength(lengths, 0);
    for len := 1 to ALPHABET_SIZE + 1
      invariant code == After(lengths, len - 1) % WORD
      invariant forall l :: 1 <= l < len ==> count[l] == First(lengths, l) % WORD
      invariant forall l :: len <= l <= ALPHABET_SIZE ==> count[l] == CountTo(lengths, l, ALPHABET_SIZE)
    {
      WrapDouble(After(lengths, len - 1));
      NextLength(lengths, len);
      code := (code * 2) % WORD;
      var temp := count[len];
      count[len] := code;
      WrapAdd(First(lengths, len), temp);
      code := (code + temp) % WORD;
    }
  }

  lemma NextLength(lengths: seq<byte>, l: nat)
    requires |lengths| == ALPHABET_SIZE
    ensures l > 0 ==> First(lengths, l) == 2 * After(lengths, l - 1)
    ensures l == 0 ==> After(lengths, l) == CountTo(lengths, 0, ALPHABET_SIZE)
    ensures After(lengths, l) == First(lengths, l) + CountTo(lengths, l, ALPHABET_SIZE)
  {
  }

  lemma WrapDouble(a: nat)
    ensures (a % WORD * 2) % WORD == (2 * a) % WORD
  {
  }

  lemma WrapAdd(a: nat, b: nat)
    ensures (a % WORD + b) % WORD == (a + b) % WORD
  {
  }

  lemma {:induction false} NoZeroLengths(lengths: seq<byte>, k: nat)
    requires k <= |lengths|
    ensures CountTo(lengths, 0, k) == 0
  {
    if k > 0 { NoZeroLengths(lengths, k - 1); }
  }

  /** Writes the len low bits of c into row i, last bit first. */
  method WriteRow(codes: array2<bool>, i: nat, len: nat, c: u32)
    requires i < codes.Length0 && len <= codes.Length1
    modifies codes
    ensures forall j :: 0 <= j < len ==> codes[i, j] == BitString(c, len)[j]
    ensures forall h, j :: 0 <= h < codes.Length0 && 0 <= j < codes.Length1 && h != i ==> codes[h, j] == old(codes[h, j])
  {
    var rest := c;
    var j := len;
    while j > 0
      invariant 0 <= j <= len
      invariant BitString(c, len)[..j] == BitString(rest, j)
      invariant forall k :: j <= k < len ==> codes[i, k] == BitString(c, len)[k]
      invariant forall h, k :: 0 <= h < codes.Length0 && 0 <= k < codes.Length1 && h != i ==> codes[h, k] == old(codes[h, k])
    {
      j := j - 1;
      codes[i, j] := rest % 2 == 1;
      assert BitString(c, len)[j] == BitString(c, len)[..j + 1][j];
      assert BitString(c, len)[..j] == BitString(c, len)[..j + 1][..j];
      rest := rest / 2;
    }
  }

  predicate NextCodes(count: array<u32>, lengths: seq<byte>, k: nat)
    requires |lengths| == ALPHABET_SIZE && count.Length == ALPHABET_SIZE + 1 && k <= ALPHABET_SIZE
    reads count
  {
    forall l :: 1 <= l <= ALPHABET_SIZE ==> count[l] == (First(lengths, l) + CountTo(lengths, l, k)) % WORD
  }

  lemma NextCodesStep(count: array<u32>, was: seq<u32>, lengths: seq<byte>, i: nat)
    requires |lengths| == ALPHABET_SIZE && count.Length == |was| == ALPHABET_SIZE + 1 && i < ALPHABET_SIZE
    requires forall l :: 1 <= l <= ALPHABET_SIZE ==> was[l] == (First(lengths, l) + CountTo(lengths, l, i)) % WORD
    requires lengths[i] == 0 ==> count[..] == was
    requires lengths[i] > 0 ==> count[..] == was[lengths[i] := (was[lengths[i]] + 1) % WORD]
    ensures NextCodes(count, lengths, i + 1)
  {
    hide First;
    forall l | 1 <= l <= ALPHABET_SIZE
      ensures count[l] == (First(lengths, l) + CountTo(lengths, l, i + 1)) % WORD
    {
      assert count[l] == count[..][l];
      WrapAdd(First(lengths, l) + CountTo(lengths, l, i), 1);
    }
  }

  method ComputeCanonicalCodes(lengths: array<byte>, codes: array2<bool>)
    requires lengths.Length == codes.Length0 == codes.Length1 == ALPHABET_SIZE
    modifies codes
    ensures CodesMatch(codes, lengths[..], ALPHABET_SIZE)
  {
    hide First, CountTo, BitString;
    ghost var ls := lengths[..];
    var count := CountLengths(lengths);
    StartingCodes(count, ls);
    NoneYet(ls);
    for i := 0 to ALPHABET_SIZE
      invariant CodesMatch(codes, ls, i) && NextCodes(count, ls, i)
    {
      ghost var was := count[..];
      var len := lengths[i];
      if len != 0 {
        var c := count[len];
        count[len] := (c + 1) % WORD;
        WriteRow(codes, i, len, c);
      }
      NextCodesStep(count, was, ls, i);
    }
  }

  lemma NoneYet(lengths: seq<byte>)
    ensures forall l :: CountTo(lengths, l, 0) == 0
  {
  }

  // ----- the codes fill the code space from the left -------------------------------------------------------------

  /** Kraft sum of the first k symbols with codes of at most l bits, scaled by 2^l. */
  function Filled(lengths: seq<byte>, l: nat, k: nat): nat
    requires k <= |lengths|
  {
    if k == 0 then 0
    else Filled(lengths, l, k - 1) + if 0 < lengths[k - 1] <= l then Pow2(l - lengths[k - 1]) else 0
  }

  lemma {:induction false} FilledStep(lengths: seq<byte>, l: nat, k: nat)
    requires k <= |lengths| && l > 0
    ensures Filled(lengths, l, k) == 2 * Filled(lengths, l - 1, k) + CountTo(lengths, l, k)
  {
    if k > 0 { FilledStep(lengths, l, k - 1); }
  }

  /** One past the last code of length l is the part of the code space used so far. */
  lemma {:induction false} AfterIsFilled(lengths: seq<byte>, l: nat)
    ensures After(lengths, l) == Filled(lengths, l, |lengths|)
  {
    if l == 0 {
      NoZeroLengths(lengths, |lengths|);
      FilledNone(lengths, |lengths|);
    } else {
      AfterIsFilled(lengths, l - 1);
      FilledStep(lengths, l, |lengths|);
    }
  }

  lemma {:induction false} FilledNone(lengths: seq<byte>, k: nat)
    requires k <= |lengths|
    ensures Filled(lengths, 0, k) == 0
  {
    if k > 0 { FilledNone(lengths, k - 1); }
  }

  lemma {:induction false} TableKraftAppend(xs: seq<byte>, x: byte, m: nat)
    requires LengthsAtMost(xs, m) && x <= m
    ensures TableKraft(xs + [x], m) == TableKraft(xs, m) + if x > 0 then Pow2(m - x) else 0
  {
    if xs == [] {
      assert xs + [x] == [x] && [x][1..] == [];
    } else {
      assert (xs + [x])[1..] == xs[1..] + [x];
      TableKraftAppend(xs[1..], x, m);
    }
  }

  lemma {:induction false} FilledScaled(lengths: seq<byte>, l: nat, m: nat, k: nat)
    requires k <= |lengths| && l <= m && LengthsAtMost(lengths, m)
    ensures Filled(lengths, l, k) * Pow2(m - l) <= TableKraft(lengths[..k], m)
    ensures l == m ==> Filled(lengths, l, k) == TableKraft(lengths[..k], m)
  {
    if k > 0 {
      FilledScaled(lengths, l, m, k - 1);
      var x := lengths[k - 1];
      assert lengths[..k] == lengths[..k - 1] + [x];
      TableKraftAppend(lengths[..k - 1], x, m);
      if 0 < x <= l {
        Pow2Add(l - x, m - l);
        Distribute(Filled(lengths, l, k - 1), Pow2(l - x), Pow2(m - l));
      }
    }
  }

  /** Kraft's inequality leaves room for all codes of every length. */
  lemma AfterFits(lengths: seq<byte>, l: nat, m: nat)
    requires l <= m && LengthsAtMost(lengths, m) && TableKraft(lengths, m) <= Pow2(m)
    ensures After(lengths, l) <= Pow2(l)
  {
    hide After, Filled, Pow2, TableKraft;
    AfterIsFilled(lengths, l);
    FilledScaled(lengths, l, m, |lengths|);
    assert lengths[..|lengths|] == lengths;
    Pow2Add(l, m - l);
    CancelFactor(Filled(lengths, l, |lengths|), Pow2(l), Pow2(m - l));
  }

  lemma {:induction false} CountToStrict(lengths: seq<byte>, l: nat, i: nat, k: nat)
    requires i < k <= |lengths| && lengths[i] == l > 0
    ensures CountTo(lengths, l, i) < CountTo(lengths, l, k)
    decreases k
  {
    if i < k - 1 { CountToStrict(lengths, l, i, k - 1); }
  }

  /** A code lies in the block of its length, and the word never wraps. */
  lemma CodeInBlock(lengths: seq<byte>, i: nat, m: nat)
    requires i < |lengths| && lengths[i] > 0
    requires m <= 32 && LengthsAtMost(lengths, m) && TableKraft(lengths, m) <= Pow2(m)
    ensures First(lengths, lengths[i]) <= CodeValue(lengths, i) < After(lengths, lengths[i]) <= Pow2(lengths[i])
    ensures CodeValue(lengths, i) < WORD
    ensures Code(lengths, i) == BitString(CodeValue(lengths, i), lengths[i])
  {
    hide First, BitString, CountTo, Pow2;
    CountToStrict(lengths, lengths[i], i, |lengths|);
    AfterFits(lengths, lengths[i], m);
    Pow2Monotone(lengths[i], 32);
    WordIsPow2();
  }

  lemma WordIsPow2()
    ensures Pow2(32) == WORD
  {
    assert Pow2(8) == 0x100;
    Pow2Add(8, 8);
    Pow2Add(16, 16);
  }

  /** Longer codes start after everything the shorter ones cover. */
  lemma {:induction false} FirstBeyond(lengths: seq<byte>, l: nat, d: nat)
    requires d > 0
    ensures Pow2(d) * After(lengths, l) <= First(lengths, l + d)
    decreases d
  {
    if d > 1 {
      FirstBeyond(lengths, l, d - 1);
      DoublePow(d, After(lengths, l));
    }
  }

  lemma DoublePow(d: nat, a: nat)
    requires d > 0
    ensures Pow2(d) * a == 2 * (Pow2(d - 1) * a)
  {
    var p := Pow2(d - 1);
    assert (2 * p) * a == 2 * (p * a);
  }

  // ----- prefix-freeness -----------------------------------------------------------------------------------------

  lemma BlocksApart(lengths: seq<byte>, i: nat, j: nat, m: nat)
    requires i < |lengths| && j < |lengths| && i != j && 0 < lengths[i] <= lengths[j]
    requires m <= 32 && LengthsAtMost(lengths, m) && TableKraft(lengths, m) <= Pow2(m)
    ensures CodeValue(lengths, j) / Pow2(lengths[j] - lengths[i]) != CodeValue(lengths, i)
  {
    hide First, CountTo, After, BitString, Pow2;
    var li, lj := lengths[i], lengths[j];
    CodeInBlock(lengths, i, m);
    CodeInBlock(lengths, j, m);
    if li < lj {
      FirstBeyond(lengths, li, lj - li);
      QuotientAtLeast(CodeValue(lengths, j), After(lengths, li), Pow2(lj - li));
    } else {
      CountToStrict(lengths, li, if i < j then i else j, if i < j then j else i);
      DivideByOne(CodeValue(lengths, j));
    }
  }

  lemma ShorterNoPrefix(lengths: seq<byte>, i: nat, j: nat, m: nat)
    requires i < |lengths| && j < |lengths| && i != j && 0 < lengths[i] <= lengths[j]
    requires m <= 32 && LengthsAtMost(lengths, m) && TableKraft(lengths, m) <= Pow2(m)
    ensures !IsPrefix(Code(lengths, i), Code(lengths, j))
  {
    hide Code, CodeValue, First, CountTo, After, BitString, Pow2, TableKraft;
    CodeInBlock(lengths, i, m);
    CodeInBlock(lengths, j, m);
    BlocksApart(lengths, i, j, m);
    DifferentPrefix(CodeValue(lengths, i), CodeValue(lengths, j), lengths[i], lengths[j], Pow2(lengths[j] - lengths[i]));
  }

  lemma PrefixValue(v: nat, n: nat, k: nat, p: nat, q: nat)
    requires k <= n && v < Pow2(n) && p == Pow2(n - k) && q == v / p
    ensures q < Pow2(k) && BitString(v, n)[..k] == BitString(q, k)
  {
    hide BitString, Pow2;
    BitStringPrefix(v, n, k);
    Pow2Add(k, n - k);
    QuotientBelow(v, Pow2(k), p);
  }

  lemma DifferentPrefix(vi: nat, vj: nat, li: nat, lj: nat, p: nat)
    requires li <= lj && vi < Pow2(li) && vj < Pow2(lj) && p == Pow2(lj - li) && vj / p != vi
    ensures BitString(vj, lj)[..li] != BitString(vi, li)
  {
    hide BitString, Pow2;
    var q := vj / p;
    PrefixValue(vj, lj, li, p, q);
    DifferentStrings(vi, q, li);
  }

  lemma DifferentStrings(v: nat, w: nat, n: nat)
    requires v < Pow2(n) && w < Pow2(n) && v != w
    ensures BitString(v, n) != BitString(w, n)
  {
    hide BitString, Pow2, BitsValue;
    BitStringValue(v, n);
    BitStringValue(w, n);
  }

  /** For every table of lengths up to 32 that satisfies Kraft's inequality, no code is a prefix
      of another. */
  lemma CodesPrefixFree(lengths: seq<byte>, i: nat, j: nat, m: nat)
    requires i < |lengths| && j < |lengths| && i != j && lengths[i] > 0 && lengths[j] > 0
    requires m <= 32 && LengthsAtMost(lengths, m) && TableKraft(lengths, m) <= Pow2(m)
    ensures !Comparable(Code(lengths, i), Code(lengths, j))
  {
    hide Code;
    if lengths[i] <= lengths[j] { ShorterNoPrefix(lengths, i, j, m); }
    if lengths[j] <= lengths[i] { ShorterNoPrefix(lengths, j, i, m); }
  }
}
