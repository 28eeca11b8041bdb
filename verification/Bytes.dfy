/** Machine-level basics shared by every stage: bytes, words, powers of two and sums. */
module Bytes {
  type byte = x: int | 0 <= x < 256

  type u32 = x: int | 0 <= x < 0x1_0000_0000

  type u64 = x: int | 0 <= x < 0x1_0000_0000_0000_0000

  /** Number of different byte values: the alphabet of every encoder. */
  const ALPHABET_SIZE: nat := 256

  datatype Option<+T> = None | Some(value: T)

  function Pow2(n: nat): (r: nat)
    ensures 1 <= r
  {
    if n == 0 then 1 else 2 * Pow2(n - 1)
  }

  lemma {:induction false} Pow2Add(a: nat, b: nat)
    ensures Pow2(a + b) == Pow2(a) * Pow2(b)
  {
    if a != 0 {
      Pow2Add(a - 1, b);
      var x, y := Pow2(a - 1), Pow2(b);
      assert 2 * x * y == 2 * (x * y);
    }
  }

  lemma {:induction false} Pow2Monotone(a: nat, b: nat)
    requires a <= b
    ensures Pow2(a) <= Pow2(b)
  {
    if a < b { Pow2Monotone(a, b - 1); }
  }

  lemma MulMono(a: int, b: int, c: nat)
    requires a <= b
    ensures a * c <= b * c
  {
    assert b * c - a * c == (b - a) * c;
  }

  lemma Distribute(a: nat, b: nat, c: nat)
    ensures (a + b) * c == a * c + b * c
  {
  }

  lemma CancelFactor(a: nat, b: nat, c: nat)
    requires c > 0
    ensures a * c <= b * c <==> a <= b
  {
    if a > b {
      MulMono(b + 1, a, c);
      assert (b + 1) * c == b * c + c;
    } else {
      MulMono(a, b, c);
    }
  }

  function Min(a: int, b: int): int { if a < b then a else b }

  function Max(a: int, b: int): int { if a < b then b else a }

  function Sum(xs: seq<int>): int
  {
    if xs == [] then 0 else xs[0] + Sum(xs[1..])
  }

  lemma {:induction false} SumAppend(xs: seq<int>, ys: seq<int>)
    ensures Sum(xs + ys) == Sum(xs) + Sum(ys)
  {
    if xs == [] {
      assert xs + ys == ys;
    } else {
      assert (xs + ys)[1..] == xs[1..] + ys;
      SumAppend(xs[1..], ys);
    }
  }

  lemma SumOne(x: int)
    ensures Sum([x]) == x
  {
  }

  lemma SumUpdate(xs: seq<int>, i: nat, v: int)
    requires i < |xs|
    ensures Sum(xs[i := v]) == Sum(xs) - xs[i] + v
  {
    hide Sum;
    assert xs == xs[..i] + ([xs[i]] + xs[i + 1..]);
    assert xs[i := v] == xs[..i] + ([v] + xs[i + 1..]);
    SumAppend(xs[..i], [xs[i]] + xs[i + 1..]);
    SumAppend(xs[..i], [v] + xs[i + 1..]);
    SumAppend([xs[i]], xs[i + 1..]);
    SumAppend([v], xs[i + 1..]);
    SumOne(xs[i]);
    SumOne(v);
  }

  function NumbersBelow(n: nat): (s: set<nat>)
    ensures |s| == n && forall r: nat :: r in s <==> r < n
  {
    if n == 0 then {} else NumbersBelow(n - 1) + {n - 1 as nat}
  }
}
