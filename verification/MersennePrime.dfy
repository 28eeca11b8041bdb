/** 2^31 - 1 is prime, so every number it does not divide has an inverse modulo it. Any prime divisor p is
    small enough to be ruled out, because p - 1 must be a multiple of 2, of 31 and of 331. */
module MersennePrime {
  import opened Bytes

  const MERSENNE: nat := 0x7FFF_FFFF

  // ----- divisors ------------------------------------------------------------------------------------------------

  ghost predicate Divides(d: nat, n: nat)
  {
    exists q: nat :: Times(d, q) == n
  }

  function Times(d: nat, q: nat): nat { d * q }

  lemma DividesTimes(d: nat, q: nat)
    ensures Divides(d, d * q)
  {
    assert Times(d, q) == d * q;
  }

  lemma DividesThrough(d: nat, e: nat, n: nat)
    requires Divides(d, e) && Divides(e, n)
    ensures Divides(d, n)
  {
    var q: nat :| Times(d, q) == e;
    var r: nat :| Times(e, r) == n;
    Associate(d, q, r);
    DividesTimes(d, q * r);
  }

  lemma Associate(a: int, b: int, c: int)
    ensures (a * b) * c == a * (b * c)
  {
  }

  lemma DividesSum(d: nat, m: nat, n: nat)
    requires Divides(d, m) && Divides(d, n)
    ensures Divides(d, m + n)
  {
    var q: nat :| Times(d, q) == m;
    var r: nat :| Times(d, r) == n;
    assert Times(d, q + r) == d * q + d * r by { Distribute(q, r, d); }
  }

  lemma DividesRest(d: nat, m: nat, n: nat)
    requires d > 0 && Divides(d, m) && Divides(d, m + n)
    ensures Divides(d, n)
  {
    var q: nat :| Times(d, q) == m;
    var r: nat :| Times(d, r) == m + n;
    if r < q { MulMono(r, q, d); }
    if r >= q {
      Distribute(q, r - q, d);
      DividesTimes(d, r - q);
    } else {
      assert n == 0;
      DividesTimes(d, 0);
    }
  }

  lemma DivisorAtMost(d: nat, n: nat)
    requires Divides(d, n) && n > 0
    ensures 0 < d <= n
  {
    var q: nat :| Times(d, q) == n;
    if q > 0 { MulMono(1, q, d); }
  }

  lemma DividesMod(d: nat, n: nat)
    requires d > 0
    ensures Divides(d, n) <==> n % d == 0
  {
    if Divides(d, n) {
      var q: nat :| Times(d, q) == n;
      MultipleMod(d, q);
    }
    if n % d == 0 {
      assert Times(d, n / d) == n;
    }
  }

  lemma MultipleMod(d: nat, q: nat)
    requires d > 0
    ensures d * q % d == 0
  {
    QuotientUnique(d, q, d * q / d, d * q % d);
  }

  lemma QuotientUnique(d: nat, q: nat, e: nat, r: nat)
    requires d * q == d * e + r && r < d
    ensures r == 0
  {
    if e + 1 <= q { MulMono(e + 1, q, d); }
    if q <= e { MulMono(q, e, d); }
  }

  /** Bezout's identity, by repeated subtraction. */
  lemma Bezout(m: nat, n: nat) returns (g: nat, u: int, v: int)
    requires m > 0 || n > 0
    ensures g > 0 && Divides(g, m) && Divides(g, n) && m * u + n * v == g
    decreases m + n
  {
    if n == 0 {
      g, u, v := m, 1, 0;
      DividesTimes(m, 1);
      DividesTimes(m, 0);
    } else if m == 0 {
      g, u, v := n, 0, 1;
      DividesTimes(n, 1);
      DividesTimes(n, 0);
    } else if m >= n {
      g, u, v := Bezout(m - n, n);
      DividesSum(g, m - n, n);
      Regroup(m, n, u, v);
      v := v - u;
    } else {
      g, u, v := Bezout(m, n - m);
      DividesSum(g, n - m, m);
      Regroup(n, m, v, u);
      u := u - v;
    }
  }

  lemma Regroup(m: int, n: int, u: int, v: int)
    ensures m * u + n * (v - u) == (m - n) * u + n * v
  {
  }

  // ----- primes --------------------------------------------------------------------------------------------------

  ghost predicate Prime(p: nat)
  {
    p > 1 && forall d :: Divides(d, p) ==> d == 1 || d == p
  }

  /** Every number above 1 has a prime divisor. */
  lemma {:induction false} PrimeDivisor(n: nat) returns (p: nat)
    requires n > 1
    ensures Prime(p) && Divides(p, n) && p <= n
  {
    if Prime(n) {
      p := n;
      DividesTimes(n, 1);
    } else {
      var d :| Divides(d, n) && d != 1 && d != n;
      DivisorAtMost(d, n);
      p := PrimeDivisor(d);
      DividesThrough(p, d, n);
    }
  }

  /** A prime that divides a product divides one of its factors. */
  lemma PrimeFactor(p: nat, k: nat, c: nat)
    requires Prime(p) && Divides(p, k * c) && !Divides(p, k)
    ensures Divides(p, c)
  {
    hide Divides;
    var g, u, v := Bezout(k, p);
    assert g == 1;
    CombineTerms(k, p, c, u, v);
    DivideInt(p, k * c, c, u, v);
  }

  lemma CombineTerms(k: int, p: int, c: int, u: int, v: int)
    requires k * u + p * v == 1
    ensures c == (k * c) * u + p * (c * v)
  {
    assert c * (k * u + p * v) == c * (k * u) + c * (p * v);
    assert c * (k * u) == (k * c) * u;
    assert c * (p * v) == p * (c * v);
  }

  lemma DivideInt(p: nat, w: nat, c: nat, u: int, v: int)
    requires p > 0 && Divides(p, w) && c == w * u + p * (c * v)
    ensures Divides(p, c)
  {
    var q: nat :| Times(p, q) == w;
    var e := q * u + c * v;
    assert c == p * e by {
      Associate(p, q, u);
      assert p * (q * u + c * v) == p * (q * u) + p * (c * v);
    }
    if e < 0 { NegativeProduct(p, e); }
    DividesTimes(p, e);
  }

  lemma NegativeProduct(p: nat, e: int)
    requires p > 0 && e < 0
    ensures p * e < 0
  {
  }

  // ----- powers and binomial sums --------------------------------------------------------------------------------

  function Power(b: nat, n: nat): (r: nat)
    ensures b > 0 ==> r > 0
  {
    if n == 0 then 1 else b * Power(b, n - 1)
  }

  lemma {:induction false} PowerAdd(b: nat, m: nat, n: nat)
    ensures Power(b, m + n) == Power(b, m) * Power(b, n)
  {
    if m > 0 {
      PowerAdd(b, m - 1, n);
      Associate(b, Power(b, m - 1), Power(b, n));
    }
  }

  /** Binomial coefficients. */
  function Choose(n: nat, k: nat): nat
  {
    if k == 0 then 1 else if n == 0 then 0 else Choose(n - 1, k - 1) + Choose(n - 1, k)
  }

  lemma {:induction false} ChooseNone(n: nat, k: nat)
    requires k > n
    ensures Choose(n, k) == 0
  {
    if n > 0 {
      ChooseNone(n - 1, k - 1);
      ChooseNone(n - 1, k);
    }
  }

  lemma {:induction false} ChooseAll(n: nat)
    ensures Choose(n, n) == 1
  {
    if n > 0 {
      ChooseAll(n - 1);
      ChooseNone(n - 1, n);
    }
  }

  lemma {:induction false} Absorb(n: nat, k: nat)
    requires n > 0 && k > 0
    ensures k * Choose(n, k) == n * Choose(n - 1, k - 1)
  {
    if n > 1 {
      Absorb(n - 1, k);
      if k > 1 { Absorb(n - 1, k - 1); }
      var a, b := Choose(n - 2, k - 1), if k > 1 then Choose(n - 2, k - 2) else 0;
      AbsorbStep(n, k, Choose(n - 1, k - 1), Choose(n - 1, k), a, b);
    } else if k > 1 {
      ChooseNone(1, k);
      ChooseNone(0, k - 1);
    }
  }

  lemma AbsorbStep(n: int, k: int, c: int, d: int, a: int, b: int)
    requires k * d == (n - 1) * a && (k - 1) * c == (n - 1) * b && (c == a + b || n == 1)
    ensures k * (c + d) == n * c || n == 1
  {
    assert k * (c + d) == k * c + k * d;
    assert k * c == (k - 1) * c + c;
    assert (n - 1) * a + (n - 1) * b == (n - 1) * (a + b);
    assert (n - 1) * c + c == n * c;
  }

  /** The first k terms of the expansion of (x + 1)^n. */
  function Row(x: nat, n: nat, k: nat): nat
  {
    if k == 0 then 0 else Row(x, n, k - 1) + Choose(n, k - 1) * Power(x, k - 1)
  }

  lemma {:induction false} RowStep(x: nat, n: nat, k: nat)
    ensures Row(x, n + 1, k + 1) == Row(x, n, k + 1) + x * Row(x, n, k)
  {
    if k > 0 {
      RowStep(x, n, k - 1);
      RowTerms(x, Choose(n, k - 1), Choose(n, k), Power(x, k - 1), Row(x, n, k - 1));
    }
  }

  lemma RowTerms(x: int, a: int, b: int, p: int, r: int)
    ensures (a + b) * (x * p) == b * (x * p) + x * (a * p)
    ensures x * (r + a * p) == x * r + x * (a * p)
  {
  }

  /** The binomial theorem. */
  lemma {:induction false} RowSum(x: nat, n: nat)
    ensures Row(x, n, n + 1) == Power(x + 1, n)
  {
    hide Row, Power, Choose;
    if n == 0 {
      FirstOfRow(x, 0);
      PowerZero(x + 1);
    } else {
      RowSum(x, n - 1);
      RowStep(x, n - 1, n);
      RowBeyond(x, n - 1);
      PowerNext(x + 1, n - 1);
      OneMore(x, Power(x + 1, n - 1));
    }
  }

  lemma OneMore(x: int, w: int)
    ensures (x + 1) * w == w + x * w
  {
  }

  lemma PowerZero(b: nat)
    ensures Power(b, 0) == 1
  {
  }

  lemma PowerNext(b: nat, n: nat)
    ensures Power(b, n + 1) == b * Power(b, n)
  {
  }

  /** Terms beyond the last are zero. */
  lemma RowBeyond(x: nat, n: nat)
    ensures Row(x, n, n + 2) == Row(x, n, n + 1)
  {
    hide Power, Choose;
    ChooseNone(n, n + 1);
    NoTerm(Choose(n, n + 1), Power(x, n + 1));
    assert Row(x, n, n + 2) == Row(x, n, n + 1) + Choose(n, n + 1) * Power(x, n + 1);
  }

  lemma NoTerm(c: nat, w: nat)
    requires c == 0
    ensures c * w == 0
  {
  }

  lemma FirstOfRow(x: nat, n: nat)
    ensures Row(x, n, 1) == 1
  {
    assert Row(x, n, 0) == 0 && Choose(n, 0) * Power(x, 0) == 1;
  }

  // ----- Fermat's theorem ----------------------------------------------------------------------------------------

  lemma InnerDivides(p: nat, k: nat)
    requires Prime(p) && 0 < k < p
    ensures Divides(p, Choose(p, k))
  {
    hide Divides, Choose;
    Absorb(p, k);
    DividesTimes(p, Choose(p - 1, k - 1));
    if Divides(p, k) { DivisorAtMost(p, k); }
    PrimeFactor(p, k, Choose(p, k));
  }

  lemma DividesProduct(p: nat, a: nat, c: nat)
    requires Divides(p, a)
    ensures Divides(p, a * c)
  {
    DividesTimes(a, c);
    DividesThrough(p, a, a * c);
  }

  lemma {:induction false} RowDivides(x: nat, p: nat, k: nat) returns (s: nat)
    requires Prime(p) && 1 <= k <= p
    ensures Row(x, p, k) == 1 + s && Divides(p, s)
  {
    hide Divides, Choose;
    if k == 1 {
      FirstOfRow(x, p);
      s := 0;
      DividesTimes(p, 0);
    } else {
      var c, w := Choose(p, k - 1), Power(x, k - 1);
      s := RowDivides(x, p, k - 1);
      InnerDivides(p, k - 1);
      DividesProduct(p, c, w);
      DividesSum(p, s, c * w);
      s := s + c * w;
    }
  }

  /** For a prime p, x^p is x more than a multiple of p. */
  lemma {:induction false} Fermat(p: nat, x: nat) returns (s: nat)
    requires Prime(p)
    ensures Power(x, p) == x + s && Divides(p, s)
  {
    hide Divides, Choose, Prime, Power, Row;
    PrimeAboveOne(p);
    if x == 0 {
      s := 0;
      PowerOfZero(p);
      DividesTimes(p, 0);
    } else {
      s := Fermat(p, x - 1);
      var t := RowDivides(x - 1, p, p);
      RowSum(x - 1, p);
      LastOfRow(x - 1, p);
      DividesSum(p, s, t);
      s := s + t;
    }
  }

  lemma PowerOfZero(n: nat)
    requires n > 0
    ensures Power(0, n) == 0
  {
  }

  lemma LastOfRow(x: nat, n: nat)
    ensures Row(x, n, n + 1) == Row(x, n, n) + Power(x, n)
  {
    ChooseAll(n);
  }

  lemma PrimeAboveOne(p: nat)
    requires Prime(p)
    ensures p > 1
  {
  }

  // ----- powers that leave 1 -------------------------------------------------------------------------------------

  /** b^n leaves r when divided by m, or r and a multiple of m. */
  ghost predicate Leaves(m: nat, b: nat, n: nat, r: nat)
  {
    Power(b, n) >= r && Divides(m, Power(b, n) - r)
  }

  /** If x is r more than a multiple of m, and y is t more, then x * y is r * t more. */
  lemma LeavesProduct(m: nat, x: nat, y: nat, r: nat, t: nat)
    requires x >= r && y >= t && Divides(m, x - r) && Divides(m, y - t)
    ensures x * y >= r * t && Divides(m, x * y - r * t)
  {
    hide Divides;
    var d, e := x - r, y - t;
    DividesProduct(m, d, y);
    DividesProduct(m, e, r);
    DividesSum(m, d * y, e * r);
    assert x * y - r * t == d * y + e * r by { Expand(d, r, e, t); }
  }

  lemma Expand(d: int, r: int, e: int, t: int)
    ensures (d + r) * (e + t) - r * t == d * (e + t) + e * r
  {
  }

  lemma LeavesSum(m: nat, b: nat, i: nat, j: nat, r: nat, t: nat)
    requires Leaves(m, b, i, r) && Leaves(m, b, j, t)
    ensures Leaves(m, b, i + j, r * t)
  {
    hide Divides, Power;
    PowerAdd(b, i, j);
    LeavesProduct(m, Power(b, i), Power(b, j), r, t);
  }

  /** Subtracting q times m. */
  lemma Reduce(m: nat, b: nat, n: nat, r: nat, q: nat)
    requires Leaves(m, b, n, r + m * q)
    ensures Leaves(m, b, n, r)
  {
    hide Divides, Power;
    DividesTimes(m, q);
    DividesSum(m, Power(b, n) - (r + m * q), m * q);
  }

  lemma LeavesSelf(m: nat, b: nat)
    ensures Leaves(m, b, 1, b) && Leaves(m, b, 0, 1)
  {
    DividesTimes(m, 0);
    assert Power(b, 0) == 1 && Power(b, 1) == b;
  }

  lemma {:induction false} OneMultiple(m: nat, b: nat, n: nat, k: nat)
    requires Leaves(m, b, n, 1)
    ensures Leaves(m, b, n * k, 1)
  {
    hide Leaves;
    if k == 0 {
      LeavesSelf(m, b);
    } else {
      OneMultiple(m, b, n, k - 1);
      LeavesSum(m, b, n * (k - 1), n, 1, 1);
      assert n * (k - 1) + n == n * k;
    }
  }

  lemma LeavesThrough(p: nat, m: nat, b: nat, n: nat)
    requires Leaves(m, b, n, 1) && Divides(p, m)
    ensures Leaves(p, b, n, 1)
  {
    DividesThrough(p, m, Power(b, n) - 1);
  }

  /** When b^m and b^n both leave 1, and multiples of m and n are one apart, b leaves 1. */
  lemma OneApart(p: nat, b: nat, m: nat, n: nat, u: nat, v: nat)
    requires b > 0 && Leaves(p, b, m, 1) && Leaves(p, b, n, 1) && m * u == n * v + 1
    ensures Divides(p, b - 1)
  {
    hide Divides, Power;
    OneMultiple(p, b, m, u);
    OneMultiple(p, b, n, v);
    var w := Power(b, n * v);
    PowerNext(b, n * v);
    DividesProduct(p, w - 1, b);
    MulMono(1, w, b);
    assert b * w - 1 == (w - 1) * b + (b - 1);
    DividesRestOf(p, (w - 1) * b, b - 1);
  }

  lemma DividesRestOf(p: nat, m: nat, n: nat)
    requires Divides(p, m) && Divides(p, m + n)
    ensures Divides(p, n)
  {
    if p == 0 {
      DividesTimes(0, 0);
    } else {
      DividesRest(p, m, n);
    }
  }

  /** Fermat's theorem with a factor of b cancelled. */
  lemma FermatOne(p: nat, b: nat)
    requires Prime(p) && b > 0 && !Divides(p, b)
    ensures Leaves(p, b, p - 1, 1)
  {
    hide Divides, Power, Prime;
    PrimeAboveOne(p);
    var s := Fermat(p, b);
    PowerNext(b, p - 1);
    var w := Power(b, p - 1);
    assert b * w == b * (w - 1) + b;
    PrimeFactor(p, b, w - 1);
  }

  /** When b^q leaves 1 modulo a prime p but b does not, for a prime q, then q divides p - 1. */
  lemma OrderDivides(p: nat, b: nat, q: nat)
    requires Prime(p) && Prime(q) && b > 0 && Leaves(p, b, q, 1) && !Divides(p, b - 1)
    ensures Divides(q, p - 1)
  {
    hide Divides, Power, Prime;
    PrimeAboveOne(p);
    PrimeAboveOne(q);
    if Divides(p, b) {
      PowerNext(b, q - 1);
      DividesProduct(p, b, Power(b, q - 1));
      DividesRest(p, Power(b, q) - 1, 1);
      DivisorAtMost(p, 1);
    }
    FermatOne(p, b);
    if !Divides(q, p - 1) {
      var u, v := Inverse(p - 1, q);
      OneApart(p, b, p - 1, q, u, v);
    }
  }

  /** Modulo a prime, every number it does not divide has an inverse. */
  lemma Inverse(m: nat, q: nat) returns (u: nat, v: nat)
    requires Prime(q) && !Divides(q, m)
    ensures m * u == q * v + 1
  {
    hide Divides;
    var g, s, t := Bezout(m, q);
    assert g == 1;
    if m == 0 { DividesTimes(q, 0); }
    u, v := Positive(m, q, s, t);
  }

  lemma Positive(m: nat, n: nat, s: int, t: int) returns (u: nat, v: nat)
    requires n > 0 && m > 0 && m * s + n * t == 1
    ensures m * u == n * v + 1
  {
    var k: nat := (if s < 0 then -s else s) + (if t < 0 then -t else t);
    MulMono(1, n, k);
    MulMono(1, m, k);
    assert m * (s + n * k) == m * s + m * (n * k);
    assert n * (m * k - t) == n * (m * k) - n * t;
    assert m * (n * k) == n * (m * k);
    u, v := s + n * k, m * k - t;
  }

  // ----- 2^31 - 1 is prime ---------------------------------------------------------------------------------------

  /** A number whose powers with exponent 331 leave 1. */
  const ROOT331: nat := 1090433

  lemma Square(b: nat, n: nat, r: nat, next: nat, q: nat)
    requires Leaves(MERSENNE, b, n, r) && r * r == next + MERSENNE * q
    ensures Leaves(MERSENNE, b, 2 * n, next)
  {
    hide Leaves;
    LeavesSum(MERSENNE, b, n, n, r, r);
    Reduce(MERSENNE, b, 2 * n, next, q);
  }

  lemma Times1(b: nat, n: nat, r: nat, next: nat, q: nat)
    requires Leaves(MERSENNE, b, n, r) && r * b == next + MERSENNE * q
    ensures Leaves(MERSENNE, b, n + 1, next)
  {
    hide Leaves;
    LeavesSelf(MERSENNE, b);
    LeavesSum(MERSENNE, b, n, 1, r, b);
    Reduce(MERSENNE, b, n + 1, next, q);
  }

  lemma Root2()
    ensures Leaves(MERSENNE, 2, 31, 1)
  {
    hide Leaves;
    LeavesSelf(MERSENNE, 2);
    Square(2, 1, 2, 4, 0);
    Times1(2, 2, 4, 8, 0);
    Square(2, 3, 8, 64, 0);
    Times1(2, 6, 64, 128, 0);
    Square(2, 7, 128, 16384, 0);
    Times1(2, 14, 16384, 32768, 0);
    Square(2, 15, 32768, 0x4000_0000, 0);
    Times1(2, 30, 0x4000_0000, 1, 1);
  }

  lemma Root331()
    ensures Leaves(MERSENNE, ROOT331, 331, 1)
  {
    hide Leaves;
    LeavesSelf(MERSENNE, ROOT331);
    Square(ROOT331, 1, 1090433, 1485670698, 553);
    Square(ROOT331, 2, 1485670698, 2131047422, 1027815706);
    Times1(ROOT331, 4, 2131047422, 296382437, 1082087);
    Square(ROOT331, 5, 296382437, 964463491, 40904874);
    Square(ROOT331, 10, 964463491, 1656810104, 433153391);
    Square(ROOT331, 20, 1656810104, 921707017, 1278249417);
    Times1(ROOT331, 40, 921707017, 893650362, 468017);
    Square(ROOT331, 41, 893650362, 622543880, 371882212);
    Square(ROOT331, 82, 622543880, 1183189347, 180472099);
    Times1(ROOT331, 164, 1183189347, 2008936121, 600790);
    Square(ROOT331, 165, 2008936121, 1238025062, 1879327157);
    Times1(ROOT331, 330, 1238025062, 1, 628635);
  }

  /** Numbers below 400 without divisors below 20 are prime. */
  lemma SmallPrime(q: nat)
    requires 1 < q < 400 && forall d :: 2 <= d < 20 ==> q % d != 0
    ensures Prime(q)
  {
    forall d | Divides(d, q)
      ensures d == 1 || d == q
    {
      var e: nat :| Times(d, e) == q;
      MultipleMod(d, e);
      Factors(d, e, q);
    }
  }

  lemma Factors(d: nat, e: nat, q: nat)
    requires d * e == q && 1 < q < 400 && forall d :: 2 <= d < 20 ==> q % d != 0
    ensures d == 1 || d == q
  {
    if d >= 20 && e >= 20 { MulMono(20, d, e); }
    if 2 <= d < 20 { MultipleMod(d, e); }
    if 2 <= e < 20 { MultipleMod(e, d); }
  }

  lemma Prime31()
    ensures Prime(31)
  {
    hide Prime;
    SmallPrime(31);
  }

  lemma Prime331()
    ensures Prime(331)
  {
    hide Prime;
    SmallPrime(331);
  }

  /** Coprime to 2^31 - 1, as an inverse shows. */
  lemma NoDivisor(p: nat, w: nat, u: nat, v: nat)
    requires p > 1 && Divides(p, MERSENNE) && w * u == MERSENNE * v + 1
    ensures !Divides(p, w)
  {
    hide Divides;
    if Divides(p, w) {
      DividesProduct(p, w, u);
      DividesProduct(p, MERSENNE, v);
      DividesRest(p, MERSENNE * v, 1);
      DivisorAtMost(p, 1);
    }
  }

  /** One more than a multiple of 2, 31 and 331. */
  ghost predicate Shape(p: nat)
  {
    p > 0 && Divides(2, p - 1) && Divides(31, p - 1) && Divides(331, p - 1)
  }

  lemma PrimeDivisorShape(p: nat)
    requires Prime(p) && Divides(p, MERSENNE)
    ensures Shape(p)
  {
    hide Divides, Prime, Leaves;
    PrimeAboveOne(p);
    NoDivisor(p, 1, 1, 0);
    NoDivisor(p, ROOT331 - 1, 1286122590, 653057);
    Root2();
    Root331();
    LeavesThrough(p, MERSENNE, 2, 31);
    LeavesThrough(p, MERSENNE, ROOT331, 331);
    Prime31();
    Prime331();
    OrderDivides(p, 2, 31);
    OrderDivides(p, ROOT331, 331);
    OddDivisor(p);
    DividesMod(2, p - 1);
  }

  lemma OddDivisor(p: nat)
    requires Divides(p, MERSENNE)
    ensures p % 2 == 1
  {
    hide Divides;
    if p % 2 == 0 {
      DividesMod(2, p);
      DividesThrough(2, p, MERSENNE);
      DividesMod(2, MERSENNE);
    }
  }

  /** So it lies above the square root. */
  lemma PrimeDivisorLarge(p: nat)
    requires Prime(p) && Divides(p, MERSENNE)
    ensures p >= 46341
  {
    hide Divides, Prime, Shape;
    PrimeDivisorShape(p);
    PrimeAboveOne(p);
    if p < 46341 {
      ShapedNumbers(p);
      NotTheseTwo();
    }
  }

  lemma CommonMultiples(h: int, j: int, k: int, t: int)
    requires 0 < 2 * h == 31 * j == 331 * k < 46340 && t == 3 * j - 32 * k
    ensures 2 * h == 20522 || 2 * h == 41044
  {
    assert k == 31 * t && 1 <= t <= 4;
  }

  lemma ShapedNumbers(p: nat)
    requires Shape(p) && 1 < p < 46341
    ensures p == 20523 || p == 41045
  {
    hide Shape;
    var h, j, k := Quotients(p);
    CommonMultiples(h, j, k, 3 * j - 32 * k);
  }

  lemma Quotients(p: nat) returns (h: nat, j: nat, k: nat)
    requires Shape(p)
    ensures p - 1 == 2 * h == 31 * j == 331 * k
  {
    h :| Times(2, h) == p - 1;
    j :| Times(31, j) == p - 1;
    k :| Times(331, k) == p - 1;
  }

  lemma NotTheseTwo()
    ensures !Divides(20523, MERSENNE) && !Divides(41045, MERSENNE)
  {
    hide Divides;
    DividesMod(20523, MERSENNE);
    DividesMod(41045, MERSENNE);
  }

  lemma MersenneIsPrime()
    ensures Prime(MERSENNE)
  {
    hide Prime;
    var p := PrimeDivisor(MERSENNE);
    PrimeDivisorLarge(p);
    var q: nat :| Times(p, q) == MERSENNE;
    if q > 1 {
      var r := PrimeDivisor(q);
      assert Divides(q, MERSENNE) by { assert Times(q, p) == MERSENNE; }
      DividesThrough(r, q, MERSENNE);
      PrimeDivisorLarge(r);
      MulMono(46341, q, p);
    }
    assert q != 0;
  }

  /** Every number that 2^31 - 1 does not divide has an inverse modulo it. */
  lemma Invertible(m: nat) returns (u: nat, v: nat)
    requires m % MERSENNE != 0
    ensures m * u == MERSENNE * v + 1
  {
    hide Divides, Prime;
    MersenneIsPrime();
    DividesMod(MERSENNE, m);
    u, v := Inverse(m, MERSENNE);
  }
}
