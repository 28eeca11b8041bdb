/** A file of exactly one chunk whose rotations can be sorted by hand: twice the digits of a full-period
    generator modulo 2^17. */
module PeriodicWord {
  import opened Bytes
  import opened RotationOrder
  import opened BwtTransform
  import opened Bwt

  /** The period: 2^17. */
  const PERIOD: nat := 0x2_0000

  /** Two periods. */
  const SIZE: nat := 0x4_0000

  // ----- the generator has full period ---------------------------------------------------------------------------

  /** The generator without the modulus. */
  function Raw(i: nat): nat
  {
    if i == 0 then 0 else 5 * Raw(i - 1) + 1
  }

  function Pow5(i: nat): (p: nat)
    ensures p % 4 == 1
  {
    if i == 0 then 1 else
      FiveModFour(Pow5(i - 1));
      5 * Pow5(i - 1)
  }

  lemma FiveModFour(p: nat)
    requires p % 4 == 1
    ensures 5 * p % 4 == 1
  {
    var q := p / 4;
    assert 5 * p == 4 * (5 * q + 1) + 1;
  }

  lemma {:induction false} RawAdd(i: nat, m: nat)
    ensures Raw(i + m) == Raw(i) + Pow5(i) * Raw(m)
  {
    if i > 0 {
      RawAdd(i - 1, m);
      FiveTimes(Raw(i - 1), Pow5(i - 1), Raw(m));
    }
  }

  lemma FiveTimes(a: nat, p: nat, r: nat)
    ensures 5 * (a + p * r) + 1 == 5 * a + 1 + (5 * p) * r
  {
  }

  lemma {:induction false} RawParity(m: nat)
    ensures Raw(m) % 2 == m % 2
  {
    if m > 0 { RawParity(m - 1); }
  }

  lemma PowerStep(k: nat)
    ensures Pow2(0) == 1 && Pow2(k + 1) == 2 * Pow2(k) && (k > 0 ==> Pow2(k) == 2 * Pow2(k - 1))
  {
  }

  /** An odd factor does not matter for divisibility by a power of two. */
  lemma {:induction false} OddCancel(k: nat, o: nat, y: nat, q: nat) returns (z: nat)
    requires o % 2 == 1 && o * y == q * Pow2(k)
    ensures y == z * Pow2(k)
    decreases k
  {
    hide Pow2;
    PowerStep(k);
    z := y;
    if k > 0 {
      var p := Pow2(k - 1);
      Regroup(q, p);
      EvenFactor(o, y, q * p);
      var h := y / 2;
      HalfProduct(o, y, h, q * p);
      z := OddCancel(k - 1, o, h, q);
      Regroup(z, p);
    }
  }

  lemma Regroup(q: nat, p: nat)
    ensures q * (2 * p) == 2 * (q * p)
  {
  }

  lemma EvenFactor(o: nat, y: nat, v: nat)
    requires o % 2 == 1 && o * y == 2 * v
    ensures y % 2 == 0
  {
    if y % 2 == 1 {
      var a, b := o / 2, y / 2;
      assert o == 2 * a + 1 && y == 2 * b + 1;
      OddProduct(a, b);
    }
  }

  lemma OddProduct(a: nat, b: nat)
    ensures (2 * a + 1) * (2 * b + 1) == 2 * (2 * (a * b) + a + b) + 1
  {
  }

  lemma HalfProduct(o: nat, y: nat, h: nat, v: nat)
    requires o * y == 2 * v && y == 2 * h
    ensures o * h == v
  {
    assert o * (2 * h) == 2 * (o * h);
  }

  /** The generator comes back to 0 modulo 2^k only after a multiple of 2^k steps. */
  lemma {:induction false} RawZero(k: nat, m: nat, q: nat) returns (z: nat)
    requires Raw(m) == q * Pow2(k)
    ensures m == z * Pow2(k)
    decreases k
  {
    hide Raw, Pow5, Pow2;
    PowerStep(k);
    z := m;
    if k > 0 {
      var p, h := Pow2(k - 1), m / 2;
      Regroup(q, p);
      RawParity(m);
      assert m == h + h;
      RawAdd(h, h);
      var o := (1 + Pow5(h)) / 2;
      Doubling(Raw(h), Pow5(h), o);
      HalfEquals(o * Raw(h), q * p);
      var y := OddCancel(k - 1, o, Raw(h), q);
      z := RawZero(k - 1, h, y);
      Regroup(z, p);
    }
  }

  lemma Doubling(r: nat, p: nat, o: nat)
    requires p % 4 == 1 && o == (1 + p) / 2
    ensures r + p * r == 2 * (o * r) && o % 2 == 1
  {
    assert 1 + p == 2 * o;
    assert r + p * r == (1 + p) * r;
    assert (2 * o) * r == 2 * (o * r);
  }

  lemma HalfEquals(a: nat, b: nat)
    requires 2 * a == 2 * b
    ensures a == b
  {
  }

  /** After 2^k steps the generator is back at 0 modulo 2^k. */
  lemma {:induction false} RawReturns(k: nat) returns (q: nat)
    ensures Raw(Pow2(k)) == q * Pow2(k)
  {
    hide Pow5, Pow2;
    PowerStep(k);
    q := Raw(1);
    if k > 0 {
      var h := Pow2(k - 1);
      q := RawReturns(k - 1);
      RawAdd(h, h);
      var o := (1 + Pow5(h)) / 2;
      Doubling(Raw(h), Pow5(h), o);
      Associate(o, q, h);
      q := o * q;
    }
  }

  lemma Associate(o: nat, q: nat, h: nat)
    ensures 2 * (o * (q * h)) == (o * q) * (2 * h)
  {
  }

  // ----- states and digits ---------------------------------------------------------------------------------------

  /** The state after i steps. */
  function State(i: nat): (r: nat)
    ensures r < PERIOD
  {
    Raw(i) % PERIOD
  }

  function Next(r: nat): (n: nat)
    ensures n < PERIOD
  {
    (5 * r + 1) % PERIOD
  }

  /** The carry of a step: 0 to 4. */
  function Digit(r: nat): (d: byte)
    requires r < PERIOD
    ensures d <= 4
    ensures 5 * r + 1 == d * PERIOD + Next(r)
  {
    (5 * r + 1) / PERIOD
  }

  lemma ModStep(a: nat)
    ensures (5 * a + 1) % PERIOD == Next(a % PERIOD)
  {
    var q := a / PERIOD;
    assert a == q * PERIOD + a % PERIOD;
    AddMultiple(5 * (a % PERIOD) + 1, 5 * q);
  }

  lemma AddMultiple(v: nat, q: nat)
    ensures (v + q * PERIOD) % PERIOD == v % PERIOD
  {
    var d := v / PERIOD;
    assert v + q * PERIOD == (d + q) * PERIOD + v % PERIOD;
    Remainder(d + q, v % PERIOD);
  }

  lemma Remainder(q: nat, r: nat)
    requires r < PERIOD
    ensures (q * PERIOD + r) % PERIOD == r
  {
  }

  lemma StateNext(i: nat)
    ensures State(0) == 0 && State(i + 1) == Next(State(i))
  {
    ModStep(Raw(i));
  }

  lemma PeriodIsPow2()
    ensures Pow2(17) == PERIOD
  {
    assert Pow2(8) == 0x100;
    Pow2Add(8, 8);
    assert Pow2(16) == 0x1_0000;
  }

  lemma StateIs(i: nat)
    ensures State(i) == Raw(i) % PERIOD
  {
  }

  lemma StatePeriod(i: nat)
    ensures State(i + PERIOD) == State(i)
  {
    hide Raw, Pow5, Pow2, State;
    PeriodIsPow2();
    var q := RawReturns(17);
    RawAdd(i, PERIOD);
    MulAssociates(Pow5(i), q, PERIOD);
    AddMultiple(Raw(i), Pow5(i) * q);
    StateIs(i);
    StateIs(i + PERIOD);
  }

  lemma MulAssociates(a: nat, b: nat, c: nat)
    ensures a * (b * c) == (a * b) * c
  {
  }

  /** Within a period no state repeats. */
  lemma StatesDiffer(i: nat, j: nat)
    requires i < j < PERIOD
    ensures State(i) != State(j)
  {
    hide Raw, Pow5, Pow2, State;
    if State(i) == State(j) {
      var m := j - i;
      RawAdd(i, m);
      StateIs(i);
      StateIs(j);
      var q := SameRemainder(Raw(i), Raw(j), Pow5(i) * Raw(m));
      PeriodIsPow2();
      var y := OddCancel(17, Pow5(i), Raw(m), q);
      var z := RawZero(17, m, y);
      SmallMultiple(m, z);
    }
  }

  lemma SameRemainder(a: nat, b: nat, v: nat) returns (q: nat)
    requires a % PERIOD == b % PERIOD && b == a + v
    ensures v == q * PERIOD
  {
    q := b / PERIOD - a / PERIOD;
  }

  lemma SmallMultiple(m: nat, z: nat)
    requires m == z * PERIOD && m < PERIOD
    ensures m == 0
  {
  }

  // ----- every state occurs --------------------------------------------------------------------------------------

  function StatesBelow(n: nat): (s: set<nat>)
    ensures forall r :: r in s ==> r < PERIOD
    ensures forall i: nat :: i < n ==> State(i) in s
    ensures forall r :: r in s ==> exists i: nat :: i < n && State(i) == r
  {
    if n == 0 then {} else StatesBelow(n - 1) + {State(n - 1)}
  }

  lemma {:induction false} StatesCount(n: nat)
    requires n <= PERIOD
    ensures |StatesBelow(n)| == n
  {
    hide State, StatesBelow;
    if n == 0 {
      NoStates();
    } else {
      StatesCount(n - 1);
      NewState(n - 1);
      StatesNext(n);
      OneMoreMember(StatesBelow(n - 1), State(n - 1));
    }
  }

  lemma NoStates()
    ensures StatesBelow(0) == {}
  {
  }

  lemma StatesNext(n: nat)
    requires n > 0
    ensures StatesBelow(n) == StatesBelow(n - 1) + {State(n - 1)}
  {
    hide State;
  }

  lemma OneMoreMember(s: set<nat>, x: nat)
    requires x !in s
    ensures |s + {x}| == |s| + 1
  {
  }

  lemma NewState(n: nat)
    requires n < PERIOD
    ensures State(n) !in StatesBelow(n)
  {
    hide State, StatesBelow;
    forall i: nat | i < n
      ensures State(i) != State(n)
    {
      StatesDiffer(i, n);
    }
  }

  lemma SubsetOfSameSize(a: set<nat>, b: set<nat>)
    requires a <= b && |a| == |b|
    ensures a == b
  {
    assert b == a + (b - a);
    assert |b| == |a| + |b - a|;
  }

  lemma StateOccurs(r: nat)
    requires r < PERIOD
    ensures exists i: nat :: i < PERIOD && State(i) == r
  {
    hide State, StatesBelow, NumbersBelow;
    StatesCount(PERIOD);
    SubsetOfSameSize(StatesBelow(PERIOD), NumbersBelow(PERIOD));
    assert r in StatesBelow(PERIOD);
  }

  /** Where a state occurs. */
  ghost function Where(r: nat): (i: nat)
    requires r < PERIOD
    ensures i < PERIOD && State(i) == r
  {
    StateOccurs(r);
    var i: nat :| i < PERIOD && State(i) == r;
    i
  }

  // ----- the word and its rotations ------------------------------------------------------------------------------

  function Symbol(i: nat): byte { Digit(State(i)) }

  /** The digits of two periods: the file. */
  function Word(): (x: seq<byte>)
    ensures |x| == SIZE && forall i :: 0 <= i < SIZE ==> x[i] == Symbol(i)
  {
    seq(SIZE, i requires 0 <= i < SIZE => Symbol(i))
  }

  /** The n digits from a state on. */
  function Digits(r: nat, n: nat): (s: seq<byte>)
    requires r < PERIOD
    ensures |s| == n
    decreases n
  {
    if n == 0 then [] else [Digit(r)] + Digits(Next(r), n - 1)
  }

  lemma {:induction false} DigitsAt(i: nat, n: nat, k: nat)
    requires k < n
    ensures Digits(State(i), n)[k] == Symbol(i + k)
    decreases n
  {
    hide State, Digit, Next;
    StateNext(i);
    if k > 0 { DigitsAt(i + 1, n - 1, k - 1); }
  }

  lemma SymbolPeriod(i: nat)
    ensures Symbol(i + PERIOD) == Symbol(i) && Symbol(i + SIZE) == Symbol(i)
  {
    hide State, Digit;
    StatePeriod(i);
    StatePeriod(i + PERIOD);
  }

  /** A rotation is the digits from its state on. */
  lemma RotationIsDigits(s: nat)
    requires s < SIZE
    ensures Rotation(Word(), s) == Digits(State(s), SIZE)
  {
    hide Word, Digits, Rotation, State, Symbol;
    forall k | 0 <= k < SIZE
      ensures Rotation(Word(), s)[k] == Digits(State(s), SIZE)[k]
    {
      RotationAt(Word(), s, k);
      DigitsAt(s, SIZE, k);
      if s + k >= SIZE { SymbolPeriod(s + k - SIZE); }
    }
  }

  /** Digits are in the order of the states they start from. */
  lemma {:induction false} DigitsOrdered(a: nat, b: nat, n: nat)
    requires a <= b < PERIOD
    ensures LexLe(Digits(a, n), Digits(b, n))
    decreases n
  {
    hide Digit, Next;
    if n > 0 {
      DigitOrdered(a, b);
      if Digit(a) == Digit(b) { DigitsOrdered(Next(a), Next(b), n - 1); }
      assert Digits(a, n)[1..] == Digits(Next(a), n - 1) && Digits(b, n)[1..] == Digits(Next(b), n - 1);
    }
  }

  lemma DigitOrdered(a: nat, b: nat)
    requires a <= b < PERIOD
    ensures Digit(a) <= Digit(b) && (Digit(a) == Digit(b) ==> Next(a) <= Next(b))
  {
    hide Digit, Next;
    assert 5 * a + 1 == Digit(a) * PERIOD + Next(a);
    assert 5 * b + 1 == Digit(b) * PERIOD + Next(b);
  }

  // ----- the sorted rotations ------------------------------------------------------------------------------------

  /** Both places where state k / 2 occurs, in the order of k. */
  ghost function Start(k: nat): (s: nat)
    requires k < SIZE
    ensures s < SIZE && State(s) == k / 2
  {
    StatePeriod(Where(k / 2));
    Where(k / 2) + if k % 2 == 0 then 0 else PERIOD
  }

  ghost function Starts(): (ss: seq<nat>)
    ensures |ss| == SIZE && forall k :: 0 <= k < SIZE ==> ss[k] == Start(k)
  {
    seq(SIZE, k requires 0 <= k < SIZE => Start(k))
  }

  lemma StartsDiffer(j: nat, k: nat)
    requires j < k < SIZE
    ensures Start(j) != Start(k)
  {
    hide State;
  }

  /** Different numbers below n, n of them: all of them. */
  lemma AllNumbers(s: seq<nat>, n: nat)
    requires |s| == n && (forall i :: 0 <= i < n ==> s[i] < n)
    requires forall i, j :: 0 <= i < j < n ==> s[i] != s[j]
    ensures multiset(s) == multiset(Iota(n))
  {
    SetOfDistinct(s);
    SetOfDistinct(Iota(n));
    SetOfIota(n);
    SubsetOfSameSize(Members(s), NumbersBelow(n));
    forall x: nat
      ensures multiset(s)[x] == multiset(Iota(n))[x]
    {
      assert x in s <==> x in Members(s);
      assert x in Iota(n) <==> x in Members(Iota(n));
    }
  }

  function Members(s: seq<nat>): (m: set<nat>)
    ensures forall x :: x in m <==> x in s
  {
    set x | x in s
  }

  lemma SetOfIota(n: nat)
    ensures Members(Iota(n)) == NumbersBelow(n)
  {
    forall x: nat
      ensures x in Members(Iota(n)) <==> x in NumbersBelow(n)
    {
      if x < n { assert Iota(n)[x] == x; }
    }
  }

  lemma {:induction false} SetOfDistinct(s: seq<nat>)
    requires forall i, j :: 0 <= i < j < |s| ==> s[i] != s[j]
    ensures |Members(s)| == |s|
    ensures forall x: nat :: multiset(s)[x] == if x in s then 1 else 0
  {
    if s == [] {
      assert Members(s) == {};
    } else {
      var front, last := s[..|s| - 1], s[|s| - 1];
      SetOfDistinct(front);
      assert s == front + [last];
      assert last !in front;
      assert Members(s) == Members(front) + {last};
    }
  }

  lemma StartsSorted()
    ensures SortedStarts(Word(), Starts())
  {
    hide Word, Starts, Start, State, Rotation, Digits, LexLe;
    forall i, j | 0 <= i < j < SIZE
      ensures Starts()[i] != Starts()[j]
    {
      StartsDiffer(i, j);
    }
    AllNumbers(Starts(), SIZE);
    forall i, j | 0 <= i < j < SIZE
      ensures LexLe(Rotations(Word(), Starts())[i], Rotations(Word(), Starts())[j])
    {
      RotationIsDigits(Start(i));
      RotationIsDigits(Start(j));
      DigitsOrdered(i / 2, j / 2, SIZE);
    }
  }

  // ----- the last column -----------------------------------------------------------------------------------------

  /** The symbols of the last column: pairs, with period five. */
  function Column(k: nat): (c: byte)
    ensures c <= 4
  {
    (3 + 2 * (k / 2)) % 5
  }

  /** The digit before a state is fixed by the state modulo 5, since 2^17 = 5 * 26214 + 2. */
  lemma DigitBefore(p: nat)
    requires p < PERIOD
    ensures Digit(p) == (3 + 2 * Next(p)) % 5
  {
    hide Digit, Next;
    var d: int, r: int := Digit(p), Next(p);
    assert r + 2 * d == 5 * (p - 26214 * d) + 1;
    ModFive(3 + 2 * r, d, 2 * p - 52429 * d + 1);
  }

  lemma ModFive(v: int, d: int, k: int)
    requires v == d + 5 * k && 0 <= d < 5
    ensures v % 5 == d
  {
  }

  lemma LastSymbol(k: nat)
    requires k < SIZE
    ensures LastByte(Word(), Start(k)) == Column(k)
  {
    hide Word, Digit, State, Next, Start;
    var s := Start(k);
    var p := (s + SIZE - 1) % SIZE;
    if s > 0 {
      assert p == s - 1;
    } else {
      StateAtSize();
      assert p == SIZE - 1;
    }
    StateNext(p);
    assert Next(State(p)) == State(s);
    DigitBefore(State(p));
  }

  lemma StateAtSize()
    ensures State(SIZE) == State(0)
  {
    hide State;
    StatePeriod(0);
    StatePeriod(PERIOD);
  }

  /** Whatever sorted order the encoder ends up with, the last column is the same. */
  lemma ColumnUnique(col: seq<byte>, primary: nat)
    requires IsBwt(Word(), col, primary)
    ensures |col| == SIZE && forall k :: 0 <= k < SIZE ==> col[k] == Column(k)
  {
    hide Word, Rotation, SortedRows, Starts, Start, Column, LastByte;
    var starts :| SortedStarts(Word(), starts) && col == LastColumn(Word(), starts)
                  && primary < |starts| && starts[primary] == 0;
    StartsSorted();
    SortedLength(Word(), starts);
    SortedLength(Word(), Starts());
    RotationsMultiset(Word(), starts, Starts());
    SortedUnique(Rotations(Word(), starts), Rotations(Word(), Starts()), SIZE);
    forall k | 0 <= k < SIZE
      ensures col[k] == Column(k)
    {
      assert Rotations(Word(), starts)[k] == Rotations(Word(), Starts())[k];
      EndOfRotation(Word(), starts[k]);
      EndOfRotation(Word(), Start(k));
      LastSymbol(k);
    }
  }

  lemma EndOfRotation(x: Row, s: nat)
    requires s < |x|
    ensures Rotation(x, s)[|x| - 1] == LastByte(x, s)
  {
    RotationAt(x, s, |x| - 1);
  }
}
