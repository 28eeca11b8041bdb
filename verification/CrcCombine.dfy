/** Combining two checksums without the data: zero bytes as matrices over GF(2), squared. */
module CrcCombine {
  import opened Bytes
  import opened Words
  import opened CrcTable
  import opened Crc32c

  const GF2_DIM: nat := 32

  // ----- words as vectors ----------------------------------------------------------------------------------------

  /** The word with only bit k set. */
  function Unit(k: nat): bv32
  {
    if k == 0 then 1 else Shl1(Unit(k - 1))
  }

  function Shl1(x: bv32): bv32 { x << 1 }

  /** v moved up by k bits. */
  function Up(v: bv32, k: nat): bv32
  {
    if k == 0 then v else Shl1(Up(v, k - 1))
  }

  /** Product of columns k to 31 of the matrix with v, whose bit 0 belongs to column k. */
  function Times(mat: seq<bv32>, k: nat, v: bv32): bv32
    requires |mat| == GF2_DIM && k <= GF2_DIM
    decreases GF2_DIM - k
  {
    if k == GF2_DIM then 0
    else Xor(if Odd(v) then mat[k] else 0, Times(mat, k + 1, Shr1(v)))
  }

  /** mat stands for running n zero bits through the division. */
  predicate IsOperator(mat: seq<bv32>, n: nat)
  {
    |mat| == GF2_DIM && forall k :: 0 <= k < GF2_DIM ==> mat[k] == ZeroBits(Unit(k), n)
  }

  lemma Shl1Bits(a: bv32, b: bv32)
    ensures (a ^ b) << 1 == (a << 1) ^ (b << 1)
  {
  }

  lemma Shl1Xor(a: bv32, b: bv32)
    ensures Shl1(Xor(a, b)) == Xor(Shl1(a), Shl1(b))
  {
    Shl1Bits(a, b);
  }

  lemma {:induction false} UpXor(a: bv32, b: bv32, k: nat)
    ensures Up(Xor(a, b), k) == Xor(Up(a, k), Up(b, k))
  {
    hide Xor, Shl1;
    if k > 0 {
      UpXor(a, b, k - 1);
      Shl1Xor(Up(a, k - 1), Up(b, k - 1));
    }
  }

  lemma LowBitSplit(v: bv32)
    ensures v == (v & 1) ^ ((v >> 1) << 1)
  {
  }

  lemma LowBit(v: bv32)
    ensures v & 1 == if Odd(v) then 1 else 0
  {
  }

  lemma SplitBit(v: bv32)
    ensures v == Xor(if Odd(v) then 1 else 0, Shl1(Shr1(v)))
  {
    LowBitSplit(v);
    LowBit(v);
  }

  lemma {:induction false} UpUnit(k: nat)
    ensures Up(1, k) == Unit(k) && Up(0, k) == 0
  {
    if k > 0 { UpUnit(k - 1); }
  }

  lemma {:induction false} UpShl(v: bv32, k: nat)
    ensures Up(Shl1(v), k) == Up(v, k + 1)
  {
    hide Shl1;
    if k > 0 { UpShl(v, k - 1); }
  }

  lemma ZeroStays(n: nat)
    ensures ZeroBits(0, n) == 0
  {
    hide Xor, ZeroBits;
    ZeroBitsLinear(0, 0, n);
    XorSelf(0);
    XorSelf(ZeroBits(0, n));
  }

  lemma {:induction false} UpAdd(v: bv32, j: nat, k: nat)
    ensures Up(Up(v, j), k) == Up(v, j + k)
  {
    hide Shl1;
    if k > 0 { UpAdd(v, j, k - 1); }
  }

  lemma EightUpBits(v: bv32)
    ensures (((((((v << 1) << 1) << 1) << 1) << 1) << 1) << 1) << 1 == v << 8
  {
  }

  lemma EightUp(v: bv32)
    ensures Shl1(Shl1(Shl1(Shl1(Shl1(Shl1(Shl1(Shl1(v)))))))) == Shl8(v)
  {
    EightUpBits(v);
  }

  lemma UpByEight(v: bv32)
    ensures Up(v, 8) == Shl8(v)
  {
    hide Shl1, Shl8;
    EightUp(v);
    assert Up(v, 1) == Shl1(v) && Up(v, 2) == Shl1(Up(v, 1)) && Up(v, 3) == Shl1(Up(v, 2));
    assert Up(v, 4) == Shl1(Up(v, 3)) && Up(v, 5) == Shl1(Up(v, 4)) && Up(v, 6) == Shl1(Up(v, 5));
    assert Up(v, 7) == Shl1(Up(v, 6)) && Up(v, 8) == Shl1(Up(v, 7));
  }

  lemma AllOut(v: bv32)
    ensures Shl8(Shl8(Shl8(Shl8(v)))) == 0 && Shr8(Shr8(Shr8(Shr8(v)))) == 0
  {
  }

  lemma UpAll(v: bv32)
    ensures Up(v, GF2_DIM) == 0
  {
    hide Up, Shl8;
    UpByEight(v);
    UpAdd(v, 8, 8);
    UpByEight(Up(v, 8));
    UpAdd(v, 16, 8);
    UpByEight(Up(v, 16));
    UpAdd(v, 24, 8);
    UpByEight(Up(v, 24));
    AllOut(v);
  }

  // ----- operators -----------------------------------------------------------------------------------------------

  /** Multiplying by the matrix of n zero bits runs n zero bits. */
  lemma {:induction false} OperatorTimes(mat: seq<bv32>, n: nat, k: nat, v: bv32)
    requires IsOperator(mat, n) && k <= GF2_DIM
    ensures Times(mat, k, v) == ZeroBits(Up(v, k), n)
    decreases GF2_DIM - k
  {
    hide Xor, Odd, Shr1, Shl1, Up, Unit, ZeroBits;
    ZeroStays(n);
    if k == GF2_DIM {
      UpAll(v);
    } else {
      OperatorTimes(mat, n, k + 1, Shr1(v));
      SplitBit(v);
      UpXor(if Odd(v) then 1 else 0, Shl1(Shr1(v)), k);
      UpUnit(k);
      UpShl(Shr1(v), k);
      ZeroBitsLinear(Up(if Odd(v) then 1 else 0, k), Up(Shr1(v), k + 1), n);
    }
  }

  lemma OperatorApplies(mat: seq<bv32>, n: nat, v: bv32)
    requires IsOperator(mat, n)
    ensures Times(mat, 0, v) == ZeroBits(v, n)
  {
    hide Times, ZeroBits, Unit;
    OperatorTimes(mat, n, 0, v);
    assert Up(v, 0) == v;
  }

  lemma {:induction false} TimesZero(mat: seq<bv32>, k: nat)
    requires |mat| == GF2_DIM && k <= GF2_DIM
    ensures Times(mat, k, 0) == 0
    decreases GF2_DIM - k
  {
    if k < GF2_DIM {
      TimesZero(mat, k + 1);
      XorZero(0);
      NothingLeft();
    }
  }

  lemma NothingLeft()
    ensures !Odd(0) && Shr1(0) == 0
  {
  }

  // ----- multiplication and squaring -----------------------------------------------------------------------------

  /** v moved down by k bits. */
  function Down(v: bv32, k: nat): bv32
  {
    if k == 0 then v else Shr1(Down(v, k - 1))
  }

  lemma {:induction false} DownAdd(v: bv32, j: nat, k: nat)
    ensures Down(Down(v, j), k) == Down(v, j + k)
  {
    hide Shr1;
    if k > 0 { DownAdd(v, j, k - 1); }
  }

  lemma DownByEight(v: bv32)
    ensures Down(v, 8) == Shr8(v)
  {
    hide Shr1, Shr8;
    EightShifts(v);
    assert Down(v, 1) == Shr1(v) && Down(v, 2) == Shr1(Down(v, 1)) && Down(v, 3) == Shr1(Down(v, 2));
    assert Down(v, 4) == Shr1(Down(v, 3)) && Down(v, 5) == Shr1(Down(v, 4)) && Down(v, 6) == Shr1(Down(v, 5));
    assert Down(v, 7) == Shr1(Down(v, 6)) && Down(v, 8) == Shr1(Down(v, 7));
  }

  lemma DownAll(v: bv32)
    ensures Down(v, GF2_DIM) == 0
  {
    hide Down, Shr8;
    DownByEight(v);
    DownAdd(v, 8, 8);
    DownByEight(Down(v, 8));
    DownAdd(v, 16, 8);
    DownByEight(Down(v, 16));
    DownAdd(v, 24, 8);
    DownByEight(Down(v, 24));
    AllOut(v);
  }

  method MatrixTimes(mat: array<bv32>, vec: bv32) returns (sum: bv32)
    requires mat.Length == GF2_DIM
    ensures sum == Times(mat[..], 0, vec)
  {
    hide Xor, Odd, Shr1, Times, Down;
    sum := 0;
    var rest, k := vec, 0;
    DownUnfold(vec, 0);
    XorZero(Times(mat[..], 0, vec));
    while rest != 0
      invariant 0 <= k <= GF2_DIM && rest == Down(vec, k)
      invariant Xor(sum, Times(mat[..], k, rest)) == Times(mat[..], 0, vec)
      decreases GF2_DIM - k
    {
      DownAll(vec);
      DownUnfold(vec, k);
      TimesUnfold(mat[..], k, rest);
      XorAssociates(sum, mat[k], Times(mat[..], k + 1, Shr1(rest)));
      XorZero(Times(mat[..], k + 1, Shr1(rest)));
      if Odd(rest) {
        sum := Xor(sum, mat[k]);
      }
      rest := Shr1(rest);
      k := k + 1;
    }
    TimesZero(mat[..], k);
    XorZero(sum);
  }

  lemma DownUnfold(v: bv32, k: nat)
    ensures Down(v, 0) == v && Down(v, k + 1) == Shr1(Down(v, k))
  {
  }

  lemma TimesUnfold(mat: seq<bv32>, k: nat, v: bv32)
    requires |mat| == GF2_DIM && k < GF2_DIM
    ensures Times(mat, k, v) == Xor(if Odd(v) then mat[k] else 0, Times(mat, k + 1, Shr1(v)))
  {
  }

  /** Squaring an operator doubles its number of zero bits. */
  method MatrixSquare(square: array<bv32>, mat: array<bv32>, ghost n: nat)
    requires square.Length == mat.Length == GF2_DIM && square != mat
    requires IsOperator(mat[..], n)
    modifies square
    ensures IsOperator(square[..], 2 * n)
  {
    hide Times, ZeroBits, Unit;
    ghost var m := mat[..];
    for k := 0 to GF2_DIM
      invariant mat[..] == m
      invariant forall j :: 0 <= j < k ==> square[j] == ZeroBits(Unit(j), 2 * n)
    {
      square[k] := MatrixTimes(mat, mat[k]);
      OperatorApplies(m, n, m[k]);
      ZeroBitsAdd(Unit(k), n, n);
    }
  }

  // ----- combining -----------------------------------------------------------------------------------------------

  lemma UnitUnfold(k: nat)
    ensures Unit(0) == 1 && Unit(k + 1) == Shl1(Unit(k))
  {
  }

  lemma ShiftedBit(k: nat, v: bv32)
    requires Unit(k) == v
    ensures Unit(k + 1) == v << 1
  {
    UnitUnfold(k);
  }

  lemma LowUnits()
    ensures forall k :: 0 <= k <= 16 ==> Unit(k) < 0x2_0000
    ensures Unit(16) == 0x1_0000
  {
    hide Unit, Shl1;
    UnitUnfold(0);
    ShiftedBit(0, 0x1);
    ShiftedBit(1, 0x2);
    ShiftedBit(2, 0x4);
    ShiftedBit(3, 0x8);
    ShiftedBit(4, 0x10);
    ShiftedBit(5, 0x20);
    ShiftedBit(6, 0x40);
    ShiftedBit(7, 0x80);
    ShiftedBit(8, 0x100);
    ShiftedBit(9, 0x200);
    ShiftedBit(10, 0x400);
    ShiftedBit(11, 0x800);
    ShiftedBit(12, 0x1000);
    ShiftedBit(13, 0x2000);
    ShiftedBit(14, 0x4000);
    ShiftedBit(15, 0x8000);
  }

  lemma HighUnits()
    ensures forall k :: 16 <= k < 31 ==> Unit(k) < 0x8000_0000
  {
    hide Unit, Shl1;
    LowUnits();
    ShiftedBit(16, 0x1_0000);
    ShiftedBit(17, 0x2_0000);
    ShiftedBit(18, 0x4_0000);
    ShiftedBit(19, 0x8_0000);
    ShiftedBit(20, 0x10_0000);
    ShiftedBit(21, 0x20_0000);
    ShiftedBit(22, 0x40_0000);
    ShiftedBit(23, 0x80_0000);
    ShiftedBit(24, 0x100_0000);
    ShiftedBit(25, 0x200_0000);
    ShiftedBit(26, 0x400_0000);
    ShiftedBit(27, 0x800_0000);
    ShiftedBit(28, 0x1000_0000);
    ShiftedBit(29, 0x2000_0000);
  }

  lemma ShiftBack(x: bv32)
    requires x < 0x8000_0000
    ensures !Odd(Shl1(x)) && Shr1(Shl1(x)) == x
  {
  }

  /** Bits 1 to 31 only move down one place; bit 0 leaves the polynomial. */
  lemma OneZeroBit(k: nat)
    requires k < GF2_DIM
    ensures Step(Unit(k)) == if k == 0 then POLY else Unit(k - 1)
  {
    hide Unit, Shl1, Shr1, Odd, Xor;
    if k == 0 {
      UnitUnfold(0);
      OneStep();
    } else {
      var v := Unit(k - 1);
      LowUnits();
      HighUnits();
      ShiftBack(v);
      UnitUnfold(k - 1);
    }
  }

  lemma OneStep()
    ensures Step(1) == POLY
  {
  }

  lemma OneBitOperator(mat: seq<bv32>)
    requires |mat| == GF2_DIM && mat[0] == POLY
    requires forall k :: 1 <= k < GF2_DIM ==> mat[k] == Unit(k - 1)
    ensures IsOperator(mat, 1)
  {
    hide Step, Unit;
    forall k | 0 <= k < GF2_DIM ensures mat[k] == ZeroBits(Unit(k), 1) {
      OneZeroBit(k);
      assert ZeroBits(Unit(k), 0) == Unit(k);
    }
  }

  /** The checksum of a followed by b, from theirs alone and the number of bytes of b. */
  function Combined(a: bv32, b: bv32, lenB: nat): bv32
  {
    if lenB == 0 then a else Xor(ZeroBits(a, 8 * lenB), b)
  }

  /** The checksum once len groups of p zero bits have been run. */
  function Remaining(crc: bv32, p: nat, len: nat): bv32
  {
    ZeroBits(crc, p * len)
  }

  /** Halving the length and doubling the operator leave the zero bits still to run. */
  lemma Halve(len: nat, p: nat, crc: bv32)
    ensures Remaining(crc, p, len) == Remaining(if len % 2 == 1 then ZeroBits(crc, p) else crc, 2 * p, len / 2)
  {
    hide ZeroBits, Remaining;
    var h: nat := len / 2;
    assert len == 2 * h + len % 2;
    HalveEven(h, p, crc);
    HalveOdd(h, p, crc);
  }

  lemma HalveEven(h: nat, p: nat, crc: bv32)
    ensures Remaining(crc, p, 2 * h) == Remaining(crc, 2 * p, h)
  {
    hide ZeroBits;
    HalfProduct(h, p);
  }

  lemma HalveOdd(h: nat, p: nat, crc: bv32)
    ensures Remaining(crc, p, 2 * h + 1) == Remaining(ZeroBits(crc, p), 2 * p, h)
  {
    hide ZeroBits;
    HalfProduct(h, p);
    ZeroBitsAdd(crc, p, 2 * p * h);
  }

  lemma HalfProduct(h: nat, p: nat)
    ensures p * (2 * h) == 2 * p * h && p * (2 * h + 1) == p + 2 * p * h
  {
  }

  /** One turn of the loop: square the operator, use it if the length is odd, halve the length. */
  method CombineBit(next: array<bv32>, last: array<bv32>, crc: bv32, len: u32, ghost p: nat) returns (r: bv32, half: u32)
    requires next.Length == last.Length == GF2_DIM && next != last
    requires IsOperator(last[..], p)
    modifies next
    ensures IsOperator(next[..], 2 * p) && half == len / 2
    ensures Remaining(r, 4 * p, half) == Remaining(crc, 2 * p, len)
  {
    hide Times, ZeroBits, Unit, Remaining;
    MatrixSquare(next, last, p);
    r := crc;
    if len % 2 == 1 {
      r := MatrixTimes(next, crc);
    }
    half := len / 2;
    OperatorApplies(next[..], 2 * p, crc);
    Halve(len, 2 * p, crc);
  }

  method FillOneBit(odd: array<bv32>)
    requires odd.Length == GF2_DIM
    modifies odd
    ensures IsOperator(odd[..], 1)
  {
    hide Unit, Shl1, ZeroBits;
    odd[0] := POLY;
    var row: bv32 := 1;
    UnitUnfold(0);
    for n := 1 to GF2_DIM
      invariant odd[0] == POLY && row == Unit(n - 1)
      invariant forall k :: 1 <= k < n ==> odd[k] == Unit(k - 1)
    {
      odd[n] := row;
      row := Shl1(row);
      UnitUnfold(n - 1);
    }
    OneBitOperator(odd[..]);
  }

  lemma NothingRemains(crc: bv32, p: nat)
    ensures Remaining(crc, p, 0) == crc
  {
  }

  lemma CombinedUnfold(a: bv32, b: bv32, lenB: nat)
    ensures lenB == 0 ==> Combined(a, b, lenB) == a
    ensures lenB > 0 ==> Combined(a, b, lenB) == Xor(Remaining(a, 8, lenB), b)
  {
  }

  method Combine(crcA: bv32, crcB: bv32, lenB: u32) returns (r: bv32)
    ensures r == Combined(crcA, crcB, lenB)
  {
    hide *;
    CombinedUnfold(crcA, crcB, lenB);
    if lenB == 0 { return crcA; }
    var even, odd := new bv32[GF2_DIM], new bv32[GF2_DIM];
    FillOneBit(odd);
    MatrixSquare(even, odd, 1);
    MatrixSquare(odd, even, 2);
    r := crcA;
    var len := lenB;
    ghost var p: nat := 4;
    while true
      invariant IsOperator(odd[..], p)
      invariant Remaining(r, 2 * p, len) == Remaining(crcA, 8, lenB)
      invariant len > 0
      decreases len
    {
      r, len := CombineBit(even, odd, r, len, p);
      p := 2 * p;
      if len == 0 { break; }
      r, len := CombineBit(odd, even, r, len, p);
      p := 2 * p;
      if len == 0 { break; }
    }
    NothingRemains(r, 2 * p);
    r := Xor(r, crcB);
  }

  /** Combining the checksums of two byte strings gives the checksum of the two joined, whatever the start. */
  lemma CombineAppends(a: seq<byte>, b: seq<byte>, previous: bv32)
    ensures Combined(Crc(a, previous), Crc(b, 0), |b|) == Crc(a + b, previous)
  {
    hide Raw, ZeroBits, Xor, Not;
    if b == [] {
      assert a + b == a;
    } else {
      var r := Raw(Not(previous), a);
      RawAppend(Not(previous), a, b);
      SplitStart(r);
      RawLinear(Not(0), Not(r), b);
      var x, z := Raw(Not(0), b), ZeroBits(Not(r), 8 * |b|);
      NotXor(x, z);
      XorCommutes(z, Not(x));
    }
  }

  lemma SplitStart(r: bv32)
    ensures r == Xor(Not(0), Not(r))
  {
  }

  lemma NotXor(x: bv32, z: bv32)
    ensures Not(Xor(x, z)) == Xor(Not(x), z)
  {
  }
}
