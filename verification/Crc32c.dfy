/** CRC-32C (section 12.1 of RFC 3720): bit by bit, by table, and in blocks. */
module Crc32c {
  import opened Bytes
  import opened Words
  import opened CrcTable

  // ----- the checksum, bit by bit --------------------------------------------------------------------------------

  /** n steps of the division with no further input: n zero bits. */
  function ZeroBits(c: bv32, n: nat): bv32
  {
    if n == 0 then c else Step(ZeroBits(c, n - 1))
  }

  /** One byte of input. */
  function Update(c: bv32, b: byte): bv32
  {
    ZeroBits(Xor(c, Word(b)), 8)
  }

  function Raw(c: bv32, data: seq<byte>): bv32
  {
    if data == [] then c else Update(Raw(c, data[..|data| - 1]), data[|data| - 1])
  }

  /** The checksum of data, continuing a previous checksum. */
  function Crc(data: seq<byte>, previous: bv32): bv32
  {
    Not(Raw(Not(previous), data))
  }

  lemma {:induction false} RawAppend(c: bv32, a: seq<byte>, b: seq<byte>)
    ensures Raw(c, a + b) == Raw(Raw(c, a), b)
  {
    hide Update;
    if b == [] {
      assert a + b == a;
    } else {
      assert (a + b)[..|a + b| - 1] == a + b[..|b| - 1];
      RawAppend(c, a, b[..|b| - 1]);
    }
  }

  /** Splitting the input anywhere and chaining gives the same checksum. */
  lemma CrcChain(a: seq<byte>, b: seq<byte>, previous: bv32)
    ensures Crc(b, Crc(a, previous)) == Crc(a + b, previous)
  {
    hide Raw, Not;
    RawAppend(Not(previous), a, b);
    NotNot(Raw(Not(previous), a));
  }

  // ----- linearity -----------------------------------------------------------------------------------------------

  lemma StepLinear(a: bv32, b: bv32)
    ensures Step(Xor(a, b)) == Xor(Step(a), Step(b))
  {
    hide Odd, Xor, Shr1;
    OddXor(a, b);
    Shr1Xor(a, b);
    var p, q := Shr1(a), Shr1(b);
    XorAssociates(p, q, POLY);
    XorAssociates(p, POLY, q);
    XorCommutes(q, POLY);
    XorMiddle(p, POLY, q, POLY);
    XorSelf(POLY);
    XorZero(Xor(p, q));
  }

  lemma {:induction false} ZeroBitsLinear(a: bv32, b: bv32, n: nat)
    ensures ZeroBits(Xor(a, b), n) == Xor(ZeroBits(a, n), ZeroBits(b, n))
  {
    hide Step, Xor;
    if n > 0 {
      ZeroBitsLinear(a, b, n - 1);
      StepLinear(ZeroBits(a, n - 1), ZeroBits(b, n - 1));
    }
  }

  lemma {:induction false} ZeroBitsAdd(c: bv32, m: nat, n: nat)
    ensures ZeroBits(ZeroBits(c, m), n) == ZeroBits(c, m + n)
  {
    hide Step;
    if n > 0 { ZeroBitsAdd(c, m, n - 1); }
  }

  lemma EightSteps(c: bv32)
    ensures Steps8(c) == ZeroBits(c, 8)
  {
    hide Step;
    assert ZeroBits(c, 1) == Step(c);
    assert ZeroBits(c, 2) == Step(ZeroBits(c, 1));
    assert ZeroBits(c, 3) == Step(ZeroBits(c, 2));
    assert ZeroBits(c, 4) == Step(ZeroBits(c, 3));
    assert ZeroBits(c, 5) == Step(ZeroBits(c, 4));
    assert ZeroBits(c, 6) == Step(ZeroBits(c, 5));
    assert ZeroBits(c, 7) == Step(ZeroBits(c, 6));
  }

  lemma NoBits(d: bv32)
    ensures ZeroBits(d, 0) == d
  {
  }

  /** Changing the start value changes the result by what the change becomes over zero bytes. */
  lemma {:induction false} RawLinear(c: bv32, d: bv32, data: seq<byte>)
    ensures Raw(Xor(c, d), data) == Xor(Raw(c, data), ZeroBits(d, 8 * |data|))
  {
    hide Xor, ZeroBits, Word;
    NoBits(d);
    if data != [] {
      var front, b := data[..|data| - 1], data[|data| - 1];
      RawLinear(c, d, front);
      UpdateLinear(Raw(c, front), ZeroBits(d, 8 * |front|), b);
      ZeroBitsAdd(d, 8 * |front|, 8);
    }
  }

  lemma UpdateLinear(r: bv32, z: bv32, b: byte)
    ensures Update(Xor(r, z), b) == Xor(Update(r, b), ZeroBits(z, 8))
  {
    hide Xor, ZeroBits, Word;
    var w := Word(b);
    XorAssociates(r, z, w);
    XorCommutes(z, w);
    XorAssociates(r, w, z);
    ZeroBitsLinear(Xor(r, w), z, 8);
  }

  // ----- the table loop ------------------------------------------------------------------------------------------

  lemma ClearSteps(x: bv32, m: bv32)
    requires Odd(m) && Clear(x, m)
    ensures Step(x) == Shr1(x) && Clear(Shr1(x), Shr1(m))
  {
    hide Odd, Clear, Shr1, Xor;
    ClearStep(x, m);
  }

  lemma Masks()
    ensures Shr1(0xFF) == 0x7F && Shr1(0x7F) == 0x3F && Shr1(0x3F) == 0x1F && Shr1(0x1F) == 0x0F
    ensures Shr1(0x0F) == 0x07 && Shr1(0x07) == 0x03 && Shr1(0x03) == 0x01
    ensures Odd(0xFF) && Odd(0x7F) && Odd(0x3F) && Odd(0x1F) && Odd(0x0F) && Odd(0x07) && Odd(0x03) && Odd(0x01)
  {
  }

  lemma LowIsClear(x: bv32)
    requires Low8(x) == 0
    ensures Clear(x, 0xFF)
  {
  }

  /** Over a zero byte, eight steps are a shift. */
  lemma StepsShift(x: bv32)
    requires Low8(x) == 0
    ensures Steps8(x) == Shr8(x)
  {
    hide Step, Odd, Clear, Shr1, Low8, Shr8;
    Masks();
    LowIsClear(x);
    EightShifts(x);
    var x1 := Shr1(x);
    var x2 := Shr1(x1);
    var x3 := Shr1(x2);
    var x4 := Shr1(x3);
    var x5 := Shr1(x4);
    var x6 := Shr1(x5);
    var x7 := Shr1(x6);
    ClearSteps(x, 0xFF);
    ClearSteps(x1, 0x7F);
    ClearSteps(x2, 0x3F);
    ClearSteps(x3, 0x1F);
    ClearSteps(x4, 0x0F);
    ClearSteps(x5, 0x07);
    ClearSteps(x6, 0x03);
    ClearSteps(x7, 0x01);
  }

  /** One table look-up. */
  function LookUp(c: bv32, b: byte): bv32
  {
    Xor(TableEntry(Low8(Xor(c, Word(b)))), Shr8(c))
  }

  lemma ShiftedSum(c: bv32, w: bv32)
    requires w < 256
    ensures Shr8(High24(Xor(c, w))) == Shr8(c)
  {
    hide Xor, Shr8, High24;
    ShiftHigh(Xor(c, w));
    Shr8Xor(c, w);
    ByteShiftsOut(w);
    XorZero(Shr8(c));
  }

  /** One table look-up does the work of eight steps. */
  lemma TableUpdate(c: bv32, b: byte)
    ensures LookUp(c, b) == Update(c, b)
  {
    hide TableEntry, Steps8, ZeroBits, Xor, Low8, High24, Shr8, Word;
    var x := Xor(c, Word(b));
    SplitLow8(x);
    Low8Small(x);
    TableIsRemainder(Low8(x));
    EightSteps(Low8(x));
    ZeroBitsLinear(Low8(x), High24(x), 8);
    HighHasNoLow(x);
    EightSteps(High24(x));
    StepsShift(High24(x));
    ShiftedSum(c, Word(b));
  }

  method CrcByTable(data: array<byte>, length: nat, previous: bv32) returns (r: bv32)
    requires length <= data.Length
    ensures r == Crc(data[..length], previous)
  {
    hide Update, LookUp, Not;
    var crc := Not(previous);
    for i := 0 to length
      invariant crc == Raw(Not(previous), data[..i])
    {
      assert data[..i + 1][..i] == data[..i];
      TableUpdate(crc, data[i]);
      crc := LookUp(crc, data[i]);
    }
    r := Not(crc);
  }

  // ----- blocks --------------------------------------------------------------------------------------------------

  // The checksum instructions: n steps over the operand added to the state. The 64-bit form takes
  // the low half of its operand first.

  function CrcU8(c: bv32, v: bv32): bv32 { ZeroBits(Xor(c, v), 8) }

  function CrcU16(c: bv32, v: bv32): bv32 { ZeroBits(Xor(c, v), 16) }

  function CrcU32(c: bv32, v: bv32): bv32 { ZeroBits(Xor(c, v), 32) }

  function CrcU64(c: bv32, low: bv32, high: bv32): bv32 { CrcU32(CrcU32(c, low), high) }

  lemma EightBack(v: bv32)
    requires v < 0x1_0000
    ensures ZeroBits(Shl8(v), 8) == v
  {
    hide ZeroBits, Steps8, Shl8, Shr8, Low8;
    Shl8Low(v);
    EightSteps(Shl8(v));
    StepsShift(Shl8(v));
    Shl8Back(v);
  }

  lemma SixteenBack(v: bv32)
    requires v < 0x1_0000
    ensures ZeroBits(Shl16(v), 16) == v
  {
    hide ZeroBits, Steps8, Shl16, Shl8, Shr8, Low8;
    ZeroBitsAdd(Shl16(v), 8, 8);
    Shl16Low(v);
    EightSteps(Shl16(v));
    StepsShift(Shl16(v));
    Shl16Back(v);
    EightBack(v);
  }

  lemma WordFits(b: byte)
    ensures Word(b) < 0x1_0000
  {
    hide Word;
    var w := Word(b);
    assert w < 256;
  }

  /** A two-byte load feeds its bytes in order. */
  lemma TwoBytes(c: bv32, b0: byte, b1: byte)
    ensures CrcU16(c, Load16(b0, b1)) == Update(Update(c, b0), b1)
  {
    hide ZeroBits, Word, Xor, Shl8, Load16;
    var u, v := Word(b0), Word(b1);
    Load16IsXor(b0, b1);
    XorAssociates(c, u, Shl8(v));
    ZeroBitsAdd(Xor(Xor(c, u), Shl8(v)), 8, 8);
    ZeroBitsLinear(Xor(c, u), Shl8(v), 8);
    WordFits(b1);
    EightBack(v);
  }

  /** A four-byte load feeds its halves in order. */
  lemma FourBytes(c: bv32, b0: byte, b1: byte, b2: byte, b3: byte)
    ensures CrcU32(c, Load32(b0, b1, b2, b3)) == CrcU16(CrcU16(c, Load16(b0, b1)), Load16(b2, b3))
  {
    hide ZeroBits, Xor, Shl16, Load16, Load32;
    var u, v := Load16(b0, b1), Load16(b2, b3);
    Load32IsXor(b0, b1, b2, b3);
    Load16IsXor(b2, b3);
    XorAssociates(c, u, Shl16(v));
    ZeroBitsAdd(Xor(Xor(c, u), Shl16(v)), 16, 16);
    ZeroBitsLinear(Xor(c, u), Shl16(v), 16);
    SixteenBack(v);
  }

  lemma RawOne(c: bv32, data: seq<byte>, i: nat)
    requires i < |data|
    ensures Raw(c, data[..i + 1]) == CrcU8(Raw(c, data[..i]), Word(data[i]))
  {
    assert data[..i + 1][..i] == data[..i];
  }

  lemma RawTwo(c: bv32, data: seq<byte>, i: nat)
    requires i + 2 <= |data|
    ensures Raw(c, data[..i + 2]) == CrcU16(Raw(c, data[..i]), Load16(data[i], data[i + 1]))
  {
    hide Update, CrcU16, Load16;
    assert data[..i + 2][..i + 1] == data[..i + 1] && data[..i + 1][..i] == data[..i];
    TwoBytes(Raw(c, data[..i]), data[i], data[i + 1]);
  }

  lemma RawFour(c: bv32, data: seq<byte>, i: nat)
    requires i + 4 <= |data|
    ensures Raw(c, data[..i + 4]) ==
            CrcU32(Raw(c, data[..i]), Load32(data[i], data[i + 1], data[i + 2], data[i + 3]))
  {
    hide Raw, CrcU16, CrcU32, Load16, Load32;
    RawTwo(c, data, i);
    RawTwo(c, data, i + 2);
    FourBytes(Raw(c, data[..i]), data[i], data[i + 1], data[i + 2], data[i + 3]);
  }

  /** Four little-endian bytes of the data. */
  function LoadAt(data: array<byte>, i: nat): bv32
    requires i + 4 <= data.Length
    reads data
  {
    Load32(data[i], data[i + 1], data[i + 2], data[i + 3])
  }

  /** The blocked form on x86-64: bytes up to an 8-byte boundary, then blocks of 8, then at most
      one block each of 4, 2 and 1. */
  method CrcByBlocks(data: array<byte>, length: nat, start: nat, previous: bv32) returns (r: bv32)
    requires length <= data.Length
    ensures r == Crc(data[..length], previous)
  {
    hide Raw, CrcU8, CrcU16, CrcU32, Load16, Load32, Word, Not;
    ghost var bytes := data[..];
    ghost var c0 := Not(previous);
    var crc, addr, i := Not(previous), start, 0;
    NothingRead(c0, bytes);
    while i < length && addr % 8 != 0
      invariant 0 <= i <= length && crc == Raw(c0, bytes[..i])
    {
      RawOne(c0, bytes, i);
      crc := CrcU8(crc, Word(data[i]));
      addr, i := addr + 1, i + 1;
    }
    while length - i >= 8
      invariant 0 <= i <= length && crc == Raw(c0, bytes[..i])
    {
      RawFour(c0, bytes, i);
      RawFour(c0, bytes, i + 4);
      crc := CrcU64(crc, LoadAt(data, i), LoadAt(data, i + 4));
      i := i + 8;
    }
    if length - i >= 4 {
      RawFour(c0, bytes, i);
      crc := CrcU32(crc, LoadAt(data, i));
      i := i + 4;
    }
    if length - i >= 2 {
      RawTwo(c0, bytes, i);
      crc := CrcU16(crc, Load16(data[i], data[i + 1]));
      i := i + 2;
    }
    if length - i == 1 {
      RawOne(c0, bytes, i);
      crc := CrcU8(crc, Word(data[i]));
      i := i + 1;
    }
    assert bytes[..i] == data[..length];
    r := Not(crc);
  }

  lemma NothingRead(c: bv32, data: seq<byte>)
    ensures Raw(c, data[..0]) == c
  {
  }
}
