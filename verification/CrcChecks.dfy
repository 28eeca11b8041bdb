/** What the checksum is for: known values, the residue of a checked message, and the errors it always detects. */
module CrcChecks {
  import opened Bytes
  import opened Words
  import opened LittleEndian
  import opened CrcTable
  import opened Crc32c
  import opened CrcPeriod

  // ----- the residue ---------------------------------------------------------------------------------------------

  lemma RawWord(c: bv32, w: bv32)
    ensures Raw(c, WordBytes(w)) == CrcU32(c, w)
  {
    hide CrcU32, ByteOf, Load32;
    var s := WordBytes(w);
    assert s[..0] == [] && s[..4] == s;
    RawFour(c, s, 0);
    LittleEndian.WordBack(w);
    NothingRead(c, s);
  }

  lemma XorNotBits(r: bv32)
    ensures r ^ !r == 0xFFFF_FFFF
  {
  }

  lemma XorNot(r: bv32)
    ensures Xor(r, Not(r)) == 0xFFFF_FFFF
  {
    XorNotBits(r);
  }

  lemma EightOf(c: bv32, d: bv32)
    requires Steps8(c) == d
    ensures ZeroBits(c, 8) == d
  {
    hide Steps8;
    EightSteps(c);
  }

  lemma OnesSteps()
    ensures Steps8(0xFFFF_FFFF) == 0xAD82_ACAE && Steps8(0xAD82_ACAE) == 0x0E9E_882D
    ensures Steps8(0x0E9E_882D) == 0x9F9B_5C85 && Steps8(0x9F9B_5C85) == 0xB798_B438
  {
  }

  lemma OnesOut()
    ensures ZeroBits(0xFFFF_FFFF, 32) == 0xB798_B438
  {
    hide Steps8, ZeroBits;
    OnesSteps();
    EightOf(0xFFFF_FFFF, 0xAD82_ACAE);
    EightOf(0xAD82_ACAE, 0x0E9E_882D);
    EightOf(0x0E9E_882D, 0x9F9B_5C85);
    EightOf(0x9F9B_5C85, 0xB798_B438);
    ZeroBitsAdd(0xFFFF_FFFF, 8, 8);
    ZeroBitsAdd(0xFFFF_FFFF, 16, 8);
    ZeroBitsAdd(0xFFFF_FFFF, 24, 8);
  }

  /** A message followed by its checksum always has the same checksum. */
  lemma Residue(data: seq<byte>, previous: bv32)
    ensures Crc(data + WordBytes(Crc(data, previous)), previous) == 0x4867_4BC7
  {
    hide Raw, WordBytes, ZeroBits;
    var r := Raw(Not(previous), data);
    RawAppend(Not(previous), data, WordBytes(Not(r)));
    RawWord(r, Not(r));
    XorNot(r);
    OnesOut();
  }

  // ----- known values --------------------------------------------------------------------------------------------

  /** One byte more of the division. */
  function Next(c: bv32, b: byte): bv32
  {
    Steps8(Xor(c, Word(b)))
  }

  lemma Extend(start: bv32, data: seq<byte>, k: nat, c: bv32, d: bv32)
    requires k < |data| && Raw(start, data[..k]) == c && Next(c, data[k]) == d
    ensures Raw(start, data[..k + 1]) == d
  {
    hide Steps8, Xor, Word;
    EightSteps(Xor(c, Word(data[k])));
    assert data[..k + 1][..k] == data[..k];
  }

  lemma Inverted()
    ensures Not(0) == 0xFFFF_FFFF && forall c :: Not(c) == 0xFFFF_FFFF ^ c
  {
  }

  lemma CheckValueSteps()
    ensures Next(0xFFFF_FFFF, 49) == 0x6F0A_661C && Next(0x6F0A_661C, 50) == 0x8CAA_3B9F && Next(0x8CAA_3B9F, 51) == 0xEF84_D04D
    ensures Next(0xEF84_D04D, 52) == 0x09C5_0B11 && Next(0x09C5_0B11, 53) == 0xE72E_DCCA && Next(0xE72E_DCCA, 54) == 0xBECA_8E79
    ensures Next(0xBECA_8E79, 55) == 0xEDBD_6815 && Next(0xEDBD_6815, 56) == 0x9F78_7F65 && Next(0x9F78_7F65, 57) == 0x1CF9_6D7C
  {
  }

  /** The check value of CRC-32C: the checksum of the ASCII digits 1 to 9. */
  lemma CheckValue()
    ensures Crc([49, 50, 51, 52, 53, 54, 55, 56, 57], 0) == 0xE306_9283
  {
    hide Next, Raw;
    var s: seq<byte> := [49, 50, 51, 52, 53, 54, 55, 56, 57];
    CheckValueSteps();
    NothingRead(0xFFFF_FFFF, s);
    Extend(0xFFFF_FFFF, s, 0, 0xFFFF_FFFF, 0x6F0A_661C);
    Extend(0xFFFF_FFFF, s, 1, 0x6F0A_661C, 0x8CAA_3B9F);
    Extend(0xFFFF_FFFF, s, 2, 0x8CAA_3B9F, 0xEF84_D04D);
    Extend(0xFFFF_FFFF, s, 3, 0xEF84_D04D, 0x09C5_0B11);
    Extend(0xFFFF_FFFF, s, 4, 0x09C5_0B11, 0xE72E_DCCA);
    Extend(0xFFFF_FFFF, s, 5, 0xE72E_DCCA, 0xBECA_8E79);
    Extend(0xFFFF_FFFF, s, 6, 0xBECA_8E79, 0xEDBD_6815);
    Extend(0xFFFF_FFFF, s, 7, 0xEDBD_6815, 0x9F78_7F65);
    Extend(0xFFFF_FFFF, s, 8, 0x9F78_7F65, 0x1CF9_6D7C);
    assert s[..9] == s;
    Inverted();
  }

  // ----- errors always detected ----------------------------------------------------------------------------------

  function LowHalf(w: bv32): bv32 { w & 0xFFFF }

  function HighHalf(w: bv32): bv32 { w >> 16 }

  /** Four bytes are given by the word they make. */
  lemma LoadInjective(a: seq<byte>, b: seq<byte>)
    requires |a| == |b| == 4 && WordOf(a) == WordOf(b)
    ensures a == b
  {
    hide Load16, Load32, LowHalf, HighHalf;
    LoadLow(a[0], a[1], a[2], a[3]);
    LoadLow(b[0], b[1], b[2], b[3]);
    Load16Injective(a[0], a[1], b[0], b[1]);
    Load16Injective(a[2], a[3], b[2], b[3]);
  }

  lemma LowBits(u: bv32, v: bv32)
    requires u < 0x1_0000
    ensures (u | (v << 16)) & 0xFFFF == u
  {
  }

  lemma HighBits(u: bv32, v: bv32)
    requires u < 0x1_0000 && v < 0x1_0000
    ensures (u | (v << 16)) >> 16 == v
  {
  }

  lemma LowNamed(u: bv32, v: bv32)
    requires u < 0x1_0000
    ensures LowHalf(u | Shl16(v)) == u
  {
    LowBits(u, v);
  }

  lemma HighNamed(u: bv32, v: bv32)
    requires u < 0x1_0000 && v < 0x1_0000
    ensures HighHalf(u | Shl16(v)) == v
  {
    HighBits(u, v);
  }

  lemma BothNamed(u: bv32, v: bv32)
    requires u < 0x1_0000 && v < 0x1_0000
    ensures LowHalf(u | Shl16(v)) == u && HighHalf(u | Shl16(v)) == v
  {
    hide LowHalf, HighHalf, Shl16;
    LowNamed(u, v);
    HighNamed(u, v);
  }

  lemma LoadLow(b0: byte, b1: byte, b2: byte, b3: byte)
    ensures LowHalf(Load32(b0, b1, b2, b3)) == Load16(b0, b1) && HighHalf(Load32(b0, b1, b2, b3)) == Load16(b2, b3)
  {
    hide Load16, Xor, Shl8, Word, Shl16, LowHalf, HighHalf;
    Load16IsXor(b0, b1);
    Load16IsXor(b2, b3);
    BothNamed(Load16(b0, b1), Load16(b2, b3));
  }

  lemma Quarters(u: bv32, v: bv32)
    requires u < 0x100 && v < 0x100
    ensures (u | (v << 8)) & 0xFF == u && (u | (v << 8)) >> 8 == v
  {
  }

  lemma Load16Injective(b0: byte, b1: byte, c0: byte, c1: byte)
    requires Load16(b0, b1) == Load16(c0, c1)
    ensures b0 == c0 && b1 == c1
  {
    hide Word;
    Quarters(Word(b0), Word(b1));
    Quarters(Word(c0), Word(c1));
    WordInjective(b0, c0);
    WordInjective(b1, c1);
  }

  lemma FourInjective(c: bv32, a: seq<byte>, b: seq<byte>)
    requires |a| == |b| == 4 && Raw(c, a) == Raw(c, b)
    ensures a == b
  {
    hide Raw, ZeroBits, Xor, Load32;
    assert a[..0] == [] && b[..0] == [] && a[..4] == a && b[..4] == b;
    RawFour(c, a, 0);
    RawFour(c, b, 0);
    NothingRead(c, a);
    NothingRead(c, b);
    ZeroBitsInjective(Xor(c, WordOf(a)), Xor(c, WordOf(b)), 32);
    XorCancel(WordOf(a), WordOf(b), c);
    XorCommutes(WordOf(a), c);
    XorCommutes(WordOf(b), c);
    LoadInjective(a, b);
  }

  /** Changing bytes inside four adjacent ones always changes the checksum. */
  lemma FourBytesMatter(p: seq<byte>, a: seq<byte>, b: seq<byte>, t: seq<byte>, previous: bv32)
    requires |a| == |b| == 4 && Crc(p + a + t, previous) == Crc(p + b + t, previous)
    ensures a == b
  {
    hide Raw, Not;
    var start := Not(previous);
    NotNot(Raw(start, p + a + t));
    NotNot(Raw(start, p + b + t));
    RawAppend(start, p + a, t);
    RawAppend(start, p + b, t);
    RawAppend(start, p, a);
    RawAppend(start, p, b);
    RawInjective(Raw(start, p + a), Raw(start, p + b), t);
    FourInjective(Raw(start, p), a, b);
  }
}
