/** The order of the checksum's shift: 2^31 zero bits do what one does. */
module CrcPeriod {
  import opened Bytes
  import opened Words
  import opened CrcTable
  import opened Crc32c
  import opened CrcCombine
  import opened MersennePrime

  // ----- multiplication of remainders ----------------------------------------------------------------------------

  /** The word that stands for 1: its highest bit. */
  const UNIT: bv32 := 0x8000_0000

  predicate Top(a: bv32) { a & 0x8000_0000 != 0 }

  function Term(a: bv32, y: bv32): bv32
  {
    if Top(a) then y else 0
  }

  /** The sum of y shifted by i for the n highest bits i of a. */
  function Product(a: bv32, y: bv32, n: nat): bv32
    decreases n
  {
    if n == 0 then 0 else Xor(Term(a, y), Product(Shl1(a), Step(y), n - 1))
  }

  lemma TopSplitBits(a: bv32)
    ensures a == (a & 0x8000_0000) ^ ((a << 1) >> 1)
  {
  }

  lemma TopBit(a: bv32)
    ensures a & 0x8000_0000 == if Top(a) then UNIT else 0
  {
  }

  lemma SplitTop(a: bv32)
    ensures a == Xor(Term(a, UNIT), Step(Shl1(a)))
  {
    hide Step, Top, Shl1;
    TopBit(a);
    EvenStep(a);
    TopSplit(a);
  }

  lemma TopSplit(a: bv32)
    ensures a == Xor(a & 0x8000_0000, (a << 1) >> 1)
  {
    TopSplitBits(a);
  }

  lemma EvenStep(a: bv32)
    ensures Step(Shl1(a)) == (a << 1) >> 1
  {
  }

  /** Running n zero bits is multiplying by what n zero bits make of 1. */
  lemma {:induction false} ProductIsZeroBits(a: bv32, k: nat, n: nat)
    requires k <= 32
    ensures Product(Up(a, k), ZeroBits(UNIT, n), 32 - k) == ZeroBits(Up(a, k), n)
    decreases 32 - k
  {
    hide Up, Shl1, Step, Xor, ZeroBits, Term;
    var b := Up(a, k);
    ZeroStays(n);
    if k == 32 {
      UpAll(a);
    } else {
      UpNext(a, k);
      ShiftedUnit(n);
      ProductIsZeroBitsNext(a, k, n);
      SplitTop(b);
      ZeroBitsLinear(Term(b, UNIT), Step(Shl1(b)), n);
      TermShift(b, n);
      StepFirst(Shl1(b), n);
    }
  }

  /** The same one bit further. */
  lemma {:induction false} ProductIsZeroBitsNext(a: bv32, k: nat, n: nat)
    requires k < 32
    ensures Product(Up(a, k + 1), ZeroBits(UNIT, n + 1), 32 - (k + 1)) == ZeroBits(Up(a, k + 1), n + 1)
    decreases 32 - k, 0
  {
    ProductIsZeroBits(a, k + 1, n + 1);
  }

  lemma UpNext(a: bv32, k: nat)
    ensures Up(a, k + 1) == Shl1(Up(a, k)) && Up(a, 0) == a
  {
  }

  lemma ShiftedUnit(n: nat)
    ensures Step(ZeroBits(UNIT, n)) == ZeroBits(UNIT, n + 1)
  {
  }

  lemma StepFirst(c: bv32, n: nat)
    ensures ZeroBits(Step(c), n) == ZeroBits(c, n + 1)
  {
    hide Step;
    ZeroBitsAdd(c, 1, n);
    assert ZeroBits(c, 0) == c && ZeroBits(c, 1) == Step(c);
  }

  lemma TermShift(a: bv32, n: nat)
    ensures ZeroBits(Term(a, UNIT), n) == Term(a, ZeroBits(UNIT, n))
  {
    hide ZeroBits;
    ZeroStays(n);
  }

  /** Squaring: twice as many zero bits. */
  lemma SquareDoubles(y: bv32, n: nat)
    requires y == ZeroBits(UNIT, n)
    ensures Product(y, y, 32) == ZeroBits(UNIT, 2 * n)
  {
    hide Product, ZeroBits;
    ProductIsZeroBits(y, 0, n);
    assert Up(y, 0) == y;
    ZeroBitsAdd(UNIT, n, n);
  }

  // ----- squaring word by word -----------------------------------------------------------------------------------

  function Four(a: bv32, y: bv32): bv32
  {
    Xor(Term(a, y), Xor(Term(Shl1(a), Step(y)),
      Xor(Term(Shl1(Shl1(a)), Step(Step(y))), Term(Shl1(Shl1(Shl1(a))), Step(Step(Step(y)))))))
  }

  function Shl4(a: bv32): bv32 { a << 4 }

  function Steps4(y: bv32): bv32 { Step(Step(Step(Step(y)))) }

  lemma FourShiftBits(a: bv32)
    ensures (((a << 1) << 1) << 1) << 1 == a << 4
  {
  }

  lemma FourShifts(a: bv32)
    ensures Shl1(Shl1(Shl1(Shl1(a)))) == Shl4(a)
  {
    FourShiftBits(a);
  }

  /** Four bits of a product, with the words they lead to. */
  lemma ProductFour(a: bv32, y: bv32, n: nat, a4: bv32, y4: bv32, f: bv32)
    requires a4 == Shl4(a) && y4 == Steps4(y) && f == Four(a, y)
    ensures Product(a, y, n + 4) == Xor(f, Product(a4, y4, n))
  {
    hide Shl1, Step, Term, Xor, Shl4;
    FourShifts(a);
    var p, b, z := Product(a4, y4, n), Shl1(a), Step(y);
    assert Product(Shl1(Shl1(Shl1(a))), Step(Step(Step(y))), n + 1) == Xor(Term(Shl1(Shl1(Shl1(a))), Step(Step(Step(y)))), p);
    assert Product(Shl1(b), Step(z), n + 2) == Xor(Term(Shl1(b), Step(z)), Product(Shl1(Shl1(b)), Step(Step(z)), n + 1));
    assert Product(b, z, n + 3) == Xor(Term(b, z), Product(Shl1(b), Step(z), n + 2));
    XorAssociates(Term(Shl1(b), Step(z)), Term(Shl1(Shl1(b)), Step(Step(z))), p);
    XorAssociates(Term(b, z), Xor(Term(Shl1(b), Step(z)), Term(Shl1(Shl1(b)), Step(Step(z)))), p);
    XorAssociates(Term(a, y), Xor(Term(b, z), Xor(Term(Shl1(b), Step(z)), Term(Shl1(Shl1(b)), Step(Step(z))))), p);
  }

  lemma ProductNone(a: bv32, y: bv32)
    ensures Product(a, y, 0) == 0
  {
  }

  /** From n zero bits to 2n: the square of y, with the words on the way to it. */
  lemma DoubleTo(n: nat, y: bv32, y1: bv32, y2: bv32, y3: bv32, y4: bv32, y5: bv32, y6: bv32, y7: bv32,
                 f0: bv32, f1: bv32, f2: bv32, f3: bv32, f4: bv32, f5: bv32, f6: bv32, f7: bv32)
    requires y == ZeroBits(UNIT, n)
    requires y1 == Steps4(y) && y2 == Steps4(y1) && y3 == Steps4(y2) && y4 == Steps4(y3)
    requires y5 == Steps4(y4) && y6 == Steps4(y5) && y7 == Steps4(y6)
    requires f0 == Four(y, y) && f1 == Four(Shl4(y), y1) && f2 == Four(Shl8(y), y2) && f3 == Four(Shl8(Shl4(y)), y3)
    requires f4 == Four(Shl16(y), y4) && f5 == Four(Shl16(Shl4(y)), y5)
    requires f6 == Four(Shl16(Shl8(y)), y6) && f7 == Four(Shl16(Shl8(Shl4(y))), y7)
    ensures ZeroBits(UNIT, 2 * n) == Xor(f0, Xor(f1, Xor(f2, Xor(f3, Xor(f4, Xor(f5, Xor(f6, f7)))))))
  {
    hide Product, ZeroBits, Four, Steps4, Shl4, Xor, Shl8, Shl16;
    ShiftsByFour(y);
    ProductFour(y, y, 28, Shl4(y), y1, f0);
    ProductFour(Shl4(y), y1, 24, Shl8(y), y2, f1);
    ProductFour(Shl8(y), y2, 20, Shl8(Shl4(y)), y3, f2);
    ProductFour(Shl8(Shl4(y)), y3, 16, Shl16(y), y4, f3);
    ProductFour(Shl16(y), y4, 12, Shl16(Shl4(y)), y5, f4);
    ProductFour(Shl16(Shl4(y)), y5, 8, Shl16(Shl8(y)), y6, f5);
    ProductFour(Shl16(Shl8(y)), y6, 4, Shl16(Shl8(Shl4(y))), y7, f6);
    ProductFour(Shl16(Shl8(Shl4(y))), y7, 0, Shl4(Shl16(Shl8(Shl4(y)))), Steps4(y7), f7);
    ProductNone(Shl4(Shl16(Shl8(Shl4(y)))), Steps4(y7));
    XorZero(f7);
    SquareDoubles(y, n);
  }

  lemma ShiftSums(y: bv32)
    ensures (y << 4) << 4 == y << 8
  {
  }

  lemma ShiftSwaps(y: bv32)
    ensures (y << 8) << 4 == (y << 4) << 8 && (y << 16) << 4 == (y << 4) << 16
  {
  }

  lemma ShiftWhole(y: bv32)
    ensures (y << 8) << 8 == y << 16
  {
  }

  lemma FourAndFour(y: bv32)
    ensures Shl4(Shl4(y)) == Shl8(y)
  {
    ShiftSums(y);
  }

  lemma FourFirst(y: bv32)
    ensures Shl4(Shl8(y)) == Shl8(Shl4(y)) && Shl4(Shl16(y)) == Shl16(Shl4(y))
  {
    ShiftSwaps(y);
  }

  lemma EightAndEight(y: bv32)
    ensures Shl8(Shl8(y)) == Shl16(y)
  {
    ShiftWhole(y);
  }

  lemma ShiftsByFour(y: bv32)
    ensures Shl4(Shl4(y)) == Shl8(y) && Shl4(Shl8(y)) == Shl8(Shl4(y)) && Shl4(Shl8(Shl4(y))) == Shl16(y)
    ensures Shl4(Shl16(y)) == Shl16(Shl4(y)) && Shl4(Shl16(Shl4(y))) == Shl16(Shl8(y))
    ensures Shl4(Shl16(Shl8(y))) == Shl16(Shl8(Shl4(y)))
  {
    hide Shl4, Shl8, Shl16;
    FourAndFour(y);
    FourFirst(y);
    FourFirst(Shl4(y));
    EightAndEight(y);
    FourFirst(Shl8(y));
  }

  // ----- x to the power 2^31 -------------------------------------------------------------------------------------

  lemma Doublings0(n: nat)
    requires ZeroBits(UNIT, n) == 0x4000_0000
    ensures ZeroBits(UNIT, 16 * n) == 0x0000_8000
  {
    hide ZeroBits;
    DoubleTo(n, 0x4000_0000, 0x0400_0000, 0x0040_0000, 0x0004_0000, 0x0000_4000, 0x0000_0400, 0x0000_0040, 0x0000_0004,
             0x2000_0000, 0, 0, 0, 0, 0, 0, 0);
    DoubleTo(2 * n, 0x2000_0000, 0x0200_0000, 0x0020_0000, 0x0002_0000, 0x0000_2000, 0x0000_0200, 0x0000_0020, 0x0000_0002,
             0x0800_0000, 0, 0, 0, 0, 0, 0, 0);
    DoubleTo(4 * n, 0x0800_0000, 0x0080_0000, 0x0008_0000, 0x0000_8000, 0x0000_0800, 0x0000_0080, 0x0000_0008, 0x82F6_3B78,
             0, 0x0080_0000, 0, 0, 0, 0, 0, 0);
    DoubleTo(8 * n, 0x0080_0000, 0x0008_0000, 0x0000_8000, 0x0000_0800, 0x0000_0080, 0x0000_0008, 0x82F6_3B78, 0x8AD9_58CF,
             0, 0, 0x0000_8000, 0, 0, 0, 0, 0);
  }

  lemma Doublings1(n: nat)
    requires ZeroBits(UNIT, n) == 0x0000_8000
    ensures ZeroBits(UNIT, 16 * n) == 0x510A_C59A
  {
    hide ZeroBits;
    DoubleTo(n, 0x0000_8000, 0x0000_0800, 0x0000_0080, 0x0000_0008, 0x82F6_3B78, 0x8AD9_58CF, 0xFBC3_FAF9, 0x9D14_C3B8,
             0, 0, 0, 0, 0x82F6_3B78, 0, 0, 0);
    DoubleTo(2 * n, 0x82F6_3B78, 0x8AD9_58CF, 0xFBC3_FAF9, 0x9D14_C3B8, 0x8B27_7743, 0x3851_3EC5, 0x52A0_C93F, 0xF644_63E6,
             0x82F6_3B78, 0xE13B_70F7, 0x449A_2E7E, 0x69CF_5132, 0x91E6_869E, 0xD27F_FEB6, 0x95E7_FA51, 0xF644_63E6);
    DoubleTo(4 * n, 0x6EA2_D55C, 0xC567_0B91, 0x1C08_B7D6, 0x6006_181F, 0xF56E_0EF4, 0x4E2D_FD53, 0x3401_9664, 0x423B_04DA,
             0x2CF9_DFF9, 0x5500_6A79, 0x99FC_A15B, 0xDB8C_A0C3, 0x1382_F328, 0xCDE3_E919, 0x9E76_C286, 0x6326_86B7);
    DoubleTo(8 * n, 0x18B8_EA18, 0x837D_B5D9, 0x9A9F_274A, 0xABE2_47D2, 0x2A03_AAA3, 0x3243_731B, 0xB131_45F8, 0x89E5_2F27,
             0x0317_1D43, 0x837D_B5D9, 0x6CE6_2CB5, 0xABE2_47D2, 0x74F9_88E6, 0xFD5E_8919, 0x1626_28BF, 0x89E5_2F27);
  }

  lemma Doublings2(n: nat)
    requires ZeroBits(UNIT, n) == 0x510A_C59A
    ensures ZeroBits(UNIT, 16 * n) == 0x74C3_60A4
  {
    hide ZeroBits;
    DoubleTo(n, 0x510A_C59A, 0xA75B_19FF, 0xF91B_DEEA, 0xADDA_0848, 0x882B_9BFC, 0xCB0F_9F7B, 0xBEA5_8B3E, 0xE8DA_F0A9,
             0x63DF_27C2, 0xF7DB_CB25, 0, 0x86AC_8A5A, 0xCC3E_5602, 0x9FD6_9448, 0x6AFC_1C9D, 0x9397_513F);
    DoubleTo(2 * n, 0xB82B_E955, 0x5AA7_6446, 0x646C_E526, 0x6780_5D30, 0x0678_05D3, 0x3084_C9EC, 0xC085_6A5A, 0xAE43_E303,
             0x6214_C630, 0x5AA7_6446, 0x9BED_0231, 0x7290_41DA, 0x45A1_1BF2, 0xB462_6BA9, 0x3929_05DA, 0xA1D9_25FB);
    DoubleTo(4 * n, 0xB8FD_B1E7, 0x7A17_8F13, 0x3742_3140, 0x0374_2314, 0x414C_5F8D, 0xD7C7_2453, 0x3D9F_3BF4, 0x42A2_EE03,
             0xA160_E57C, 0x7A17_8F13, 0x27DB_E398, 0x8056_8D84, 0xBA06_6B85, 0x7B3E_77E8, 0x2C37_68F3, 0x1910_1F9F);
    DoubleTo(8 * n, 0x88E5_6F72, 0x2833_D829, 0x902B_C195, 0x5827_66CA, 0xA7C9_C3CA, 0xA837_299A, 0xA8C8_C73F, 0xF9E2_E306,
             0x88E5_6F72, 0x2833_D829, 0x3FB9_F7FE, 0x666C_4200, 0xF8E0_AA6F, 0x00AA_B4C6, 0xC904_FF11, 0xBC8E_83B9);
  }

  lemma Doublings3(n: nat)
    requires ZeroBits(UNIT, n) == 0x74C3_60A4
    ensures ZeroBits(UNIT, 16 * n) == 0x2846_1564
  {
    hide ZeroBits;
    DoubleTo(n, 0x74C3_60A4, 0x4637_2BB6, 0x65A5_E1D9, 0x94F2_A20A, 0xAB04_9F86, 0x6B76_DA9A, 0xA4FC_D80F, 0xF921_A2F5,
             0xAB3F_3F17, 0x231B_95DB, 0xD581_2A4D, 0xF42F_DA07, 0xFDB5_535A, 0, 0x4E4E_C8C8, 0xFE66_EA02);
    DoubleTo(2 * n, 0xE417_2B16, 0x6F87_E1D3, 0x361B_37AC, 0xC0EC_95BE, 0xEF3E_6141, 0x1EAD_217B, 0xB3FF_A0DE, 0xE80F_5217,
             0x2DEF_4F20, 0xB535_CB91, 0x8435_5D8D, 0x092B_E0BB, 0x7AB4_85EC, 0xB898_78AC, 0xD5F2_D2DF, 0x0F7F_6032);
    DoubleTo(4 * n, 0x0D65_762A, 0xA29D_E2C4, 0x4B52_C390, 0x04B5_2C39, 0x92E3_AED4, 0x4855_2751, 0x14DB_951A, 0xA306_0CF7,
             0, 0x6576_9486, 0x377D_D12C, 0xA087_863D, 0xFD63_727D, 0xF5B2_FCB8, 0x87C0_DE3E, 0x484A_A90E);
    DoubleTo(8 * n, 0x35D7_3A62, 0x23E0_FD78, 0x80C8_34AF, 0xFB62_EC3F, 0xFCD8_41B6, 0x6E0B_1779, 0x9448_4D60, 0x0944_84D6,
             0xC842_0F10, 0x158C_6113, 0xB173_BB0F, 0xFE4E_2531, 0x61D6_05E7, 0x34F2_CF1B, 0x6F36_35E8, 0x80A7_1A4D);
  }

  lemma Doublings4(n: nat)
    requires ZeroBits(UNIT, n) == 0x2846_1564
    ensures ZeroBits(UNIT, 16 * n) == 0xF946_610B
  {
    hide ZeroBits;
    DoubleTo(n, 0x2846_1564, 0x43FF_7CEA, 0xA674_4268, 0x8891_7F5E, 0xEBB9_BFEF, 0xFDD5_F48B, 0xBDC8_2D81, 0x1B82_45B7,
             0x0A11_8559, 0x43FF_7CEA, 0x533A_2134, 0xE49A_DB00, 0xFE47_9FE7, 0x8260_ECCE, 0xB21B_3B64, 0x8F37_19A3);
    DoubleTo(2 * n, 0xBF45_5269, 0x995C_A931, 0x19CB_0DFC, 0xC211_961B, 0xBE34_6BA8, 0x8915_7DC2, 0x282C_D902, 0x223F_434E,
             0xE6BA_3FDC, 0x03BE_EAD9, 0x0CE5_86FE, 0x9A7A_51D4, 0x48DC_B8A1, 0xA0B3_6408, 0x9CEB_61B9, 0xE5F5_8DE3);
    DoubleTo(4 * n, 0xE2EA_32DC, 0xCDA3_85E9, 0x9E72_C449, 0x9B4F_D053, 0x3957_B4B4, 0x42EE_66F7, 0x75B6_B262, 0x27E6_E5F8,
             0xAB25_A705, 0x7213_FCC6, 0x355A_31BB, 0x7E11_0283, 0x8B89_20C3, 0xD336_BF79, 0x00A0_20A3, 0x3415_9704);
    DoubleTo(8 * n, 0xFE77_40E6, 0x6E21_E76C, 0xC56F_38B2, 0x2CEB_7D55, 0x53EB_6D06, 0x64F8_25B2, 0x26F2_0C85, 0x534A_FA1B,
             0xE064_C50C, 0x42B9_6D01, 0x88CC_93A7, 0x7914_9D37, 0x29F5_B683, 0, 0xFFBA_AF22, 0x7C0C_DE37);
  }

  lemma Doublings5(n: nat)
    requires ZeroBits(UNIT, n) == 0xF946_610B
    ensures ZeroBits(UNIT, 16 * n) == 0x734D_5309
  {
    hide ZeroBits;
    DoubleTo(n, 0xF946_610B, 0xBD81_14D9, 0x9970_ED5A, 0xABDC_BB73, 0x3A5E_8206, 0x6263_7B42, 0x269B_B96A, 0xA022_0E30,
             0x8421_8B33, 0x8A8C_B89C, 0x4CB8_76AD, 0x3E62_6ED9, 0x914E_DAFA, 0x4D37_72D4, 0, 0x9C2E_CC7A);
    DoubleTo(2 * n, 0x3C20_4F8F, 0xF0AC_6B8D, 0xDCD9_2713, 0x3D2E_DBC0, 0x03D2_EDBC, 0xC3B0_081F, 0xFF55_6FF4, 0x4E8E_4B43,
             0x2831_94CC, 0x0A0C_6533, 0xF4BB_6F00, 0, 0x01E9_76DE, 0x28B9_BAB2, 0xFF55_6FF4, 0x5306_BB84);
    DoubleTo(4 * n, 0x5385_86E3, 0x35DB_11DF, 0xF033_DE68, 0x8DF5_069E, 0xEBEF_F873, 0x3E5D_B636, 0x6223_4801, 0x167C_F3EF,
             0xC082_DBB7, 0x2B70_2892, 0xF033_DE68, 0x94C9_0558, 0xEBEF_F873, 0x924F_8DEE, 0x8837_18C5, 0x27ED_2C58);
    DoubleTo(8 * n, 0x5972_6915, 0x54B2_FC42, 0x25F6_A11A, 0xA014_DFB7, 0x7B99_19F6, 0x667F_02FD, 0xD5B4_1184, 0x4C20_5CA4,
             0x072A_F776, 0x1F5F_BE76, 0xDCB5_0A2C, 0xEB88_1129, 0xA1DC_F1FE, 0xC8FB_5704, 0x9840_B948, 0xAD62_1EBE);
  }

  lemma Doublings6(n: nat)
    requires ZeroBits(UNIT, n) == 0x734D_5309
    ensures ZeroBits(UNIT, 16 * n) == 0xE94C_A9BC
  {
    hide ZeroBits;
    DoubleTo(n, 0x734D_5309, 0x959C_2927, 0x78C1_969F, 0xF4E2_761C, 0xCCC3_01A5, 0x5DE9_EAC9, 0x9776_62BB, 0xBB62_14E2,
             0xC82C_FF3D, 0x1769_01B3, 0xBE96_F037, 0x12F9_38A9, 0x5F44_6E38, 0x7D01_D489, 0, 0xED75_4BC2);
    DoubleTo(2 * n, 0xBC1A_C763, 0x3B22_E5C7, 0x722A_7A51, 0x177C_60CA, 0xA33C_73AA, 0xA878_729C, 0xC90A_A1ED, 0xDF43_4BB5,
             0x26D4_9BF1, 0xA445_AC5C, 0x2EF8_C194, 0x9055_4380, 0xF2A2_4A7F, 0xE9DB_10C2, 0x954A_DE49, 0xCF08_1381);
    DoubleTo(4 * n, 0x7D07_22CC, 0xC45D_54E8, 0x8EB3_EE36, 0x692D_AD81, 0x16CC_1DB7, 0x70F4_95D6, 0x66C9_DA3F, 0xF502_F2D6,
             0xAC94_86F4, 0xBEF8_5401, 0, 0xC0C8_A00A, 0xC63E_21A9, 0x9ECB_1E0D, 0xD75B_0C58, 0x8F83_8BBD);
    DoubleTo(8 * n, 0xD289_CABE, 0xEE18_34B1, 0x1EBF_4424, 0x4090_E9FE, 0xE739_A685, 0x5F56_40BB, 0xB7E0_16C2, 0x2BC3_8FB2,
             0x6211_3072, 0x7AFD_1090, 0x1EBF_4424, 0x8B0F_D205, 0x1653_4EBF, 0x8B0E_F651, 0x4F69_376E, 0xB624_90FF);
  }

  lemma Doublings7(n: nat)
    requires ZeroBits(UNIT, n) == 0xE94C_A9BC
    ensures ZeroBits(UNIT, 8 * n) == 0x4000_0000
  {
    hide ZeroBits;
    DoubleTo(n, 0xE94C_A9BC, 0xCD19_EC5F, 0xFFBF_F1B0, 0x0FFB_FF1B, 0xB2EA_CD38, 0x89D8_97AB, 0xBA88_FBB3, 0x3B4B_C60A,
             0xA7B9_D70D, 0x378A_79CE, 0x7FDF_F8D8, 0x8AF0_3BEE, 0x9E50_7E76, 0xF925_163C, 0x2130_6F8F, 0x26EE_250F);
    DoubleTo(2 * n, 0x05B7_4F3F, 0xF335_1B86, 0x6EF5_C2DA, 0xA4A4_E98B, 0xB85F_3C51, 0x1BDB_34AA, 0xA3F6_06EC, 0xC9B2_46AA,
             0, 0xA471_0877, 0xBB1B_2CF3, 0x4F52_5D48, 0xDED9_A550, 0xD036_2384, 0xBE75_7A1E, 0x45BC_9A44);
    DoubleTo(4 * n, 0xA51E_1F42, 0x2AEC_6F2A, 0xA0E5_7354, 0x4B75_4A89, 0x961F_A8BF, 0xFA0F_95FE, 0xEC90_5145, 0x5FEC_DFC7,
             0x0EAF_A3EA, 0x5150_A7CC, 0x96EA_9512, 0xBF9F_9BAB, 0xF1F3_5D0D, 0xE7B1_557D, 0xF4BE_13DA, 0xD476_1135);
  }

  lemma OneZero()
    ensures ZeroBits(UNIT, 1) == 0x4000_0000
  {
    assert ZeroBits(UNIT, 0) == UNIT;
    assert ZeroBits(UNIT, 1) == Step(ZeroBits(UNIT, 0));
  }

  /** 2^31 zero bits turn 1 into what one zero bit turns it into. */
  lemma UnitPeriod()
    ensures ZeroBits(UNIT, 0x8000_0000) == ZeroBits(UNIT, 1)
  {
    hide ZeroBits;
    OneZero();
    Doublings0(0x1);
    Doublings1(0x10);
    Doublings2(0x100);
    Doublings3(0x1000);
    Doublings4(0x10000);
    Doublings5(0x100000);
    Doublings6(0x1000000);
    Doublings7(0x10000000);
  }

  /** 2^31 zero bits do to every word what one does. */
  lemma Period(c: bv32)
    ensures ZeroBits(c, 0x8000_0000) == ZeroBits(c, 1)
  {
    hide ZeroBits, Product;
    UnitPeriod();
    ProductIsZeroBits(c, 0, 0x8000_0000);
    ProductIsZeroBits(c, 0, 1);
    UpNext(c, 0);
  }

  lemma {:induction false} ManyPeriods(c: bv32, j: nat)
    ensures ZeroBits(c, 0x8000_0000 * j) == ZeroBits(c, j)
  {
    hide ZeroBits;
    if j == 0 {
      NoBits(c);
    } else {
      ManyPeriods(c, j - 1);
      ZeroBitsAdd(c, 0x8000_0000 * (j - 1), 0x8000_0000);
      Period(ZeroBits(c, j - 1));
      ZeroBitsAdd(c, j - 1, 1);
    }
  }

  // ----- zero bits can be undone ---------------------------------------------------------------------------------

  lemma StepKernel(d: bv32)
    requires Step(d) == 0
    ensures d == 0
  {
  }

  lemma XorZeroBits(a: bv32, b: bv32)
    requires a ^ b == 0
    ensures a == b
  {
  }

  lemma XorZeroSame(a: bv32, b: bv32)
    requires Xor(a, b) == 0
    ensures a == b
  {
    XorZeroBits(a, b);
  }

  lemma {:induction false} ZeroBitsInjective(a: bv32, b: bv32, n: nat)
    requires ZeroBits(a, n) == ZeroBits(b, n)
    ensures a == b
  {
    hide Step, Xor;
    if n > 0 {
      var p, q := ZeroBits(a, n - 1), ZeroBits(b, n - 1);
      StepLinear(p, q);
      XorSelf(Step(p));
      StepKernel(Xor(p, q));
      XorZeroSame(p, q);
      ZeroBitsInjective(a, b, n - 1);
    }
  }

  lemma XorBackBits(c: bv32, d: bv32)
    ensures c ^ (c ^ d) == d
  {
  }

  lemma XorBack(c: bv32, d: bv32)
    ensures Xor(c, Xor(c, d)) == d
  {
    XorBackBits(c, d);
  }

  lemma XorUnchangedBits(r: bv32, z: bv32)
    requires r == r ^ z
    ensures z == 0
  {
  }

  lemma XorUnchanged(r: bv32, z: bv32)
    requires r == Xor(r, z)
    ensures z == 0
  {
    XorUnchangedBits(r, z);
  }

  /** Different starts stay different whatever follows. */
  lemma RawInjective(c: bv32, d: bv32, data: seq<byte>)
    requires Raw(c, data) == Raw(d, data)
    ensures c == d
  {
    hide Raw, Xor, ZeroBits;
    var z := Xor(c, d);
    RawLinear(c, z, data);
    XorBack(c, d);
    XorUnchanged(Raw(c, data), ZeroBits(z, 8 * |data|));
    ZeroStays(8 * |data|);
    ZeroBitsInjective(z, 0, 8 * |data|);
    XorZeroSame(c, d);
  }

  lemma UpdateInjective(r: bv32, b: byte, c: byte)
    requires Update(r, b) == Update(r, c)
    ensures b == c
  {
    hide Xor, ZeroBits, Word;
    ZeroBitsInjective(Xor(r, Word(b)), Xor(r, Word(c)), 8);
    XorCancel(Word(b), Word(c), r);
    XorCommutes(Word(b), r);
    XorCommutes(Word(c), r);
    WordInjective(b, c);
  }

  /** Changing one byte always changes the checksum. */
  lemma OneByteMatters(p: seq<byte>, b: byte, c: byte, t: seq<byte>, previous: bv32)
    requires Crc(p + [b] + t, previous) == Crc(p + [c] + t, previous)
    ensures b == c
  {
    hide Raw, Not, Update;
    var r := Raw(Not(previous), p);
    NotNot(Raw(Not(previous), p + [b] + t));
    NotNot(Raw(Not(previous), p + [c] + t));
    OneByteOn(Not(previous), p, b, t);
    OneByteOn(Not(previous), p, c, t);
    RawInjective(Update(r, b), Update(r, c), t);
    UpdateInjective(r, b, c);
  }

  lemma OneByteOn(start: bv32, p: seq<byte>, b: byte, t: seq<byte>)
    ensures Raw(start, p + [b] + t) == Raw(Update(Raw(start, p), b), t)
  {
    hide Update;
    RawAppend(start, p + [b], t);
    assert (p + [b])[..|p|] == p;
  }

  // ----- words that zero bits leave alone ------------------------------------------------------------------------

  /** Zero bits that leave every word alone: the prime 2^31 - 1. */
  const ORDER: nat := MERSENNE

  /** The only word but zero that a single zero bit leaves alone. */
  const FIXED: bv32 := 0xFCA4_2DAF

  /** n zero bits leave the word alone. */
  predicate Fixes(a: bv32, n: nat)
  {
    ZeroBits(a, n) == a
  }

  lemma FixedByOne(a: bv32)
    ensures Step(a) == a <==> a == 0 || a == FIXED
  {
  }

  lemma OneBit(a: bv32)
    ensures Fixes(a, 1) <==> a == 0 || a == FIXED
    ensures Fixes(a, 0)
  {
    hide Step;
    FixedByOne(a);
    assert ZeroBits(a, 0) == a;
  }

  lemma OrderFixes(a: bv32)
    ensures Fixes(a, ORDER)
  {
    hide ZeroBits;
    Period(a);
    ZeroBitsAdd(a, ORDER, 1);
    ZeroBitsInjective(ZeroBits(a, ORDER), a, 1);
  }

  lemma FixesDifference(a: bv32, m: nat, n: nat)
    requires n <= m && Fixes(a, m) && Fixes(a, n)
    ensures Fixes(a, m - n)
  {
    hide ZeroBits;
    ZeroBitsAdd(a, m - n, n);
    ZeroBitsInjective(ZeroBits(a, m - n), a, n);
  }

  lemma {:induction false} FixesMultiple(a: bv32, n: nat, k: nat)
    requires Fixes(a, n)
    ensures Fixes(a, n * k)
  {
    hide ZeroBits;
    if k == 0 {
      NoBits(a);
    } else {
      FixesMultiple(a, n, k - 1);
      ZeroBitsAdd(a, n * (k - 1), n);
      assert n * (k - 1) + n == n * k;
    }
  }

  /** Bezout: when some multiple of m is one more than a multiple of n, words fixed by m and by n are fixed by 1. */
  lemma FixesOne(a: bv32, m: nat, n: nat, u: nat, v: nat)
    requires Fixes(a, m) && Fixes(a, n) && m * u == n * v + 1
    ensures Fixes(a, 1)
  {
    hide Fixes;
    FixesMultiple(a, m, u);
    FixesMultiple(a, n, v);
    FixesDifference(a, m * u, n * v);
  }

  /** Which numbers of zero bits leave which words alone: multiples of 2^31 - 1 every word, others only two. */
  lemma FixesIff(a: bv32, m: nat)
    ensures Fixes(a, m) <==> m % ORDER == 0 || a == 0 || a == FIXED
  {
    hide Fixes;
    OneBit(a);
    OrderFixes(a);
    if m % ORDER == 0 {
      FixesMultiple(a, ORDER, m / ORDER);
    } else {
      var u, v := Invertible(m);
      if Fixes(a, m) { FixesOne(a, m, ORDER, u, v); }
    }
    if Fixes(a, 1) { FixesMultiple(a, 1, m); }
  }

  /** Bytes or bits: sixteen times as many zero bits leave the same words alone. */
  lemma SixteenTimes(a: bv32, m: nat)
    ensures Fixes(a, 16 * m) <==> Fixes(a, m)
  {
    hide ZeroBits;
    if Fixes(a, m) { FixesMultiple(a, m, 16); }
    if Fixes(a, 16 * m) {
      FixesMultiple(a, 16 * m, 0x800_0000);
      ManyPeriods(a, m);
    }
  }

  // ----- a length cut to 32 bits ---------------------------------------------------------------------------------

  /** When passing len modulo 2^32 to the combination of a and b does no harm. */
  predicate CutHarmless(a: bv32, b: bv32, len: nat)
  {
    var m := len / 0x1_0000_0000;
    || m == 0
    || (if len % 0x1_0000_0000 == 0 then b == Xor(a, ZeroBits(a, 16 * m))
        else m % ORDER == 0 || a == 0 || a == FIXED)
  }

  /** For every length, the cut length gives the right checksum exactly when the cut is harmless. */
  lemma CutLength(a: bv32, b: bv32, len: nat)
    ensures Combined(a, b, len % 0x1_0000_0000) == Combined(a, b, len) <==> CutHarmless(a, b, len)
  {
    hide ZeroBits, Xor, Fixes, CutHarmless;
    var m, r := len / 0x1_0000_0000, len % 0x1_0000_0000;
    CutSplit(a, len, m, r);
    if m == 0 {
      CutNothing(a, b, len);
    } else if r == 0 {
      CutAll(a, b, len, m);
    } else {
      CutSome(a, b, len, m, r);
    }
  }

  lemma CutSplit(a: bv32, len: nat, m: nat, r: nat)
    requires m == len / 0x1_0000_0000 && r == len % 0x1_0000_0000
    ensures ZeroBits(a, 8 * len) == ZeroBits(ZeroBits(a, 16 * m), 8 * r)
  {
    hide ZeroBits;
    assert 8 * len == 0x8000_0000 * (16 * m) + 8 * r;
    ManyPeriods(a, 16 * m);
    ZeroBitsAdd(a, 0x8000_0000 * (16 * m), 8 * r);
  }

  lemma CutNothing(a: bv32, b: bv32, len: nat)
    requires len < 0x1_0000_0000
    ensures len % 0x1_0000_0000 == len && CutHarmless(a, b, len)
  {
    hide ZeroBits, Xor;
  }

  lemma CutAll(a: bv32, b: bv32, len: nat, m: nat)
    requires m == len / 0x1_0000_0000 > 0 && len % 0x1_0000_0000 == 0
    requires ZeroBits(a, 8 * len) == ZeroBits(ZeroBits(a, 16 * m), 0)
    ensures Combined(a, b, 0) == Combined(a, b, len) <==> CutHarmless(a, b, len)
  {
    hide Xor;
    XorMove(a, ZeroBits(a, 16 * m), b);
  }

  lemma CutSome(a: bv32, b: bv32, len: nat, m: nat, r: nat)
    requires m == len / 0x1_0000_0000 > 0 && r == len % 0x1_0000_0000 > 0
    requires ZeroBits(a, 8 * len) == ZeroBits(ZeroBits(a, 16 * m), 8 * r)
    ensures Combined(a, b, r) == Combined(a, b, len) <==> CutHarmless(a, b, len)
  {
    hide ZeroBits, Xor;
    var c := ZeroBits(a, 16 * m);
    XorCancel(ZeroBits(a, 8 * r), ZeroBits(c, 8 * r), b);
    if ZeroBits(a, 8 * r) == ZeroBits(c, 8 * r) { ZeroBitsInjective(a, c, 8 * r); }
    SixteenTimes(a, m);
    FixesIff(a, m);
    CombinedUnfold(a, b, r);
    CombinedUnfold(a, b, len);
  }

  lemma XorCancelBits(p: bv32, q: bv32, b: bv32)
    ensures p ^ b == q ^ b <==> p == q
  {
  }

  lemma XorCancel(p: bv32, q: bv32, b: bv32)
    ensures Xor(p, b) == Xor(q, b) <==> p == q
  {
    XorCancelBits(p, q, b);
  }

  lemma XorMoveBits(a: bv32, z: bv32, b: bv32)
    ensures a == z ^ b <==> b == a ^ z
  {
  }

  lemma XorMove(a: bv32, z: bv32, b: bv32)
    ensures a == Xor(z, b) <==> b == Xor(a, z)
  {
    XorMoveBits(a, z, b);
  }
}
