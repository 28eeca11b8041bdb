/** 32-bit words. The operations are named so that proofs can use their laws without looking at bits. */
module Words {
  import opened Bytes

  function Xor(a: bv32, b: bv32): bv32 { a ^ b }

  function Not(a: bv32): bv32 { !a }

  predicate Odd(x: bv32) { x & 1 == 1 }

  function Shr1(x: bv32): bv32 { x >> 1 }

  function Low8(x: bv32): bv32 { x & 0xFF }

  function High24(x: bv32): bv32 { x & 0xFFFF_FF00 }

  function Shr8(x: bv32): bv32 { x >> 8 }

  function Shl8(x: bv32): bv32 { x << 8 }

  function Shl16(x: bv32): bv32 { x << 16 }

  function Word(b: byte): (w: bv32)
    ensures w < 256
  {
    b as bv32
  }

  lemma XorCommutes(a: bv32, b: bv32)
    ensures Xor(a, b) == Xor(b, a)
  {
  }

  lemma XorBits(a: bv32, b: bv32, c: bv32)
    ensures (a ^ b) ^ c == a ^ (b ^ c)
  {
  }

  lemma XorAssociates(a: bv32, b: bv32, c: bv32)
    ensures Xor(Xor(a, b), c) == Xor(a, Xor(b, c))
  {
    XorBits(a, b, c);
  }

  /** The middle operands of a sum of four can change places. */
  lemma XorMiddle(a: bv32, b: bv32, c: bv32, d: bv32)
    ensures Xor(Xor(a, b), Xor(c, d)) == Xor(Xor(a, c), Xor(b, d))
  {
    hide Xor;
    XorAssociates(a, b, Xor(c, d));
    XorAssociates(b, c, d);
    XorCommutes(b, c);
    XorAssociates(c, b, d);
    XorAssociates(a, c, Xor(b, d));
  }

  lemma XorZero(a: bv32)
    ensures Xor(a, 0) == a && Xor(0, a) == a
  {
  }

  lemma XorSelf(a: bv32)
    ensures Xor(a, a) == 0
  {
  }

  lemma NotNot(a: bv32)
    ensures Not(Not(a)) == a
  {
  }

  lemma OddXor(a: bv32, b: bv32)
    ensures Odd(Xor(a, b)) <==> Odd(a) != Odd(b)
  {
  }

  lemma Shr1Bits(a: bv32, b: bv32)
    ensures (a ^ b) >> 1 == (a >> 1) ^ (b >> 1)
  {
  }

  lemma Shr1Xor(a: bv32, b: bv32)
    ensures Shr1(Xor(a, b)) == Xor(Shr1(a), Shr1(b))
  {
    Shr1Bits(a, b);
  }

  // ----- bytes as words ------------------------------------------------------------------------------------------

  /** The byte survives becoming a word. */
  predicate Survives(b: int)
    requires 0 <= b < 256
  {
    (b as bv32) as int == b
  }

  lemma Survive0()
    ensures Survives(0) && Survives(1) && Survives(2) && Survives(3) && Survives(4) && Survives(5) && Survives(6) && Survives(7)
    ensures Survives(8) && Survives(9) && Survives(10) && Survives(11) && Survives(12) && Survives(13) && Survives(14) && Survives(15)
    ensures Survives(16) && Survives(17) && Survives(18) && Survives(19) && Survives(20) && Survives(21) && Survives(22) && Survives(23)
    ensures Survives(24) && Survives(25) && Survives(26) && Survives(27) && Survives(28) && Survives(29) && Survives(30) && Survives(31)
    ensures Survives(32) && Survives(33) && Survives(34) && Survives(35) && Survives(36) && Survives(37) && Survives(38) && Survives(39)
    ensures Survives(40) && Survives(41) && Survives(42) && Survives(43) && Survives(44) && Survives(45) && Survives(46) && Survives(47)
    ensures Survives(48) && Survives(49) && Survives(50) && Survives(51) && Survives(52) && Survives(53) && Survives(54) && Survives(55)
    ensures Survives(56) && Survives(57) && Survives(58) && Survives(59) && Survives(60) && Survives(61) && Survives(62) && Survives(63)
  {
  }

  lemma Survive1()
    ensures Survives(64) && Survives(65) && Survives(66) && Survives(67) && Survives(68) && Survives(69) && Survives(70) && Survives(71)
    ensures Survives(72) && Survives(73) && Survives(74) && Survives(75) && Survives(76) && Survives(77) && Survives(78) && Survives(79)
    ensures Survives(80) && Survives(81) && Survives(82) && Survives(83) && Survives(84) && Survives(85) && Survives(86) && Survives(87)
    ensures Survives(88) && Survives(89) && Survives(90) && Survives(91) && Survives(92) && Survives(93) && Survives(94) && Survives(95)
    ensures Survives(96) && Survives(97) && Survives(98) && Survives(99) && Survives(100) && Survives(101) && Survives(102) && Survives(103)
    ensures Survives(104) && Survives(105) && Survives(106) && Survives(107) && Survives(108) && Survives(109) && Survives(110) && Survives(111)
    ensures Survives(112) && Survives(113) && Survives(114) && Survives(115) && Survives(116) && Survives(117) && Survives(118) && Survives(119)
    ensures Survives(120) && Survives(121) && Survives(122) && Survives(123) && Survives(124) && Survives(125) && Survives(126) && Survives(127)
  {
  }

  lemma Survive2()
    ensures Survives(128) && Survives(129) && Survives(130) && Survives(131) && Survives(132) && Survives(133) && Survives(134) && Survives(135)
    ensures Survives(136) && Survives(137) && Survives(138) && Survives(139) && Survives(140) && Survives(141) && Survives(142) && Survives(143)
    ensures Survives(144) && Survives(145) && Survives(146) && Survives(147) && Survives(148) && Survives(149) && Survives(150) && Survives(151)
    ensures Survives(152) && Survives(153) && Survives(154) && Survives(155) && Survives(156) && Survives(157) && Survives(158) && Survives(159)
    ensures Survives(160) && Survives(161) && Survives(162) && Survives(163) && Survives(164) && Survives(165) && Survives(166) && Survives(167)
    ensures Survives(168) && Survives(169) && Survives(170) && Survives(171) && Survives(172) && Survives(173) && Survives(174) && Survives(175)
    ensures Survives(176) && Survives(177) && Survives(178) && Survives(179) && Survives(180) && Survives(181) && Survives(182) && Survives(183)
    ensures Survives(184) && Survives(185) && Survives(186) && Survives(187) && Survives(188) && Survives(189) && Survives(190) && Survives(191)
  {
  }

  lemma Survive3()
    ensures Survives(192) && Survives(193) && Survives(194) && Survives(195) && Survives(196) && Survives(197) && Survives(198) && Survives(199)
    ensures Survives(200) && Survives(201) && Survives(202) && Survives(203) && Survives(204) && Survives(205) && Survives(206) && Survives(207)
    ensures Survives(208) && Survives(209) && Survives(210) && Survives(211) && Survives(212) && Survives(213) && Survives(214) && Survives(215)
    ensures Survives(216) && Survives(217) && Survives(218) && Survives(219) && Survives(220) && Survives(221) && Survives(222) && Survives(223)
    ensures Survives(224) && Survives(225) && Survives(226) && Survives(227) && Survives(228) && Survives(229) && Survives(230) && Survives(231)
    ensures Survives(232) && Survives(233) && Survives(234) && Survives(235) && Survives(236) && Survives(237) && Survives(238) && Survives(239)
    ensures Survives(240) && Survives(241) && Survives(242) && Survives(243) && Survives(244) && Survives(245) && Survives(246) && Survives(247)
    ensures Survives(248) && Survives(249) && Survives(250) && Survives(251) && Survives(252) && Survives(253) && Survives(254) && Survives(255)
  {
  }

  lemma Quarter0(b: byte)
    requires 0 <= b < 64
    ensures Survives(b)
  {
    hide Survives;
    Survive0();
  }

  lemma Quarter1(b: byte)
    requires 64 <= b < 128
    ensures Survives(b)
  {
    hide Survives;
    Survive1();
  }

  lemma Quarter2(b: byte)
    requires 128 <= b < 192
    ensures Survives(b)
  {
    hide Survives;
    Survive2();
  }

  lemma Quarter3(b: byte)
    requires 192 <= b < 256
    ensures Survives(b)
  {
    hide Survives;
    Survive3();
  }

  lemma AllSurvive(b: byte)
    ensures Survives(b)
  {
    hide Survives;
    if b < 64 {
      Quarter0(b);
    } else if b < 128 {
      Quarter1(b);
    } else if b < 192 {
      Quarter2(b);
    } else {
      Quarter3(b);
    }
  }

  lemma WordBack(b: byte)
    ensures Word(b) as int == b
  {
    AllSurvive(b);
  }

  lemma WordInjective(b: byte, c: byte)
    requires Word(b) == Word(c)
    ensures b == c
  {
    hide Word;
    WordBack(b);
    WordBack(c);
  }

  // ----- bytes of a word -----------------------------------------------------------------------------------------

  lemma Low8Small(x: bv32)
    ensures Low8(x) < 256
  {
  }

  lemma SplitBits(x: bv32)
    ensures x == (x & 0xFF) ^ (x & 0xFFFF_FF00)
  {
  }

  lemma SplitLow8(x: bv32)
    ensures x == Xor(Low8(x), High24(x))
  {
    SplitBits(x);
  }

  lemma HighHasNoLow(x: bv32)
    ensures Low8(High24(x)) == 0
  {
  }

  lemma ShiftHigh(x: bv32)
    ensures Shr8(High24(x)) == Shr8(x)
  {
  }

  lemma Shr8Bits(a: bv32, b: bv32)
    ensures (a ^ b) >> 8 == (a >> 8) ^ (b >> 8)
  {
  }

  lemma Shr8Xor(a: bv32, b: bv32)
    ensures Shr8(Xor(a, b)) == Xor(Shr8(a), Shr8(b))
  {
    Shr8Bits(a, b);
  }

  lemma ByteShiftsOut(w: bv32)
    requires w < 256
    ensures Shr8(w) == 0
  {
  }

  lemma Shl8Low(v: bv32)
    ensures Low8(Shl8(v)) == 0
  {
  }

  lemma Shl8Back(v: bv32)
    requires v < 0x1_0000
    ensures Shr8(Shl8(v)) == v
  {
  }

  lemma Shl16Low(v: bv32)
    ensures Low8(Shl16(v)) == 0
  {
  }

  lemma Shl16Back(v: bv32)
    requires v < 0x1_0000
    ensures Shr8(Shl16(v)) == Shl8(v)
  {
  }

  /** Low bits zero stay low bits zero, one fewer, after a shift. */
  lemma MaskBits(x: bv32, m: bv32)
    requires m & 1 == 1 && x & m == 0
    ensures x & 1 == 0 && (x >> 1) & (m >> 1) == 0
  {
  }

  predicate Clear(x: bv32, m: bv32) { x & m == 0 }

  lemma ClearStep(x: bv32, m: bv32)
    requires Odd(m) && Clear(x, m)
    ensures !Odd(x) && Clear(Shr1(x), Shr1(m))
  {
    MaskBits(x, m);
  }

  lemma EightShifts(x: bv32)
    ensures Shr1(Shr1(Shr1(Shr1(Shr1(Shr1(Shr1(Shr1(x)))))))) == Shr8(x)
  {
    EightShiftBits(x);
  }

  lemma EightShiftBits(x: bv32)
    ensures (((((((x >> 1) >> 1) >> 1) >> 1) >> 1) >> 1) >> 1) >> 1 == x >> 8
  {
  }

  // ----- little-endian loads -------------------------------------------------------------------------------------

  function Load16(b0: byte, b1: byte): bv32
  {
    Word(b0) | Shl8(Word(b1))
  }

  function Load32(b0: byte, b1: byte, b2: byte, b3: byte): bv32
  {
    Load16(b0, b1) | Shl16(Load16(b2, b3))
  }

  lemma OrBits8(u: bv32, v: bv32)
    requires u < 0x100
    ensures u | (v << 8) == u ^ (v << 8)
    ensures v < 0x100 ==> u | (v << 8) < 0x1_0000
  {
  }

  lemma OrBits16(u: bv32, v: bv32)
    requires u < 0x1_0000
    ensures u | (v << 16) == u ^ (v << 16)
  {
  }

  lemma Load16IsXor(b0: byte, b1: byte)
    ensures Load16(b0, b1) == Xor(Word(b0), Shl8(Word(b1)))
    ensures Load16(b0, b1) < 0x1_0000
  {
    hide Word;
    OrBits8(Word(b0), Word(b1));
  }

  lemma Load32IsXor(b0: byte, b1: byte, b2: byte, b3: byte)
    ensures Load32(b0, b1, b2, b3) == Xor(Load16(b0, b1), Shl16(Load16(b2, b3)))
  {
    hide Load16, Shl16, Xor;
    Load16IsXor(b0, b1);
    OrShl16(Load16(b0, b1), Load16(b2, b3));
  }

  lemma OrShl16(u: bv32, v: bv32)
    requires u < 0x1_0000
    ensures u | Shl16(v) == Xor(u, Shl16(v))
  {
    OrBits16(u, v);
  }
}
