/** The byte table of the reflected CRC-32C polynomial, checked entry by entry. */
module CrcTable {
  import opened Words

  const POLY: bv32 := 0x82F63B78

  /** One bit of the reflected division. */
  function Step(c: bv32): bv32
  {
    if Odd(c) then Xor(Shr1(c), POLY) else Shr1(c)
  }

  function Steps8(c: bv32): bv32
  {
    Step(Step(Step(Step(Step(Step(Step(Step(c))))))))
  }

  /** Entry j of a table row. */
  function Of8(j: bv32, a0: bv32, a1: bv32, a2: bv32, a3: bv32, a4: bv32, a5: bv32, a6: bv32, a7: bv32): bv32
  {
    if j == 0 then a0 else if j == 1 then a1 else if j == 2 then a2 else if j == 3 then a3
    else if j == 4 then a4 else if j == 5 then a5 else if j == 6 then a6 else a7
  }

  /** Entries 0 to 31, given the row r and the place j in it. */
  function Part0(r: bv32, j: bv32): bv32
  {
    if r == 0 then Of8(j, 0x00000000, 0xF26B8303, 0xE13B70F7, 0x1350F3F4, 0xC79A971F, 0x35F1141C, 0x26A1E7E8, 0xD4CA64EB)
    else if r == 1 then Of8(j, 0x8AD958CF, 0x78B2DBCC, 0x6BE22838, 0x9989AB3B, 0x4D43CFD0, 0xBF284CD3, 0xAC78BF27, 0x5E133C24)
    else if r == 2 then Of8(j, 0x105EC76F, 0xE235446C, 0xF165B798, 0x030E349B, 0xD7C45070, 0x25AFD373, 0x36FF2087, 0xC494A384)
    else Of8(j, 0x9A879FA0, 0x68EC1CA3, 0x7BBCEF57, 0x89D76C54, 0x5D1D08BF, 0xAF768BBC, 0xBC267848, 0x4E4DFB4B)
  }

  /** Entries 32 to 63, given the row r and the place j in it. */
  function Part1(r: bv32, j: bv32): bv32
  {
    if r == 4 then Of8(j, 0x20BD8EDE, 0xD2D60DDD, 0xC186FE29, 0x33ED7D2A, 0xE72719C1, 0x154C9AC2, 0x061C6936, 0xF477EA35)
    else if r == 5 then Of8(j, 0xAA64D611, 0x580F5512, 0x4B5FA6E6, 0xB93425E5, 0x6DFE410E, 0x9F95C20D, 0x8CC531F9, 0x7EAEB2FA)
    else if r == 6 then Of8(j, 0x30E349B1, 0xC288CAB2, 0xD1D83946, 0x23B3BA45, 0xF779DEAE, 0x05125DAD, 0x1642AE59, 0xE4292D5A)
    else Of8(j, 0xBA3A117E, 0x4851927D, 0x5B016189, 0xA96AE28A, 0x7DA08661, 0x8FCB0562, 0x9C9BF696, 0x6EF07595)
  }

  /** Entries 64 to 95, given the row r and the place j in it. */
  function Part2(r: bv32, j: bv32): bv32
  {
    if r == 8 then Of8(j, 0x417B1DBC, 0xB3109EBF, 0xA0406D4B, 0x522BEE48, 0x86E18AA3, 0x748A09A0, 0x67DAFA54, 0x95B17957)
    else if r == 9 then Of8(j, 0xCBA24573, 0x39C9C670, 0x2A993584, 0xD8F2B687, 0x0C38D26C, 0xFE53516F, 0xED03A29B, 0x1F682198)
    else if r == 10 then Of8(j, 0x5125DAD3, 0xA34E59D0, 0xB01EAA24, 0x42752927, 0x96BF4DCC, 0x64D4CECF, 0x77843D3B, 0x85EFBE38)
    else Of8(j, 0xDBFC821C, 0x2997011F, 0x3AC7F2EB, 0xC8AC71E8, 0x1C661503, 0xEE0D9600, 0xFD5D65F4, 0x0F36E6F7)
  }

  /** Entries 96 to 127, given the row r and the place j in it. */
  function Part3(r: bv32, j: bv32): bv32
  {
    if r == 12 then Of8(j, 0x61C69362, 0x93AD1061, 0x80FDE395, 0x72966096, 0xA65C047D, 0x5437877E, 0x4767748A, 0xB50CF789)
    else if r == 13 then Of8(j, 0xEB1FCBAD, 0x197448AE, 0x0A24BB5A, 0xF84F3859, 0x2C855CB2, 0xDEEEDFB1, 0xCDBE2C45, 0x3FD5AF46)
    else if r == 14 then Of8(j, 0x7198540D, 0x83F3D70E, 0x90A324FA, 0x62C8A7F9, 0xB602C312, 0x44694011, 0x5739B3E5, 0xA55230E6)
    else Of8(j, 0xFB410CC2, 0x092A8FC1, 0x1A7A7C35, 0xE811FF36, 0x3CDB9BDD, 0xCEB018DE, 0xDDE0EB2A, 0x2F8B6829)
  }

  /** Entries 128 to 159, given the row r and the place j in it. */
  function Part4(r: bv32, j: bv32): bv32
  {
    if r == 16 then Of8(j, 0x82F63B78, 0x709DB87B, 0x63CD4B8F, 0x91A6C88C, 0x456CAC67, 0xB7072F64, 0xA457DC90, 0x563C5F93)
    else if r == 17 then Of8(j, 0x082F63B7, 0xFA44E0B4, 0xE9141340, 0x1B7F9043, 0xCFB5F4A8, 0x3DDE77AB, 0x2E8E845F, 0xDCE5075C)
    else if r == 18 then Of8(j, 0x92A8FC17, 0x60C37F14, 0x73938CE0, 0x81F80FE3, 0x55326B08, 0xA759E80B, 0xB4091BFF, 0x466298FC)
    else Of8(j, 0x1871A4D8, 0xEA1A27DB, 0xF94AD42F, 0x0B21572C, 0xDFEB33C7, 0x2D80B0C4, 0x3ED04330, 0xCCBBC033)
  }

  /** Entries 160 to 191, given the row r and the place j in it. */
  function Part5(r: bv32, j: bv32): bv32
  {
    if r == 20 then Of8(j, 0xA24BB5A6, 0x502036A5, 0x4370C551, 0xB11B4652, 0x65D122B9, 0x97BAA1BA, 0x84EA524E, 0x7681D14D)
    else if r == 21 then Of8(j, 0x2892ED69, 0xDAF96E6A, 0xC9A99D9E, 0x3BC21E9D, 0xEF087A76, 0x1D63F975, 0x0E330A81, 0xFC588982)
    else if r == 22 then Of8(j, 0xB21572C9, 0x407EF1CA, 0x532E023E, 0xA145813D, 0x758FE5D6, 0x87E466D5, 0x94B49521, 0x66DF1622)
    else Of8(j, 0x38CC2A06, 0xCAA7A905, 0xD9F75AF1, 0x2B9CD9F2, 0xFF56BD19, 0x0D3D3E1A, 0x1E6DCDEE, 0xEC064EED)
  }

  /** Entries 192 to 223, given the row r and the place j in it. */
  function Part6(r: bv32, j: bv32): bv32
  {
    if r == 24 then Of8(j, 0xC38D26C4, 0x31E6A5C7, 0x22B65633, 0xD0DDD530, 0x0417B1DB, 0xF67C32D8, 0xE52CC12C, 0x1747422F)
    else if r == 25 then Of8(j, 0x49547E0B, 0xBB3FFD08, 0xA86F0EFC, 0x5A048DFF, 0x8ECEE914, 0x7CA56A17, 0x6FF599E3, 0x9D9E1AE0)
    else if r == 26 then Of8(j, 0xD3D3E1AB, 0x21B862A8, 0x32E8915C, 0xC083125F, 0x144976B4, 0xE622F5B7, 0xF5720643, 0x07198540)
    else Of8(j, 0x590AB964, 0xAB613A67, 0xB831C993, 0x4A5A4A90, 0x9E902E7B, 0x6CFBAD78, 0x7FAB5E8C, 0x8DC0DD8F)
  }

  /** Entries 224 to 255, given the row r and the place j in it. */
  function Part7(r: bv32, j: bv32): bv32
  {
    if r == 28 then Of8(j, 0xE330A81A, 0x115B2B19, 0x020BD8ED, 0xF0605BEE, 0x24AA3F05, 0xD6C1BC06, 0xC5914FF2, 0x37FACCF1)
    else if r == 29 then Of8(j, 0x69E9F0D5, 0x9B8273D6, 0x88D28022, 0x7AB90321, 0xAE7367CA, 0x5C18E4C9, 0x4F48173D, 0xBD23943E)
    else if r == 30 then Of8(j, 0xF36E6F75, 0x0105EC76, 0x12551F82, 0xE03E9C81, 0x34F4F86A, 0xC69F7B69, 0xD5CF889D, 0x27A40B9E)
    else Of8(j, 0x79B737BA, 0x8BDCB4B9, 0x988C474D, 0x6AE7C44E, 0xBE2DA0A5, 0x4C4623A6, 0x5F16D052, 0xAD7D5351)
  }

  /** Entry x of the table, 0 <= x < 256. */
  function TableEntry(x: bv32): bv32
  {
    var r, j := x >> 3, x & 7;
    if r < 4 then Part0(r, j) else if r < 8 then Part1(r, j) else if r < 12 then Part2(r, j) else if r < 16 then Part3(r, j)
    else if r < 20 then Part4(r, j) else if r < 24 then Part5(r, j) else if r < 28 then Part6(r, j) else Part7(r, j)
  }

  // ----- the remainders behind the entries -----------------------------------------------------------------------

  lemma Remainders0()
    ensures Steps8(0) == 0x00000000 && Steps8(1) == 0xF26B8303 && Steps8(2) == 0xE13B70F7 && Steps8(3) == 0x1350F3F4 && Steps8(4) == 0xC79A971F && Steps8(5) == 0x35F1141C && Steps8(6) == 0x26A1E7E8 && Steps8(7) == 0xD4CA64EB
    ensures Steps8(8) == 0x8AD958CF && Steps8(9) == 0x78B2DBCC && Steps8(10) == 0x6BE22838 && Steps8(11) == 0x9989AB3B && Steps8(12) == 0x4D43CFD0 && Steps8(13) == 0xBF284CD3 && Steps8(14) == 0xAC78BF27 && Steps8(15) == 0x5E133C24
    ensures Steps8(16) == 0x105EC76F && Steps8(17) == 0xE235446C && Steps8(18) == 0xF165B798 && Steps8(19) == 0x030E349B && Steps8(20) == 0xD7C45070 && Steps8(21) == 0x25AFD373 && Steps8(22) == 0x36FF2087 && Steps8(23) == 0xC494A384
    ensures Steps8(24) == 0x9A879FA0 && Steps8(25) == 0x68EC1CA3 && Steps8(26) == 0x7BBCEF57 && Steps8(27) == 0x89D76C54 && Steps8(28) == 0x5D1D08BF && Steps8(29) == 0xAF768BBC && Steps8(30) == 0xBC267848 && Steps8(31) == 0x4E4DFB4B
  {
    hide Steps8;
    Remainders0Low();
    Remainders0High();
  }

  lemma Remainders0Low()
    ensures Steps8(0) == 0x00000000 && Steps8(1) == 0xF26B8303 && Steps8(2) == 0xE13B70F7 && Steps8(3) == 0x1350F3F4 && Steps8(4) == 0xC79A971F && Steps8(5) == 0x35F1141C && Steps8(6) == 0x26A1E7E8 && Steps8(7) == 0xD4CA64EB
    ensures Steps8(8) == 0x8AD958CF && Steps8(9) == 0x78B2DBCC && Steps8(10) == 0x6BE22838 && Steps8(11) == 0x9989AB3B && Steps8(12) == 0x4D43CFD0 && Steps8(13) == 0xBF284CD3 && Steps8(14) == 0xAC78BF27 && Steps8(15) == 0x5E133C24
  {
  }

  lemma Remainders0High()
    ensures Steps8(16) == 0x105EC76F && Steps8(17) == 0xE235446C && Steps8(18) == 0xF165B798 && Steps8(19) == 0x030E349B && Steps8(20) == 0xD7C45070 && Steps8(21) == 0x25AFD373 && Steps8(22) == 0x36FF2087 && Steps8(23) == 0xC494A384
    ensures Steps8(24) == 0x9A879FA0 && Steps8(25) == 0x68EC1CA3 && Steps8(26) == 0x7BBCEF57 && Steps8(27) == 0x89D76C54 && Steps8(28) == 0x5D1D08BF && Steps8(29) == 0xAF768BBC && Steps8(30) == 0xBC267848 && Steps8(31) == 0x4E4DFB4B
  {
  }

  lemma Remainders1()
    ensures Steps8(32) == 0x20BD8EDE && Steps8(33) == 0xD2D60DDD && Steps8(34) == 0xC186FE29 && Steps8(35) == 0x33ED7D2A && Steps8(36) == 0xE72719C1 && Steps8(37) == 0x154C9AC2 && Steps8(38) == 0x061C6936 && Steps8(39) == 0xF477EA35
    ensures Steps8(40) == 0xAA64D611 && Steps8(41) == 0x580F5512 && Steps8(42) == 0x4B5FA6E6 && Steps8(43) == 0xB93425E5 && Steps8(44) == 0x6DFE410E && Steps8(45) == 0x9F95C20D && Steps8(46) == 0x8CC531F9 && Steps8(47) == 0x7EAEB2FA
    ensures Steps8(48) == 0x30E349B1 && Steps8(49) == 0xC288CAB2 && Steps8(50) == 0xD1D83946 && Steps8(51) == 0x23B3BA45 && Steps8(52) == 0xF779DEAE && Steps8(53) == 0x05125DAD && Steps8(54) == 0x1642AE59 && Steps8(55) == 0xE4292D5A
    ensures Steps8(56) == 0xBA3A117E && Steps8(57) == 0x4851927D && Steps8(58) == 0x5B016189 && Steps8(59) == 0xA96AE28A && Steps8(60) == 0x7DA08661 && Steps8(61) == 0x8FCB0562 && Steps8(62) == 0x9C9BF696 && Steps8(63) == 0x6EF07595
  {
    hide Steps8;
    Remainders1Low();
    Remainders1High();
  }

  lemma Remainders1Low()
    ensures Steps8(32) == 0x20BD8EDE && Steps8(33) == 0xD2D60DDD && Steps8(34) == 0xC186FE29 && Steps8(35) == 0x33ED7D2A && Steps8(36) == 0xE72719C1 && Steps8(37) == 0x154C9AC2 && Steps8(38) == 0x061C6936 && Steps8(39) == 0xF477EA35
    ensures Steps8(40) == 0xAA64D611 && Steps8(41) == 0x580F5512 && Steps8(42) == 0x4B5FA6E6 && Steps8(43) == 0xB93425E5 && Steps8(44) == 0x6DFE410E && Steps8(45) == 0x9F95C20D && Steps8(46) == 0x8CC531F9 && Steps8(47) == 0x7EAEB2FA
  {
  }

  lemma Remainders1High()
    ensures Steps8(48) == 0x30E349B1 && Steps8(49) == 0xC288CAB2 && Steps8(50) == 0xD1D83946 && Steps8(51) == 0x23B3BA45 && Steps8(52) == 0xF779DEAE && Steps8(53) == 0x05125DAD && Steps8(54) == 0x1642AE59 && Steps8(55) == 0xE4292D5A
    ensures Steps8(56) == 0xBA3A117E && Steps8(57) == 0x4851927D && Steps8(58) == 0x5B016189 && Steps8(59) == 0xA96AE28A && Steps8(60) == 0x7DA08661 && Steps8(61) == 0x8FCB0562 && Steps8(62) == 0x9C9BF696 && Steps8(63) == 0x6EF07595
  {
  }

  lemma Remainders2()
    ensures Steps8(64) == 0x417B1DBC && Steps8(65) == 0xB3109EBF && Steps8(66) == 0xA0406D4B && Steps8(67) == 0x522BEE48 && Steps8(68) == 0x86E18AA3 && Steps8(69) == 0x748A09A0 && Steps8(70) == 0x67DAFA54 && Steps8(71) == 0x95B17957
    ensures Steps8(72) == 0xCBA24573 && Steps8(73) == 0x39C9C670 && Steps8(74) == 0x2A993584 && Steps8(75) == 0xD8F2B687 && Steps8(76) == 0x0C38D26C && Steps8(77) == 0xFE53516F && Steps8(78) == 0xED03A29B && Steps8(79) == 0x1F682198
    ensures Steps8(80) == 0x5125DAD3 && Steps8(81) == 0xA34E59D0 && Steps8(82) == 0xB01EAA24 && Steps8(83) == 0x42752927 && Steps8(84) == 0x96BF4DCC && Steps8(85) == 0x64D4CECF && Steps8(86) == 0x77843D3B && Steps8(87) == 0x85EFBE38
    ensures Steps8(88) == 0xDBFC821C && Steps8(89) == 0x2997011F && Steps8(90) == 0x3AC7F2EB && Steps8(91) == 0xC8AC71E8 && Steps8(92) == 0x1C661503 && Steps8(93) == 0xEE0D9600 && Steps8(94) == 0xFD5D65F4 && Steps8(95) == 0x0F36E6F7
  {
    hide Steps8;
    Remainders2Low();
    Remainders2High();
  }

  lemma Remainders2Low()
    ensures Steps8(64) == 0x417B1DBC && Steps8(65) == 0xB3109EBF && Steps8(66) == 0xA0406D4B && Steps8(67) == 0x522BEE48 && Steps8(68) == 0x86E18AA3 && Steps8(69) == 0x748A09A0 && Steps8(70) == 0x67DAFA54 && Steps8(71) == 0x95B17957
    ensures Steps8(72) == 0xCBA24573 && Steps8(73) == 0x39C9C670 && Steps8(74) == 0x2A993584 && Steps8(75) == 0xD8F2B687 && Steps8(76) == 0x0C38D26C && Steps8(77) == 0xFE53516F && Steps8(78) == 0xED03A29B && Steps8(79) == 0x1F682198
  {
  }

  lemma Remainders2High()
    ensures Steps8(80) == 0x5125DAD3 && Steps8(81) == 0xA34E59D0 && Steps8(82) == 0xB01EAA24 && Steps8(83) == 0x42752927 && Steps8(84) == 0x96BF4DCC && Steps8(85) == 0x64D4CECF && Steps8(86) == 0x77843D3B && Steps8(87) == 0x85EFBE38
    ensures Steps8(88) == 0xDBFC821C && Steps8(89) == 0x2997011F && Steps8(90) == 0x3AC7F2EB && Steps8(91) == 0xC8AC71E8 && Steps8(92) == 0x1C661503 && Steps8(93) == 0xEE0D9600 && Steps8(94) == 0xFD5D65F4 && Steps8(95) == 0x0F36E6F7
  {
  }

  lemma Remainders3()
    ensures Steps8(96) == 0x61C69362 && Steps8(97) == 0x93AD1061 && Steps8(98) == 0x80FDE395 && Steps8(99) == 0x72966096 && Steps8(100) == 0xA65C047D && Steps8(101) == 0x5437877E && Steps8(102) == 0x4767748A && Steps8(103) == 0xB50CF789
    ensures Steps8(104) == 0xEB1FCBAD && Steps8(105) == 0x197448AE && Steps8(106) == 0x0A24BB5A && Steps8(107) == 0xF84F3859 && Steps8(108) == 0x2C855CB2 && Steps8(109) == 0xDEEEDFB1 && Steps8(110) == 0xCDBE2C45 && Steps8(111) == 0x3FD5AF46
    ensures Steps8(112) == 0x7198540D && Steps8(113) == 0x83F3D70E && Steps8(114) == 0x90A324FA && Steps8(115) == 0x62C8A7F9 && Steps8(116) == 0xB602C312 && Steps8(117) == 0x44694011 && Steps8(118) == 0x5739B3E5 && Steps8(119) == 0xA55230E6
    ensures Steps8(120) == 0xFB410CC2 && Steps8(121) == 0x092A8FC1 && Steps8(122) == 0x1A7A7C35 && Steps8(123) == 0xE811FF36 && Steps8(124) == 0x3CDB9BDD && Steps8(125) == 0xCEB018DE && Steps8(126) == 0xDDE0EB2A && Steps8(127) == 0x2F8B6829
  {
    hide Steps8;
    Remainders3Low();
    Remainders3High();
  }

  lemma Remainders3Low()
    ensures Steps8(96) == 0x61C69362 && Steps8(97) == 0x93AD1061 && Steps8(98) == 0x80FDE395 && Steps8(99) == 0x72966096 && Steps8(100) == 0xA65C047D && Steps8(101) == 0x5437877E && Steps8(102) == 0x4767748A && Steps8(103) == 0xB50CF789
    ensures Steps8(104) == 0xEB1FCBAD && Steps8(105) == 0x197448AE && Steps8(106) == 0x0A24BB5A && Steps8(107) == 0xF84F3859 && Steps8(108) == 0x2C855CB2 && Steps8(109) == 0xDEEEDFB1 && Steps8(110) == 0xCDBE2C45 && Steps8(111) == 0x3FD5AF46
  {
  }

  lemma Remainders3High()
    ensures Steps8(112) == 0x7198540D && Steps8(113) == 0x83F3D70E && Steps8(114) == 0x90A324FA && Steps8(115) == 0x62C8A7F9 && Steps8(116) == 0xB602C312 && Steps8(117) == 0x44694011 && Steps8(118) == 0x5739B3E5 && Steps8(119) == 0xA55230E6
    ensures Steps8(120) == 0xFB410CC2 && Steps8(121) == 0x092A8FC1 && Steps8(122) == 0x1A7A7C35 && Steps8(123) == 0xE811FF36 && Steps8(124) == 0x3CDB9BDD && Steps8(125) == 0xCEB018DE && Steps8(126) == 0xDDE0EB2A && Steps8(127) == 0x2F8B6829
  {
  }

  lemma Remainders4()
    ensures Steps8(128) == 0x82F63B78 && Steps8(129) == 0x709DB87B && Steps8(130) == 0x63CD4B8F && Steps8(131) == 0x91A6C88C && Steps8(132) == 0x456CAC67 && Steps8(133) == 0xB7072F64 && Steps8(134) == 0xA457DC90 && Steps8(135) == 0x563C5F93
    ensures Steps8(136) == 0x082F63B7 && Steps8(137) == 0xFA44E0B4 && Steps8(138) == 0xE9141340 && Steps8(139) == 0x1B7F9043 && Steps8(140) == 0xCFB5F4A8 && Steps8(141) == 0x3DDE77AB && Steps8(142) == 0x2E8E845F && Steps8(143) == 0xDCE5075C
    ensures Steps8(144) == 0x92A8FC17 && Steps8(145) == 0x60C37F14 && Steps8(146) == 0x73938CE0 && Steps8(147) == 0x81F80FE3 && Steps8(148) == 0x55326B08 && Steps8(149) == 0xA759E80B && Steps8(150) == 0xB4091BFF && Steps8(151) == 0x466298FC
    ensures Steps8(152) == 0x1871A4D8 && Steps8(153) == 0xEA1A27DB && Steps8(154) == 0xF94AD42F && Steps8(155) == 0x0B21572C && Steps8(156) == 0xDFEB33C7 && Steps8(157) == 0x2D80B0C4 && Steps8(158) == 0x3ED04330 && Steps8(159) == 0xCCBBC033
  {
    hide Steps8;
    Remainders4Low();
    Remainders4High();
  }

  lemma Remainders4Low()
    ensures Steps8(128) == 0x82F63B78 && Steps8(129) == 0x709DB87B && Steps8(130) == 0x63CD4B8F && Steps8(131) == 0x91A6C88C && Steps8(132) == 0x456CAC67 && Steps8(133) == 0xB7072F64 && Steps8(134) == 0xA457DC90 && Steps8(135) == 0x563C5F93
    ensures Steps8(136) == 0x082F63B7 && Steps8(137) == 0xFA44E0B4 && Steps8(138) == 0xE9141340 && Steps8(139) == 0x1B7F9043 && Steps8(140) == 0xCFB5F4A8 && Steps8(141) == 0x3DDE77AB && Steps8(142) == 0x2E8E845F && Steps8(143) == 0xDCE5075C
  {
  }

  lemma Remainders4High()
    ensures Steps8(144) == 0x92A8FC17 && Steps8(145) == 0x60C37F14 && Steps8(146) == 0x73938CE0 && Steps8(147) == 0x81F80FE3 && Steps8(148) == 0x55326B08 && Steps8(149) == 0xA759E80B && Steps8(150) == 0xB4091BFF && Steps8(151) == 0x466298FC
    ensures Steps8(152) == 0x1871A4D8 && Steps8(153) == 0xEA1A27DB && Steps8(154) == 0xF94AD42F && Steps8(155) == 0x0B21572C && Steps8(156) == 0xDFEB33C7 && Steps8(157) == 0x2D80B0C4 && Steps8(158) == 0x3ED04330 && Steps8(159) == 0xCCBBC033
  {
  }

  lemma Remainders5()
    ensures Steps8(160) == 0xA24BB5A6 && Steps8(161) == 0x502036A5 && Steps8(162) == 0x4370C551 && Steps8(163) == 0xB11B4652 && Steps8(164) == 0x65D122B9 && Steps8(165) == 0x97BAA1BA && Steps8(166) == 0x84EA524E && Steps8(167) == 0x7681D14D
    ensures Steps8(168) == 0x2892ED69 && Steps8(169) == 0xDAF96E6A && Steps8(170) == 0xC9A99D9E && Steps8(171) == 0x3BC21E9D && Steps8(172) == 0xEF087A76 && Steps8(173) == 0x1D63F975 && Steps8(174) == 0x0E330A81 && Steps8(175) == 0xFC588982
    ensures Steps8(176) == 0xB21572C9 && Steps8(177) == 0x407EF1CA && Steps8(178) == 0x532E023E && Steps8(179) == 0xA145813D && Steps8(180) == 0x758FE5D6 && Steps8(181) == 0x87E466D5 && Steps8(182) == 0x94B49521 && Steps8(183) == 0x66DF1622
    ensures Steps8(184) == 0x38CC2A06 && Steps8(185) == 0xCAA7A905 && Steps8(186) == 0xD9F75AF1 && Steps8(187) == 0x2B9CD9F2 && Steps8(188) == 0xFF56BD19 && Steps8(189) == 0x0D3D3E1A && Steps8(190) == 0x1E6DCDEE && Steps8(191) == 0xEC064EED
  {
    hide Steps8;
    Remainders5Low();
    Remainders5High();
  }

  lemma Remainders5Low()
    ensures Steps8(160) == 0xA24BB5A6 && Steps8(161) == 0x502036A5 && Steps8(162) == 0x4370C551 && Steps8(163) == 0xB11B4652 && Steps8(164) == 0x65D122B9 && Steps8(165) == 0x97BAA1BA && Steps8(166) == 0x84EA524E && Steps8(167) == 0x7681D14D
    ensures Steps8(168) == 0x2892ED69 && Steps8(169) == 0xDAF96E6A && Steps8(170) == 0xC9A99D9E && Steps8(171) == 0x3BC21E9D && Steps8(172) == 0xEF087A76 && Steps8(173) == 0x1D63F975 && Steps8(174) == 0x0E330A81 && Steps8(175) == 0xFC588982
  {
  }

  lemma Remainders5High()
    ensures Steps8(176) == 0xB21572C9 && Steps8(177) == 0x407EF1CA && Steps8(178) == 0x532E023E && Steps8(179) == 0xA145813D && Steps8(180) == 0x758FE5D6 && Steps8(181) == 0x87E466D5 && Steps8(182) == 0x94B49521 && Steps8(183) == 0x66DF1622
    ensures Steps8(184) == 0x38CC2A06 && Steps8(185) == 0xCAA7A905 && Steps8(186) == 0xD9F75AF1 && Steps8(187) == 0x2B9CD9F2 && Steps8(188) == 0xFF56BD19 && Steps8(189) == 0x0D3D3E1A && Steps8(190) == 0x1E6DCDEE && Steps8(191) == 0xEC064EED
  {
  }

  lemma Remainders6()
    ensures Steps8(192) == 0xC38D26C4 && Steps8(193) == 0x31E6A5C7 && Steps8(194) == 0x22B65633 && Steps8(195) == 0xD0DDD530 && Steps8(196) == 0x0417B1DB && Steps8(197) == 0xF67C32D8 && Steps8(198) == 0xE52CC12C && Steps8(199) == 0x1747422F
    ensures Steps8(200) == 0x49547E0B && Steps8(201) == 0xBB3FFD08 && Steps8(202) == 0xA86F0EFC && Steps8(203) == 0x5A048DFF && Steps8(204) == 0x8ECEE914 && Steps8(205) == 0x7CA56A17 && Steps8(206) == 0x6FF599E3 && Steps8(207) == 0x9D9E1AE0
    ensures Steps8(208) == 0xD3D3E1AB && Steps8(209) == 0x21B862A8 && Steps8(210) == 0x32E8915C && Steps8(211) == 0xC083125F && Steps8(212) == 0x144976B4 && Steps8(213) == 0xE622F5B7 && Steps8(214) == 0xF5720643 && Steps8(215) == 0x07198540
    ensures Steps8(216) == 0x590AB964 && Steps8(217) == 0xAB613A67 && Steps8(218) == 0xB831C993 && Steps8(219) == 0x4A5A4A90 && Steps8(220) == 0x9E902E7B && Steps8(221) == 0x6CFBAD78 && Steps8(222) == 0x7FAB5E8C && Steps8(223) == 0x8DC0DD8F
  {
    hide Steps8;
    Remainders6Low();
    Remainders6High();
  }

  lemma Remainders6Low()
    ensures Steps8(192) == 0xC38D26C4 && Steps8(193) == 0x31E6A5C7 && Steps8(194) == 0x22B65633 && Steps8(195) == 0xD0DDD530 && Steps8(196) == 0x0417B1DB && Steps8(197) == 0xF67C32D8 && Steps8(198) == 0xE52CC12C && Steps8(199) == 0x1747422F
    ensures Steps8(200) == 0x49547E0B && Steps8(201) == 0xBB3FFD08 && Steps8(202) == 0xA86F0EFC && Steps8(203) == 0x5A048DFF && Steps8(204) == 0x8ECEE914 && Steps8(205) == 0x7CA56A17 && Steps8(206) == 0x6FF599E3 && Steps8(207) == 0x9D9E1AE0
  {
  }

  lemma Remainders6High()
    ensures Steps8(208) == 0xD3D3E1AB && Steps8(209) == 0x21B862A8 && Steps8(210) == 0x32E8915C && Steps8(211) == 0xC083125F && Steps8(212) == 0x144976B4 && Steps8(213) == 0xE622F5B7 && Steps8(214) == 0xF5720643 && Steps8(215) == 0x07198540
    ensures Steps8(216) == 0x590AB964 && Steps8(217) == 0xAB613A67 && Steps8(218) == 0xB831C993 && Steps8(219) == 0x4A5A4A90 && Steps8(220) == 0x9E902E7B && Steps8(221) == 0x6CFBAD78 && Steps8(222) == 0x7FAB5E8C && Steps8(223) == 0x8DC0DD8F
  {
  }

  lemma Remainders7()
    ensures Steps8(224) == 0xE330A81A && Steps8(225) == 0x115B2B19 && Steps8(226) == 0x020BD8ED && Steps8(227) == 0xF0605BEE && Steps8(228) == 0x24AA3F05 && Steps8(229) == 0xD6C1BC06 && Steps8(230) == 0xC5914FF2 && Steps8(231) == 0x37FACCF1
    ensures Steps8(232) == 0x69E9F0D5 && Steps8(233) == 0x9B8273D6 && Steps8(234) == 0x88D28022 && Steps8(235) == 0x7AB90321 && Steps8(236) == 0xAE7367CA && Steps8(237) == 0x5C18E4C9 && Steps8(238) == 0x4F48173D && Steps8(239) == 0xBD23943E
    ensures Steps8(240) == 0xF36E6F75 && Steps8(241) == 0x0105EC76 && Steps8(242) == 0x12551F82 && Steps8(243) == 0xE03E9C81 && Steps8(244) == 0x34F4F86A && Steps8(245) == 0xC69F7B69 && Steps8(246) == 0xD5CF889D && Steps8(247) == 0x27A40B9E
    ensures Steps8(248) == 0x79B737BA && Steps8(249) == 0x8BDCB4B9 && Steps8(250) == 0x988C474D && Steps8(251) == 0x6AE7C44E && Steps8(252) == 0xBE2DA0A5 && Steps8(253) == 0x4C4623A6 && Steps8(254) == 0x5F16D052 && Steps8(255) == 0xAD7D5351
  {
    hide Steps8;
    Remainders7Low();
    Remainders7High();
  }

  lemma Remainders7Low()
    ensures Steps8(224) == 0xE330A81A && Steps8(225) == 0x115B2B19 && Steps8(226) == 0x020BD8ED && Steps8(227) == 0xF0605BEE && Steps8(228) == 0x24AA3F05 && Steps8(229) == 0xD6C1BC06 && Steps8(230) == 0xC5914FF2 && Steps8(231) == 0x37FACCF1
    ensures Steps8(232) == 0x69E9F0D5 && Steps8(233) == 0x9B8273D6 && Steps8(234) == 0x88D28022 && Steps8(235) == 0x7AB90321 && Steps8(236) == 0xAE7367CA && Steps8(237) == 0x5C18E4C9 && Steps8(238) == 0x4F48173D && Steps8(239) == 0xBD23943E
  {
  }

  lemma Remainders7High()
    ensures Steps8(240) == 0xF36E6F75 && Steps8(241) == 0x0105EC76 && Steps8(242) == 0x12551F82 && Steps8(243) == 0xE03E9C81 && Steps8(244) == 0x34F4F86A && Steps8(245) == 0xC69F7B69 && Steps8(246) == 0xD5CF889D && Steps8(247) == 0x27A40B9E
    ensures Steps8(248) == 0x79B737BA && Steps8(249) == 0x8BDCB4B9 && Steps8(250) == 0x988C474D && Steps8(251) == 0x6AE7C44E && Steps8(252) == 0xBE2DA0A5 && Steps8(253) == 0x4C4623A6 && Steps8(254) == 0x5F16D052 && Steps8(255) == 0xAD7D5351
  {
  }

  lemma Rows0(x: bv32)
    requires x >> 5 == 0
    ensures TableEntry(x) == Steps8(x)
  {
    hide Steps8;
    Remainders0();
    assert x >> 3 == 0 ==> x == 0 || x == 1 || x == 2 || x == 3 || x == 4 || x == 5 || x == 6 || x == 7;
    assert x >> 3 == 1 ==> x == 8 || x == 9 || x == 10 || x == 11 || x == 12 || x == 13 || x == 14 || x == 15;
    assert x >> 3 == 2 ==> x == 16 || x == 17 || x == 18 || x == 19 || x == 20 || x == 21 || x == 22 || x == 23;
    assert x >> 3 == 3 ==> x == 24 || x == 25 || x == 26 || x == 27 || x == 28 || x == 29 || x == 30 || x == 31;
  }

  lemma Rows1(x: bv32)
    requires x >> 5 == 1
    ensures TableEntry(x) == Steps8(x)
  {
    hide Steps8;
    Remainders1();
    assert x >> 3 == 4 ==> x == 32 || x == 33 || x == 34 || x == 35 || x == 36 || x == 37 || x == 38 || x == 39;
    assert x >> 3 == 5 ==> x == 40 || x == 41 || x == 42 || x == 43 || x == 44 || x == 45 || x == 46 || x == 47;
    assert x >> 3 == 6 ==> x == 48 || x == 49 || x == 50 || x == 51 || x == 52 || x == 53 || x == 54 || x == 55;
    assert x >> 3 == 7 ==> x == 56 || x == 57 || x == 58 || x == 59 || x == 60 || x == 61 || x == 62 || x == 63;
  }

  lemma Rows2(x: bv32)
    requires x >> 5 == 2
    ensures TableEntry(x) == Steps8(x)
  {
    hide Steps8;
    Remainders2();
    assert x >> 3 == 8 ==> x == 64 || x == 65 || x == 66 || x == 67 || x == 68 || x == 69 || x == 70 || x == 71;
    assert x >> 3 == 9 ==> x == 72 || x == 73 || x == 74 || x == 75 || x == 76 || x == 77 || x == 78 || x == 79;
    assert x >> 3 == 10 ==> x == 80 || x == 81 || x == 82 || x == 83 || x == 84 || x == 85 || x == 86 || x == 87;
    assert x >> 3 == 11 ==> x == 88 || x == 89 || x == 90 || x == 91 || x == 92 || x == 93 || x == 94 || x == 95;
  }

  lemma Rows3(x: bv32)
    requires x >> 5 == 3
    ensures TableEntry(x) == Steps8(x)
  {
    hide Steps8;
    Remainders3();
    assert x >> 3 == 12 ==> x == 96 || x == 97 || x == 98 || x == 99 || x == 100 || x == 101 || x == 102 || x == 103;
    assert x >> 3 == 13 ==> x == 104 || x == 105 || x == 106 || x == 107 || x == 108 || x == 109 || x == 110 || x == 111;
    assert x >> 3 == 14 ==> x == 112 || x == 113 || x == 114 || x == 115 || x == 116 || x == 117 || x == 118 || x == 119;
    assert x >> 3 == 15 ==> x == 120 || x == 121 || x == 122 || x == 123 || x == 124 || x == 125 || x == 126 || x == 127;
  }

  lemma Rows4(x: bv32)
    requires x >> 5 == 4
    ensures TableEntry(x) == Steps8(x)
  {
    hide Steps8;
    Remainders4();
    assert x >> 3 == 16 ==> x == 128 || x == 129 || x == 130 || x == 131 || x == 132 || x == 133 || x == 134 || x == 135;
    assert x >> 3 == 17 ==> x == 136 || x == 137 || x == 138 || x == 139 || x == 140 || x == 141 || x == 142 || x == 143;
    assert x >> 3 == 18 ==> x == 144 || x == 145 || x == 146 || x == 147 || x == 148 || x == 149 || x == 150 || x == 151;
    assert x >> 3 == 19 ==> x == 152 || x == 153 || x == 154 || x == 155 || x == 156 || x == 157 || x == 158 || x == 159;
  }

  lemma Rows5(x: bv32)
    requires x >> 5 == 5
    ensures TableEntry(x) == Steps8(x)
  {
    hide Steps8;
    Remainders5();
    assert x >> 3 == 20 ==> x == 160 || x == 161 || x == 162 || x == 163 || x == 164 || x == 165 || x == 166 || x == 167;
    assert x >> 3 == 21 ==> x == 168 || x == 169 || x == 170 || x == 171 || x == 172 || x == 173 || x == 174 || x == 175;
    assert x >> 3 == 22 ==> x == 176 || x == 177 || x == 178 || x == 179 || x == 180 || x == 181 || x == 182 || x == 183;
    assert x >> 3 == 23 ==> x == 184 || x == 185 || x == 186 || x == 187 || x == 188 || x == 189 || x == 190 || x == 191;
  }

  lemma Rows6(x: bv32)
    requires x >> 5 == 6
    ensures TableEntry(x) == Steps8(x)
  {
    hide Steps8;
    Remainders6();
    assert x >> 3 == 24 ==> x == 192 || x == 193 || x == 194 || x == 195 || x == 196 || x == 197 || x == 198 || x == 199;
    assert x >> 3 == 25 ==> x == 200 || x == 201 || x == 202 || x == 203 || x == 204 || x == 205 || x == 206 || x == 207;
    assert x >> 3 == 26 ==> x == 208 || x == 209 || x == 210 || x == 211 || x == 212 || x == 213 || x == 214 || x == 215;
    assert x >> 3 == 27 ==> x == 216 || x == 217 || x == 218 || x == 219 || x == 220 || x == 221 || x == 222 || x == 223;
  }

  lemma Rows7(x: bv32)
    requires x >> 5 == 7
    ensures TableEntry(x) == Steps8(x)
  {
    hide Steps8;
    Remainders7();
    assert x >> 3 == 28 ==> x == 224 || x == 225 || x == 226 || x == 227 || x == 228 || x == 229 || x == 230 || x == 231;
    assert x >> 3 == 29 ==> x == 232 || x == 233 || x == 234 || x == 235 || x == 236 || x == 237 || x == 238 || x == 239;
    assert x >> 3 == 30 ==> x == 240 || x == 241 || x == 242 || x == 243 || x == 244 || x == 245 || x == 246 || x == 247;
    assert x >> 3 == 31 ==> x == 248 || x == 249 || x == 250 || x == 251 || x == 252 || x == 253 || x == 254 || x == 255;
  }

  /** Every entry of the table is the remainder of its index. */
  lemma TableIsRemainder(x: bv32)
    requires x < 256
    ensures TableEntry(x) == Steps8(x)
  {
    hide TableEntry, Steps8;
    if x >> 5 == 0 { Rows0(x); }
    if x >> 5 == 1 { Rows1(x); }
    if x >> 5 == 2 { Rows2(x); }
    if x >> 5 == 3 { Rows3(x); }
    if x >> 5 == 4 { Rows4(x); }
    if x >> 5 == 5 { Rows5(x); }
    if x >> 5 == 6 { Rows6(x); }
    if x >> 5 == 7 { Rows7(x); }
  }
}
