/**
 The lookup table of CRC-24Q (cpukit/crc/crc24q.c), sixteen rows of sixteen entries, and the
 check that each of the 256 entries is what eight division steps on machine words leave.
 */
module Crc24qTable {
  function Row0(j: bv4): bv32 {
    match j
    case 0 => 0x000000 case 1 => 0x864CFB case 2 => 0x8AD50D case 3 => 0x0C99F6
    case 4 => 0x93E6E1 case 5 => 0x15AA1A case 6 => 0x1933EC case 7 => 0x9F7F17
    case 8 => 0xA18139 case 9 => 0x27CDC2 case 10 => 0x2B5434 case 11 => 0xAD18CF
    case 12 => 0x3267D8 case 13 => 0xB42B23 case 14 => 0xB8B2D5 case _ => 0x3EFE2E
  }

  function Row1(j: bv4): bv32 {
    match j
    case 0 => 0xC54E89 case 1 => 0x430272 case 2 => 0x4F9B84 case 3 => 0xC9D77F
    case 4 => 0x56A868 case 5 => 0xD0E493 case 6 => 0xDC7D65 case 7 => 0x5A319E
    case 8 => 0x64CFB0 case 9 => 0xE2834B case 10 => 0xEE1ABD case 11 => 0x685646
    case 12 => 0xF72951 case 13 => 0x7165AA case 14 => 0x7DFC5C case _ => 0xFBB0A7
  }

  function Row2(j: bv4): bv32 {
    match j
    case 0 => 0x0CD1E9 case 1 => 0x8A9D12 case 2 => 0x8604E4 case 3 => 0x00481F
    case 4 => 0x9F3708 case 5 => 0x197BF3 case 6 => 0x15E205 case 7 => 0x93AEFE
    case 8 => 0xAD50D0 case 9 => 0x2B1C2B case 10 => 0x2785DD case 11 => 0xA1C926
    case 12 => 0x3EB631 case 13 => 0xB8FACA case 14 => 0xB4633C case _ => 0x322FC7
  }

  function Row3(j: bv4): bv32 {
    match j
    case 0 => 0xC99F60 case 1 => 0x4FD39B case 2 => 0x434A6D case 3 => 0xC50696
    case 4 => 0x5A7981 case 5 => 0xDC357A case 6 => 0xD0AC8C case 7 => 0x56E077
    case 8 => 0x681E59 case 9 => 0xEE52A2 case 10 => 0xE2CB54 case 11 => 0x6487AF
    case 12 => 0xFBF8B8 case 13 => 0x7DB443 case 14 => 0x712DB5 case _ => 0xF7614E
  }

  function Row4(j: bv4): bv32 {
    match j
    case 0 => 0x19A3D2 case 1 => 0x9FEF29 case 2 => 0x9376DF case 3 => 0x153A24
    case 4 => 0x8A4533 case 5 => 0x0C09C8 case 6 => 0x00903E case 7 => 0x86DCC5
    case 8 => 0xB822EB case 9 => 0x3E6E10 case 10 => 0x32F7E6 case 11 => 0xB4BB1D
    case 12 => 0x2BC40A case 13 => 0xAD88F1 case 14 => 0xA11107 case _ => 0x275DFC
  }

  function Row5(j: bv4): bv32 {
    match j
    case 0 => 0xDCED5B case 1 => 0x5AA1A0 case 2 => 0x563856 case 3 => 0xD074AD
    case 4 => 0x4F0BBA case 5 => 0xC94741 case 6 => 0xC5DEB7 case 7 => 0x43924C
    case 8 => 0x7D6C62 case 9 => 0xFB2099 case 10 => 0xF7B96F case 11 => 0x71F594
    case 12 => 0xEE8A83 case 13 => 0x68C678 case 14 => 0x645F8E case _ => 0xE21375
  }

  function Row6(j: bv4): bv32 {
    match j
    case 0 => 0x15723B case 1 => 0x933EC0 case 2 => 0x9FA736 case 3 => 0x19EBCD
    case 4 => 0x8694DA case 5 => 0x00D821 case 6 => 0x0C41D7 case 7 => 0x8A0D2C
    case 8 => 0xB4F302 case 9 => 0x32BFF9 case 10 => 0x3E260F case 11 => 0xB86AF4
    case 12 => 0x2715E3 case 13 => 0xA15918 case 14 => 0xADC0EE case _ => 0x2B8C15
  }

  function Row7(j: bv4): bv32 {
    match j
    case 0 => 0xD03CB2 case 1 => 0x567049 case 2 => 0x5AE9BF case 3 => 0xDCA544
    case 4 => 0x43DA53 case 5 => 0xC596A8 case 6 => 0xC90F5E case 7 => 0x4F43A5
    case 8 => 0x71BD8B case 9 => 0xF7F170 case 10 => 0xFB6886 case 11 => 0x7D247D
    case 12 => 0xE25B6A case 13 => 0x641791 case 14 => 0x688E67 case _ => 0xEEC29C
  }

  function Row8(j: bv4): bv32 {
    match j
    case 0 => 0x3347A4 case 1 => 0xB50B5F case 2 => 0xB992A9 case 3 => 0x3FDE52
    case 4 => 0xA0A145 case 5 => 0x26EDBE case 6 => 0x2A7448 case 7 => 0xAC38B3
    case 8 => 0x92C69D case 9 => 0x148A66 case 10 => 0x181390 case 11 => 0x9E5F6B
    case 12 => 0x01207C case 13 => 0x876C87 case 14 => 0x8BF571 case _ => 0x0DB98A
  }

  function Row9(j: bv4): bv32 {
    match j
    case 0 => 0xF6092D case 1 => 0x7045D6 case 2 => 0x7CDC20 case 3 => 0xFA90DB
    case 4 => 0x65EFCC case 5 => 0xE3A337 case 6 => 0xEF3AC1 case 7 => 0x69763A
    case 8 => 0x578814 case 9 => 0xD1C4EF case 10 => 0xDD5D19 case 11 => 0x5B11E2
    case 12 => 0xC46EF5 case 13 => 0x42220E case 14 => 0x4EBBF8 case _ => 0xC8F703
  }

  function RowA(j: bv4): bv32 {
    match j
    case 0 => 0x3F964D case 1 => 0xB9DAB6 case 2 => 0xB54340 case 3 => 0x330FBB
    case 4 => 0xAC70AC case 5 => 0x2A3C57 case 6 => 0x26A5A1 case 7 => 0xA0E95A
    case 8 => 0x9E1774 case 9 => 0x185B8F case 10 => 0x14C279 case 11 => 0x928E82
    case 12 => 0x0DF195 case 13 => 0x8BBD6E case 14 => 0x872498 case _ => 0x016863
  }

  function RowB(j: bv4): bv32 {
    match j
    case 0 => 0xFAD8C4 case 1 => 0x7C943F case 2 => 0x700DC9 case 3 => 0xF64132
    case 4 => 0x693E25 case 5 => 0xEF72DE case 6 => 0xE3EB28 case 7 => 0x65A7D3
    case 8 => 0x5B59FD case 9 => 0xDD1506 case 10 => 0xD18CF0 case 11 => 0x57C00B
    case 12 => 0xC8BF1C case 13 => 0x4EF3E7 case 14 => 0x426A11 case _ => 0xC426EA
  }

  function RowC(j: bv4): bv32 {
    match j
    case 0 => 0x2AE476 case 1 => 0xACA88D case 2 => 0xA0317B case 3 => 0x267D80
    case 4 => 0xB90297 case 5 => 0x3F4E6C case 6 => 0x33D79A case 7 => 0xB59B61
    case 8 => 0x8B654F case 9 => 0x0D29B4 case 10 => 0x01B042 case 11 => 0x87FCB9
    case 12 => 0x1883AE case 13 => 0x9ECF55 case 14 => 0x9256A3 case _ => 0x141A58
  }

  function RowD(j: bv4): bv32 {
    match j
    case 0 => 0xEFAAFF case 1 => 0x69E604 case 2 => 0x657FF2 case 3 => 0xE33309
    case 4 => 0x7C4C1E case 5 => 0xFA00E5 case 6 => 0xF69913 case 7 => 0x70D5E8
    case 8 => 0x4E2BC6 case 9 => 0xC8673D case 10 => 0xC4FECB case 11 => 0x42B230
    case 12 => 0xDDCD27 case 13 => 0x5B81DC case 14 => 0x57182A case _ => 0xD154D1
  }

  function RowE(j: bv4): bv32 {
    match j
    case 0 => 0x26359F case 1 => 0xA07964 case 2 => 0xACE092 case 3 => 0x2AAC69
    case 4 => 0xB5D37E case 5 => 0x339F85 case 6 => 0x3F0673 case 7 => 0xB94A88
    case 8 => 0x87B4A6 case 9 => 0x01F85D case 10 => 0x0D61AB case 11 => 0x8B2D50
    case 12 => 0x145247 case 13 => 0x921EBC case 14 => 0x9E874A case _ => 0x18CBB1
  }

  function RowF(j: bv4): bv32 {
    match j
    case 0 => 0xE37B16 case 1 => 0x6537ED case 2 => 0x69AE1B case 3 => 0xEFE2E0
    case 4 => 0x709DF7 case 5 => 0xF6D10C case 6 => 0xFA48FA case 7 => 0x7C0401
    case 8 => 0x42FA2F case 9 => 0xC4B6D4 case 10 => 0xC82F22 case 11 => 0x4E63D9
    case 12 => 0xD11CCE case 13 => 0x575035 case 14 => 0x5BC9C3 case _ => 0xDD8538
  }

  /** Entry `i` of the table. */
  function Entry(i: bv8): bv32 {
    var j := (i & 0x0F) as bv4;
    match (i >> 4) as bv4
    case 0 => Row0(j) case 1 => Row1(j) case 2 => Row2(j) case 3 => Row3(j)
    case 4 => Row4(j) case 5 => Row5(j) case 6 => Row6(j) case 7 => Row7(j)
    case 8 => Row8(j) case 9 => Row9(j) case 10 => RowA(j) case 11 => RowB(j)
    case 12 => RowC(j) case 13 => RowD(j) case 14 => RowE(j) case _ => RowF(j)
  }

  /** Multiplication by x modulo the generator x^24 + 0x864CFB, on a word below 2^24. */
  function WordTimesX(w: bv32): bv32 {
    if w & 0x800000 != 0 then (w << 1) ^ 0x1864CFB else w << 1
  }

  function WordTimesX4(w: bv32): bv32 {
    WordTimesX(WordTimesX(WordTimesX(WordTimesX(w))))
  }

  /** Eight division steps on a byte placed at the top of the 24-bit register. */
  function ByteRemainder(i: bv8): bv32 {
    WordTimesX4(WordTimesX4((i as bv32) << 16))
  }

  lemma Row0Correct(j: bv4)
    ensures Row0(j) == ByteRemainder(0x00 | j as bv8)
  {
  }

  lemma Row1Correct(j: bv4)
    ensures Row1(j) == ByteRemainder(0x10 | j as bv8)
  {
  }

  lemma Row2Correct(j: bv4)
    ensures Row2(j) == ByteRemainder(0x20 | j as bv8)
  {
  }

  lemma Row3Correct(j: bv4)
    ensures Row3(j) == ByteRemainder(0x30 | j as bv8)
  {
  }

  lemma Row4Correct(j: bv4)
    ensures Row4(j) == ByteRemainder(0x40 | j as bv8)
  {
  }

  lemma Row5Correct(j: bv4)
    ensures Row5(j) == ByteRemainder(0x50 | j as bv8)
  {
  }

  lemma Row6Correct(j: bv4)
    ensures Row6(j) == ByteRemainder(0x60 | j as bv8)
  {
  }

  lemma Row7Correct(j: bv4)
    ensures Row7(j) == ByteRemainder(0x70 | j as bv8)
  {
  }

  lemma Row8Correct(j: bv4)
    ensures Row8(j) == ByteRemainder(0x80 | j as bv8)
  {
  }

  lemma Row9Correct(j: bv4)
    ensures Row9(j) == ByteRemainder(0x90 | j as bv8)
  {
  }

  lemma RowACorrect(j: bv4)
    ensures RowA(j) == ByteRemainder(0xA0 | j as bv8)
  {
  }

  lemma RowBCorrect(j: bv4)
    ensures RowB(j) == ByteRemainder(0xB0 | j as bv8)
  {
  }

  lemma RowCCorrect(j: bv4)
    ensures RowC(j) == ByteRemainder(0xC0 | j as bv8)
  {
  }

  lemma RowDCorrect(j: bv4)
    ensures RowD(j) == ByteRemainder(0xD0 | j as bv8)
  {
  }

  lemma RowECorrect(j: bv4)
    ensures RowE(j) == ByteRemainder(0xE0 | j as bv8)
  {
  }

  lemma RowFCorrect(j: bv4)
    ensures RowF(j) == ByteRemainder(0xF0 | j as bv8)
  {
  }

  /** Every one of the 256 table entries is the remainder of its index times x^24. */
  lemma EntryCorrect(i: bv8)
    ensures Entry(i) == ByteRemainder(i)
  {
    hide ByteRemainder;
    hide Row0, Row1, Row2, Row3, Row4, Row5, Row6, Row7, Row8, Row9, RowA, RowB, RowC, RowD, RowE, RowF;
    var j := (i & 0x0F) as bv4;
    match (i >> 4) as bv4
    case 0 => Row0Correct(j);
    case 1 => Row1Correct(j);
    case 2 => Row2Correct(j);
    case 3 => Row3Correct(j);
    case 4 => Row4Correct(j);
    case 5 => Row5Correct(j);
    case 6 => Row6Correct(j);
    case 7 => Row7Correct(j);
    case 8 => Row8Correct(j);
    case 9 => Row9Correct(j);
    case 10 => RowACorrect(j);
    case 11 => RowBCorrect(j);
    case 12 => RowCCorrect(j);
    case 13 => RowDCorrect(j);
    case 14 => RowECorrect(j);
    case _ => RowFCorrect(j);
  }
}
