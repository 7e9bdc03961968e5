/** The known answer of MD5 for the message "abc" (RFC 1321, appendix A.5), step by step. */
module Md5Vectors {
  import opened BlockHash
  import opened Md5

  const ABC: seq<bv8> := [0x61, 0x62, 0x63]

  /** The one block the message is padded to: its three bytes, a one bit, zeros, and 24 as the number of bits. */
  ghost predicate AbcBlock(b: seq<bv8>) {
    && |b| == 64 && b[0] == 0x61 && b[1] == 0x62 && b[2] == 0x63 && b[3] == 0x80
    && (forall i :: 4 <= i < 64 && i != 56 ==> b[i] == 0) && b[56] == 24
  }

  lemma Words(b: seq<bv8>)
    requires AbcBlock(b)
    ensures GetWord(b, 0) == 0x80636261 && GetWord(b, 56) == 24
    ensures forall k: nat :: k < 16 && k != 0 && k != 14 ==> GetWord(b, 4 * k) == 0
  {}

  lemma Rows0()
    ensures Index(0) == 0 && T(0) == 0xD76AA478 && Amount(0) == 7
    ensures Index(1) == 1 && T(1) == 0xE8C7B756 && Amount(1) == 12
    ensures Index(2) == 2 && T(2) == 0x242070DB && Amount(2) == 17
    ensures Index(3) == 3 && T(3) == 0xC1BDCEEE && Amount(3) == 22
    ensures Index(4) == 4 && T(4) == 0xF57C0FAF && Amount(4) == 7
    ensures Index(5) == 5 && T(5) == 0x4787C62A && Amount(5) == 12
    ensures Index(6) == 6 && T(6) == 0xA8304613 && Amount(6) == 17
    ensures Index(7) == 7 && T(7) == 0xFD469501 && Amount(7) == 22
  {}

  lemma Turns0()
    ensures TurnBy(Regs(0x67452301, 0xEFCDAB89, 0x98BADCFE, 0x10325476), 0, 0x80636261, 0xD76AA478, 7) ==
      Regs(0x10325476, 0xD6D117B4, 0xEFCDAB89, 0x98BADCFE)
    ensures TurnBy(Regs(0x10325476, 0xD6D117B4, 0xEFCDAB89, 0x98BADCFE), 1, 0x00000000, 0xE8C7B756, 12) ==
      Regs(0x98BADCFE, 0x344A8432, 0xD6D117B4, 0xEFCDAB89)
    ensures TurnBy(Regs(0x98BADCFE, 0x344A8432, 0xD6D117B4, 0xEFCDAB89), 2, 0x00000000, 0x242070DB, 17) ==
      Regs(0xEFCDAB89, 0x2F6FBD72, 0x344A8432, 0xD6D117B4)
    ensures TurnBy(Regs(0xEFCDAB89, 0x2F6FBD72, 0x344A8432, 0xD6D117B4), 3, 0x00000000, 0xC1BDCEEE, 22) ==
      Regs(0xD6D117B4, 0x7AD956F2, 0x2F6FBD72, 0x344A8432)
    ensures TurnBy(Regs(0xD6D117B4, 0x7AD956F2, 0x2F6FBD72, 0x344A8432), 4, 0x00000000, 0xF57C0FAF, 7) ==
      Regs(0x344A8432, 0xC73741EF, 0x7AD956F2, 0x2F6FBD72)
    ensures TurnBy(Regs(0x344A8432, 0xC73741EF, 0x7AD956F2, 0x2F6FBD72), 5, 0x00000000, 0x4787C62A, 12) ==
      Regs(0x2F6FBD72, 0x8BAC3051, 0xC73741EF, 0x7AD956F2)
    ensures TurnBy(Regs(0x2F6FBD72, 0x8BAC3051, 0xC73741EF, 0x7AD956F2), 6, 0x00000000, 0xA8304613, 17) ==
      Regs(0x7AD956F2, 0x207DC67B, 0x8BAC3051, 0xC73741EF)
    ensures TurnBy(Regs(0x7AD956F2, 0x207DC67B, 0x8BAC3051, 0xC73741EF), 7, 0x00000000, 0xFD469501, 22) ==
      Regs(0xC73741EF, 0x928D99F6, 0x207DC67B, 0x8BAC3051)
  {}

  lemma StepsTo8(r: Regs, b: seq<bv8>)
    requires AbcBlock(b) && r == Start()
    ensures Steps(r, b, 8) == Regs(0xC73741EF, 0x928D99F6, 0x207DC67B, 0x8BAC3051)
  {
    assert Steps(r, b, 0) == r;
    Words(b);
    Rows0();
    Turns0();
    OneMoreStep(r, b, 0);
    OneMoreStep(r, b, 1);
    OneMoreStep(r, b, 2);
    OneMoreStep(r, b, 3);
    OneMoreStep(r, b, 4);
    OneMoreStep(r, b, 5);
    OneMoreStep(r, b, 6);
    OneMoreStep(r, b, 7);
    hide Steps, TurnBy, GetWord, Index, T, Amount, AbcBlock;
  }

  lemma Rows8()
    ensures Index(8) == 8 && T(8) == 0x698098D8 && Amount(8) == 7
    ensures Index(9) == 9 && T(9) == 0x8B44F7AF && Amount(9) == 12
    ensures Index(10) == 10 && T(10) == 0xFFFF5BB1 && Amount(10) == 17
    ensures Index(11) == 11 && T(11) == 0x895CD7BE && Amount(11) == 22
    ensures Index(12) == 12 && T(12) == 0x6B901122 && Amount(12) == 7
    ensures Index(13) == 13 && T(13) == 0xFD987193 && Amount(13) == 12
    ensures Index(14) == 14 && T(14) == 0xA679438E && Amount(14) == 17
    ensures Index(15) == 15 && T(15) == 0x49B40821 && Amount(15) == 22
  {}

  lemma Turns8()
    ensures TurnBy(Regs(0xC73741EF, 0x928D99F6, 0x207DC67B, 0x8BAC3051), 8, 0x00000000, 0x698098D8, 7) ==
      Regs(0x8BAC3051, 0x854B3712, 0x928D99F6, 0x207DC67B)
    ensures TurnBy(Regs(0x8BAC3051, 0x854B3712, 0x928D99F6, 0x207DC67B), 9, 0x00000000, 0x8B44F7AF, 12) ==
      Regs(0x207DC67B, 0x74E2F284, 0x854B3712, 0x928D99F6)
    ensures TurnBy(Regs(0x207DC67B, 0x74E2F284, 0x854B3712, 0x928D99F6), 10, 0x00000000, 0xFFFF5BB1, 17) ==
      Regs(0x928D99F6, 0x3020401C, 0x74E2F284, 0x854B3712)
    ensures TurnBy(Regs(0x928D99F6, 0x3020401C, 0x74E2F284, 0x854B3712), 11, 0x00000000, 0x895CD7BE, 22) ==
      Regs(0x854B3712, 0x5ED49596, 0x3020401C, 0x74E2F284)
    ensures TurnBy(Regs(0x854B3712, 0x5ED49596, 0x3020401C, 0x74E2F284), 12, 0x00000000, 0x6B901122, 7) ==
      Regs(0x74E2F284, 0xDDA9B9A6, 0x5ED49596, 0x3020401C)
    ensures TurnBy(Regs(0x74E2F284, 0xDDA9B9A6, 0x5ED49596, 0x3020401C), 13, 0x00000000, 0xFD987193, 12) ==
      Regs(0x3020401C, 0xA1051895, 0xDDA9B9A6, 0x5ED49596)
    ensures TurnBy(Regs(0x3020401C, 0xA1051895, 0xDDA9B9A6, 0x5ED49596), 14, 0x00000018, 0xA679438E, 17) ==
      Regs(0x5ED49596, 0xE396856B, 0xA1051895, 0xDDA9B9A6)
    ensures TurnBy(Regs(0x5ED49596, 0xE396856B, 0xA1051895, 0xDDA9B9A6), 15, 0x00000000, 0x49B40821, 22) ==
      Regs(0xDDA9B9A6, 0x72AFF2E0, 0xE396856B, 0xA1051895)
  {}

  lemma StepsTo16(r: Regs, b: seq<bv8>)
    requires AbcBlock(b) && r == Start()
    ensures Steps(r, b, 16) == Regs(0xDDA9B9A6, 0x72AFF2E0, 0xE396856B, 0xA1051895)
  {
    StepsTo8(r, b);
    Words(b);
    Rows8();
    Turns8();
    OneMoreStep(r, b, 8);
    OneMoreStep(r, b, 9);
    OneMoreStep(r, b, 10);
    OneMoreStep(r, b, 11);
    OneMoreStep(r, b, 12);
    OneMoreStep(r, b, 13);
    OneMoreStep(r, b, 14);
    OneMoreStep(r, b, 15);
    hide Steps, TurnBy, GetWord, Index, T, Amount, AbcBlock;
  }

  lemma Rows16()
    ensures Index(16) == 1 && T(16) == 0xF61E2562 && Amount(16) == 5
    ensures Index(17) == 6 && T(17) == 0xC040B340 && Amount(17) == 9
    ensures Index(18) == 11 && T(18) == 0x265E5A51 && Amount(18) == 14
    ensures Index(19) == 0 && T(19) == 0xE9B6C7AA && Amount(19) == 20
    ensures Index(20) == 5 && T(20) == 0xD62F105D && Amount(20) == 5
    ensures Index(21) == 10 && T(21) == 0x02441453 && Amount(21) == 9
    ensures Index(22) == 15 && T(22) == 0xD8A1E681 && Amount(22) == 14
    ensures Index(23) == 4 && T(23) == 0xE7D3FBC8 && Amount(23) == 20
  {}

  lemma Turns16()
    ensures TurnBy(Regs(0xDDA9B9A6, 0x72AFF2E0, 0xE396856B, 0xA1051895), 16, 0x00000000, 0xF61E2562, 5) ==
      Regs(0xA1051895, 0x3E9E9126, 0x72AFF2E0, 0xE396856B)
    ensures TurnBy(Regs(0xA1051895, 0x3E9E9126, 0x72AFF2E0, 0xE396856B), 17, 0x00000000, 0xC040B340, 9) ==
      Regs(0xE396856B, 0x4A1D804E, 0x3E9E9126, 0x72AFF2E0)
    ensures TurnBy(Regs(0xE396856B, 0x4A1D804E, 0x3E9E9126, 0x72AFF2E0), 18, 0x00000000, 0x265E5A51, 14) ==
      Regs(0x72AFF2E0, 0xE25E1652, 0x4A1D804E, 0x3E9E9126)
    ensures TurnBy(Regs(0x72AFF2E0, 0xE25E1652, 0x4A1D804E, 0x3E9E9126), 19, 0x80636261, 0xE9B6C7AA, 20) ==
      Regs(0x3E9E9126, 0xB5B204E4, 0xE25E1652, 0x4A1D804E)
    ensures TurnBy(Regs(0x3E9E9126, 0xB5B204E4, 0xE25E1652, 0x4A1D804E), 20, 0x00000000, 0xD62F105D, 5) ==
      Regs(0x4A1D804E, 0x59A8FFDA, 0xB5B204E4, 0xE25E1652)
    ensures TurnBy(Regs(0x4A1D804E, 0x59A8FFDA, 0xB5B204E4, 0xE25E1652), 21, 0x00000000, 0x02441453, 9) ==
      Regs(0xE25E1652, 0x6D002F1E, 0x59A8FFDA, 0xB5B204E4)
    ensures TurnBy(Regs(0xE25E1652, 0x6D002F1E, 0x59A8FFDA, 0xB5B204E4), 22, 0x00000000, 0xD8A1E681, 14) ==
      Regs(0xB5B204E4, 0xABFC7920, 0x6D002F1E, 0x59A8FFDA)
    ensures TurnBy(Regs(0xB5B204E4, 0xABFC7920, 0x6D002F1E, 0x59A8FFDA), 23, 0x00000000, 0xE7D3FBC8, 20) ==
      Regs(0x59A8FFDA, 0x47092C07, 0xABFC7920, 0x6D002F1E)
  {}

  lemma StepsTo24(r: Regs, b: seq<bv8>)
    requires AbcBlock(b) && r == Start()
    ensures Steps(r, b, 24) == Regs(0x59A8FFDA, 0x47092C07, 0xABFC7920, 0x6D002F1E)
  {
    StepsTo16(r, b);
    Words(b);
    Rows16();
    Turns16();
    OneMoreStep(r, b, 16);
    OneMoreStep(r, b, 17);
    OneMoreStep(r, b, 18);
    OneMoreStep(r, b, 19);
    OneMoreStep(r, b, 20);
    OneMoreStep(r, b, 21);
    OneMoreStep(r, b, 22);
    OneMoreStep(r, b, 23);
    hide Steps, TurnBy, GetWord, Index, T, Amount, AbcBlock;
  }

  lemma Rows24()
    ensures Index(24) == 9 && T(24) == 0x21E1CDE6 && Amount(24) == 5
    ensures Index(25) == 14 && T(25) == 0xC33707D6 && Amount(25) == 9
    ensures Index(26) == 3 && T(26) == 0xF4D50D87 && Amount(26) == 14
    ensures Index(27) == 8 && T(27) == 0x455A14ED && Amount(27) == 20
    ensures Index(28) == 13 && T(28) == 0xA9E3E905 && Amount(28) == 5
    ensures Index(29) == 2 && T(29) == 0xFCEFA3F8 && Amount(29) == 9
    ensures Index(30) == 7 && T(30) == 0x676F02D9 && Amount(30) == 14
    ensures Index(31) == 12 && T(31) == 0x8D2A4C8A && Amount(31) == 20
  {}

  lemma Turns24()
    ensures TurnBy(Regs(0x59A8FFDA, 0x47092C07, 0xABFC7920, 0x6D002F1E), 24, 0x00000000, 0x21E1CDE6, 5) ==
      Regs(0x6D002F1E, 0xB7F268CF, 0x47092C07, 0xABFC7920)
    ensures TurnBy(Regs(0x6D002F1E, 0xB7F268CF, 0x47092C07, 0xABFC7920), 25, 0x00000018, 0xC33707D6, 9) ==
      Regs(0xABFC7920, 0x09388EFF, 0xB7F268CF, 0x47092C07)
    ensures TurnBy(Regs(0xABFC7920, 0x09388EFF, 0xB7F268CF, 0x47092C07), 26, 0x00000000, 0xF4D50D87, 14) ==
      Regs(0x47092C07, 0xFE1623B1, 0x09388EFF, 0xB7F268CF)
    ensures TurnBy(Regs(0x47092C07, 0xFE1623B1, 0x09388EFF, 0xB7F268CF), 27, 0x00000000, 0x455A14ED, 20) ==
      Regs(0xB7F268CF, 0x786ACB8F, 0xFE1623B1, 0x09388EFF)
    ensures TurnBy(Regs(0xB7F268CF, 0x786ACB8F, 0xFE1623B1, 0x09388EFF), 28, 0x00000000, 0xA9E3E905, 5) ==
      Regs(0x09388EFF, 0x790A77FB, 0x786ACB8F, 0xFE1623B1)
    ensures TurnBy(Regs(0x09388EFF, 0x790A77FB, 0x786ACB8F, 0xFE1623B1), 29, 0x00000000, 0xFCEFA3F8, 9) ==
      Regs(0xFE1623B1, 0x9F47E4F8, 0x790A77FB, 0x786ACB8F)
    ensures TurnBy(Regs(0xFE1623B1, 0x9F47E4F8, 0x790A77FB, 0x786ACB8F), 30, 0x00000000, 0x676F02D9, 14) ==
      Regs(0x786ACB8F, 0xA62884AA, 0x9F47E4F8, 0x790A77FB)
    ensures TurnBy(Regs(0x786ACB8F, 0xA62884AA, 0x9F47E4F8, 0x790A77FB), 31, 0x00000000, 0x8D2A4C8A, 20) ==
      Regs(0x790A77FB, 0x726342D3, 0xA62884AA, 0x9F47E4F8)
  {}

  lemma StepsTo32(r: Regs, b: seq<bv8>)
    requires AbcBlock(b) && r == Start()
    ensures Steps(r, b, 32) == Regs(0x790A77FB, 0x726342D3, 0xA62884AA, 0x9F47E4F8)
  {
    StepsTo24(r, b);
    Words(b);
    Rows24();
    Turns24();
    OneMoreStep(r, b, 24);
    OneMoreStep(r, b, 25);
    OneMoreStep(r, b, 26);
    OneMoreStep(r, b, 27);
    OneMoreStep(r, b, 28);
    OneMoreStep(r, b, 29);
    OneMoreStep(r, b, 30);
    OneMoreStep(r, b, 31);
    hide Steps, TurnBy, GetWord, Index, T, Amount, AbcBlock;
  }

  lemma Rows32()
    ensures Index(32) == 5 && T(32) == 0xFFFA3942 && Amount(32) == 4
    ensures Index(33) == 8 && T(33) == 0x8771F681 && Amount(33) == 11
    ensures Index(34) == 11 && T(34) == 0x6D9D6122 && Amount(34) == 16
    ensures Index(35) == 14 && T(35) == 0xFDE5380C && Amount(35) == 23
    ensures Index(36) == 1 && T(36) == 0xA4BEEA44 && Amount(36) == 4
    ensures Index(37) == 4 && T(37) == 0x4BDECFA9 && Amount(37) == 11
    ensures Index(38) == 7 && T(38) == 0xF6BB4B60 && Amount(38) == 16
    ensures Index(39) == 10 && T(39) == 0xBEBFBC70 && Amount(39) == 23
  {}

  lemma Turns32()
    ensures TurnBy(Regs(0x790A77FB, 0x726342D3, 0xA62884AA, 0x9F47E4F8), 32, 0x00000000, 0xFFFA3942, 4) ==
      Regs(0x9F47E4F8, 0xB3707EBF, 0x726342D3, 0xA62884AA)
    ensures TurnBy(Regs(0x9F47E4F8, 0xB3707EBF, 0x726342D3, 0xA62884AA), 33, 0x00000000, 0x8771F681, 11) ==
      Regs(0xA62884AA, 0x60127B2E, 0xB3707EBF, 0x726342D3)
    ensures TurnBy(Regs(0xA62884AA, 0x60127B2E, 0xB3707EBF, 0x726342D3), 34, 0x00000000, 0x6D9D6122, 16) ==
      Regs(0x726342D3, 0x8D212FF5, 0x60127B2E, 0xB3707EBF)
    ensures TurnBy(Regs(0x726342D3, 0x8D212FF5, 0x60127B2E, 0xB3707EBF), 35, 0x00000018, 0xFDE5380C, 23) ==
      Regs(0xB3707EBF, 0x3B0875C7, 0x8D212FF5, 0x60127B2E)
    ensures TurnBy(Regs(0xB3707EBF, 0x3B0875C7, 0x8D212FF5, 0x60127B2E), 36, 0x00000000, 0xA4BEEA44, 4) ==
      Regs(0x60127B2E, 0x21B117B9, 0x3B0875C7, 0x8D212FF5)
    ensures TurnBy(Regs(0x60127B2E, 0x21B117B9, 0x3B0875C7, 0x8D212FF5), 37, 0x00000000, 0x4BDECFA9, 11) ==
      Regs(0x8D212FF5, 0x6E7429D5, 0x21B117B9, 0x3B0875C7)
    ensures TurnBy(Regs(0x8D212FF5, 0x6E7429D5, 0x21B117B9, 0x3B0875C7), 38, 0x00000000, 0xF6BB4B60, 16) ==
      Regs(0x3B0875C7, 0x3575227E, 0x6E7429D5, 0x21B117B9)
    ensures TurnBy(Regs(0x3B0875C7, 0x3575227E, 0x6E7429D5, 0x21B117B9), 39, 0x00000000, 0xBEBFBC70, 23) ==
      Regs(0x21B117B9, 0x5A2F5EA5, 0x3575227E, 0x6E7429D5)
  {}

  lemma StepsTo40(r: Regs, b: seq<bv8>)
    requires AbcBlock(b) && r == Start()
    ensures Steps(r, b, 40) == Regs(0x21B117B9, 0x5A2F5EA5, 0x3575227E, 0x6E7429D5)
  {
    StepsTo32(r, b);
    Words(b);
    Rows32();
    Turns32();
    OneMoreStep(r, b, 32);
    OneMoreStep(r, b, 33);
    OneMoreStep(r, b, 34);
    OneMoreStep(r, b, 35);
    OneMoreStep(r, b, 36);
    OneMoreStep(r, b, 37);
    OneMoreStep(r, b, 38);
    OneMoreStep(r, b, 39);
    hide Steps, TurnBy, GetWord, Index, T, Amount, AbcBlock;
  }

  lemma Rows40()
    ensures Index(40) == 13 && T(40) == 0x289B7EC6 && Amount(40) == 4
    ensures Index(41) == 0 && T(41) == 0xEAA127FA && Amount(41) == 11
    ensures Index(42) == 3 && T(42) == 0xD4EF3085 && Amount(42) == 16
    ensures Index(43) == 6 && T(43) == 0x04881D05 && Amount(43) == 23
    ensures Index(44) == 9 && T(44) == 0xD9D4D039 && Amount(44) == 4
    ensures Index(45) == 12 && T(45) == 0xE6DB99E5 && Amount(45) == 11
    ensures Index(46) == 15 && T(46) == 0x1FA27CF8 && Amount(46) == 16
    ensures Index(47) == 2 && T(47) == 0xC4AC5665 && Amount(47) == 23
  {}

  lemma Turns40()
    ensures TurnBy(Regs(0x21B117B9, 0x5A2F5EA5, 0x3575227E, 0x6E7429D5), 40, 0x00000000, 0x289B7EC6, 4) ==
      Regs(0x6E7429D5, 0x11DE1779, 0x5A2F5EA5, 0x3575227E)
    ensures TurnBy(Regs(0x6E7429D5, 0x11DE1779, 0x5A2F5EA5, 0x3575227E), 41, 0x80636261, 0xEAA127FA, 11) ==
      Regs(0x3575227E, 0xFADCAA38, 0x11DE1779, 0x5A2F5EA5)
    ensures TurnBy(Regs(0x3575227E, 0xFADCAA38, 0x11DE1779, 0x5A2F5EA5), 42, 0x00000000, 0xD4EF3085, 16) ==
      Regs(0x5A2F5EA5, 0x31C465CA, 0xFADCAA38, 0x11DE1779)
    ensures TurnBy(Regs(0x5A2F5EA5, 0x31C465CA, 0xFADCAA38, 0x11DE1779), 43, 0x00000000, 0x04881D05, 23) ==
      Regs(0x11DE1779, 0x4C6124F4, 0x31C465CA, 0xFADCAA38)
    ensures TurnBy(Regs(0x11DE1779, 0x4C6124F4, 0x31C465CA, 0xFADCAA38), 44, 0x00000000, 0xD9D4D039, 4) ==
      Regs(0xFADCAA38, 0x7F2E507B, 0x4C6124F4, 0x31C465CA)
    ensures TurnBy(Regs(0xFADCAA38, 0x7F2E507B, 0x4C6124F4, 0x31C465CA), 45, 0x00000000, 0xE6DB99E5, 11) ==
      Regs(0x31C465CA, 0x99D9679D, 0x7F2E507B, 0x4C6124F4)
    ensures TurnBy(Regs(0x31C465CA, 0x99D9679D, 0x7F2E507B, 0x4C6124F4), 46, 0x00000000, 0x1FA27CF8, 16) ==
      Regs(0x4C6124F4, 0x8FAE6399, 0x99D9679D, 0x7F2E507B)
    ensures TurnBy(Regs(0x4C6124F4, 0x8FAE6399, 0x99D9679D, 0x7F2E507B), 47, 0x00000000, 0xC4AC5665, 23) ==
      Regs(0x7F2E507B, 0x7BEB9700, 0x8FAE6399, 0x99D9679D)
  {}

  lemma StepsTo48(r: Regs, b: seq<bv8>)
    requires AbcBlock(b) && r == Start()
    ensures Steps(r, b, 48) == Regs(0x7F2E507B, 0x7BEB9700, 0x8FAE6399, 0x99D9679D)
  {
    StepsTo40(r, b);
    Words(b);
    Rows40();
    Turns40();
    OneMoreStep(r, b, 40);
    OneMoreStep(r, b, 41);
    OneMoreStep(r, b, 42);
    OneMoreStep(r, b, 43);
    OneMoreStep(r, b, 44);
    OneMoreStep(r, b, 45);
    OneMoreStep(r, b, 46);
    OneMoreStep(r, b, 47);
    hide Steps, TurnBy, GetWord, Index, T, Amount, AbcBlock;
  }

  lemma Rows48()
    ensures Index(48) == 0 && T(48) == 0xF4292244 && Amount(48) == 6
    ensures Index(49) == 7 && T(49) == 0x432AFF97 && Amount(49) == 10
    ensures Index(50) == 14 && T(50) == 0xAB9423A7 && Amount(50) == 15
    ensures Index(51) == 5 && T(51) == 0xFC93A039 && Amount(51) == 21
    ensures Index(52) == 12 && T(52) == 0x655B59C3 && Amount(52) == 6
    ensures Index(53) == 3 && T(53) == 0x8F0CCC92 && Amount(53) == 10
    ensures Index(54) == 10 && T(54) == 0xFFEFF47D && Amount(54) == 15
    ensures Index(55) == 1 && T(55) == 0x85845DD1 && Amount(55) == 21
  {}

  lemma Turns48()
    ensures TurnBy(Regs(0x7F2E507B, 0x7BEB9700, 0x8FAE6399, 0x99D9679D), 48, 0x80636261, 0xF4292244, 6) ==
      Regs(0x99D9679D, 0x7B201DF8, 0x7BEB9700, 0x8FAE6399)
    ensures TurnBy(Regs(0x99D9679D, 0x7B201DF8, 0x7BEB9700, 0x8FAE6399), 49, 0x00000000, 0x432AFF97, 10) ==
      Regs(0x8FAE6399, 0xF4E8E96E, 0x7B201DF8, 0x7BEB9700)
    ensures TurnBy(Regs(0x8FAE6399, 0xF4E8E96E, 0x7B201DF8, 0x7BEB9700), 50, 0x00000018, 0xAB9423A7, 15) ==
      Regs(0x7BEB9700, 0xB298CEFD, 0xF4E8E96E, 0x7B201DF8)
    ensures TurnBy(Regs(0x7BEB9700, 0xB298CEFD, 0xF4E8E96E, 0x7B201DF8), 51, 0x00000000, 0xFC93A039, 21) ==
      Regs(0x7B201DF8, 0x8BF025C4, 0xB298CEFD, 0xF4E8E96E)
    ensures TurnBy(Regs(0x7B201DF8, 0x8BF025C4, 0xB298CEFD, 0xF4E8E96E), 52, 0x00000000, 0x655B59C3, 6) ==
      Regs(0xF4E8E96E, 0x06CC5E8A, 0x8BF025C4, 0xB298CEFD)
    ensures TurnBy(Regs(0xF4E8E96E, 0x06CC5E8A, 0x8BF025C4, 0xB298CEFD), 53, 0x00000000, 0x8F0CCC92, 10) ==
      Regs(0xB298CEFD, 0x5B0D97AA, 0x06CC5E8A, 0x8BF025C4)
    ensures TurnBy(Regs(0xB298CEFD, 0x5B0D97AA, 0x06CC5E8A, 0x8BF025C4), 54, 0x00000000, 0xFFEFF47D, 15) ==
      Regs(0x8BF025C4, 0x7D632DD0, 0x5B0D97AA, 0x06CC5E8A)
    ensures TurnBy(Regs(0x8BF025C4, 0x7D632DD0, 0x5B0D97AA, 0x06CC5E8A), 55, 0x00000000, 0x85845DD1, 21) ==
      Regs(0x06CC5E8A, 0x3BFA2C27, 0x7D632DD0, 0x5B0D97AA)
  {}

  lemma StepsTo56(r: Regs, b: seq<bv8>)
    requires AbcBlock(b) && r == Start()
    ensures Steps(r, b, 56) == Regs(0x06CC5E8A, 0x3BFA2C27, 0x7D632DD0, 0x5B0D97AA)
  {
    StepsTo48(r, b);
    Words(b);
    Rows48();
    Turns48();
    OneMoreStep(r, b, 48);
    OneMoreStep(r, b, 49);
    OneMoreStep(r, b, 50);
    OneMoreStep(r, b, 51);
    OneMoreStep(r, b, 52);
    OneMoreStep(r, b, 53);
    OneMoreStep(r, b, 54);
    OneMoreStep(r, b, 55);
    hide Steps, TurnBy, GetWord, Index, T, Amount, AbcBlock;
  }

  lemma Rows56()
    ensures Index(56) == 8 && T(56) == 0x6FA87E4F && Amount(56) == 6
    ensures Index(57) == 15 && T(57) == 0xFE2CE6E0 && Amount(57) == 10
    ensures Index(58) == 6 && T(58) == 0xA3014314 && Amount(58) == 15
    ensures Index(59) == 13 && T(59) == 0x4E0811A1 && Amount(59) == 21
    ensures Index(60) == 4 && T(60) == 0xF7537E82 && Amount(60) == 6
    ensures Index(61) == 11 && T(61) == 0xBD3AF235 && Amount(61) == 10
    ensures Index(62) == 2 && T(62) == 0x2AD7D2BB && Amount(62) == 15
    ensures Index(63) == 9 && T(63) == 0xEB86D391 && Amount(63) == 21
  {}

  lemma Turns56()
    ensures TurnBy(Regs(0x06CC5E8A, 0x3BFA2C27, 0x7D632DD0, 0x5B0D97AA), 56, 0x00000000, 0x6FA87E4F, 6) ==
      Regs(0x5B0D97AA, 0x7F81CC35, 0x3BFA2C27, 0x7D632DD0)
    ensures TurnBy(Regs(0x5B0D97AA, 0x7F81CC35, 0x3BFA2C27, 0x7D632DD0), 57, 0x00000000, 0xFE2CE6E0, 10) ==
      Regs(0x7D632DD0, 0x094454AB, 0x7F81CC35, 0x3BFA2C27)
    ensures TurnBy(Regs(0x7D632DD0, 0x094454AB, 0x7F81CC35, 0x3BFA2C27), 58, 0x00000000, 0xA3014314, 15) ==
      Regs(0x3BFA2C27, 0x4F9DBE3F, 0x094454AB, 0x7F81CC35)
    ensures TurnBy(Regs(0x3BFA2C27, 0x4F9DBE3F, 0x094454AB, 0x7F81CC35), 59, 0x00000000, 0x4E0811A1, 21) ==
      Regs(0x7F81CC35, 0x7327D604, 0x4F9DBE3F, 0x094454AB)
    ensures TurnBy(Regs(0x7F81CC35, 0x7327D604, 0x4F9DBE3F, 0x094454AB), 60, 0x00000000, 0xF7537E82, 6) ==
      Regs(0x094454AB, 0x310ADE8F, 0x7327D604, 0x4F9DBE3F)
    ensures TurnBy(Regs(0x094454AB, 0x310ADE8F, 0x7327D604, 0x4F9DBE3F), 61, 0x00000000, 0xBD3AF235, 10) ==
      Regs(0x4F9DBE3F, 0x624D8CB2, 0x310ADE8F, 0x7327D604)
    ensures TurnBy(Regs(0x4F9DBE3F, 0x624D8CB2, 0x310ADE8F, 0x7327D604), 62, 0x00000000, 0x2AD7D2BB, 15) ==
      Regs(0x7327D604, 0xE484B9D8, 0x624D8CB2, 0x310ADE8F)
    ensures TurnBy(Regs(0x7327D604, 0xE484B9D8, 0x624D8CB2, 0x310ADE8F), 63, 0x00000000, 0xEB86D391, 21) ==
      Regs(0x310ADE8F, 0xC08226B3, 0xE484B9D8, 0x624D8CB2)
  {}

  lemma StepsTo64(r: Regs, b: seq<bv8>)
    requires AbcBlock(b) && r == Start()
    ensures Steps(r, b, 64) == Regs(0x310ADE8F, 0xC08226B3, 0xE484B9D8, 0x624D8CB2)
  {
    StepsTo56(r, b);
    Words(b);
    Rows56();
    Turns56();
    OneMoreStep(r, b, 56);
    OneMoreStep(r, b, 57);
    OneMoreStep(r, b, 58);
    OneMoreStep(r, b, 59);
    OneMoreStep(r, b, 60);
    OneMoreStep(r, b, 61);
    OneMoreStep(r, b, 62);
    OneMoreStep(r, b, 63);
    hide Steps, TurnBy, GetWord, Index, T, Amount, AbcBlock;
  }

  lemma OneMoreStep(r: Regs, b: seq<bv8>, t: nat)
    ensures Steps(r, b, t + 1) == Turn(Steps(r, b, t), t, GetWord(b, 4 * Index(t)))
  {}

  lemma AbcPadded()
    ensures AbcBlock(Padded(ABC, LittleEndian64(24)))
  {
    assert ByteOf(0) == 0 && ByteOf(24) == 24;
    hide ByteOf;
    assert LittleEndian64(24) == [24, 0, 0, 0, 0, 0, 0, 0];
  }

  lemma Sums(x: Regs, y: Regs)
    requires x == Start() && y == Regs(0x310ADE8F, 0xC08226B3, 0xE484B9D8, 0x624D8CB2)
    ensures Sum(x, y) == Regs(0x98500190, 0xB04FD23C, 0x7D3F96D6, 0x727FE128)
  {}

  lemma Outputs()
    ensures Output(Regs(0x98500190, 0xB04FD23C, 0x7D3F96D6, 0x727FE128)) == [
      0x90, 0x01, 0x50, 0x98, 0x3C, 0xD2, 0x4F, 0xB0, 0xD6, 0x96, 0x3F, 0x7D, 0x28, 0xE1, 0x7F, 0x72]
  {}

  /** The digest of "abc". */
  lemma DigestOfAbc()
    ensures Digest(ABC) == [
      0x90, 0x01, 0x50, 0x98, 0x3C, 0xD2, 0x4F, 0xB0, 0xD6, 0x96, 0x3F, 0x7D, 0x28, 0xE1, 0x7F, 0x72]
  {
    var b := Padded(ABC, LittleEndian64(24));
    assert BitLength(ABC) == 24;
    AbcPadded();
    AbsorbOne(Compress, Start(), b);
    StepsTo64(Start(), b);
    Sums(Start(), Steps(Start(), b, 64));
    Outputs();
    hide Absorb, Start, Padded, LittleEndian64, Output, Steps, Sum, BitLength;
  }
}
