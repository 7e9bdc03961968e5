/** The tables of SHA-256 and SHA-224, from the first primes (sections 4.2.2 and 5.3.2 of FIPS 180-2). */
module Sha256Tables {
  import opened Sha256
  import opened Sha256Vectors
  import opened SmallPrimes

  const WORDS: nat := 0x1_0000_0000

  /** c is the integer part of 2^32 times the cube root of p. */
  ghost predicate CubeRoot(c: nat, p: nat) {
    c * c * c <= p * 0x1_0000_0000_0000_0000_0000_0000 < (c + 1) * (c + 1) * (c + 1)
  }

  /** c is the integer part of 2^32 times the square root of p. */
  ghost predicate SquareRoot(c: nat, p: nat) {
    c * c <= p * 0x1_0000_0000_0000_0000 < (c + 1) * (c + 1)
  }

  /** c is the integer part of 2^64 times the square root of p. */
  ghost predicate LongSquareRoot(c: nat, p: nat) {
    c * c <= p * 0x1_0000_0000_0000_0000_0000_0000_0000_0000 < (c + 1) * (c + 1)
  }

  ghost predicate IsCubeConstant(k: Word, p: nat) {
    exists c: nat :: CubeRoot(c, p) && c % WORDS == k as int
  }

  lemma FirstRoots()
    ensures CubeRoot(0x1_428A_2F98, 2) && 0x1_428A_2F98 % WORDS == (0x428A2F98 as Word) as int
    ensures CubeRoot(0x1_7137_4491, 3) && 0x1_7137_4491 % WORDS == (0x71374491 as Word) as int
    ensures CubeRoot(0x1_B5C0_FBCF, 5) && 0x1_B5C0_FBCF % WORDS == (0xB5C0FBCF as Word) as int
    ensures CubeRoot(0x1_E9B5_DBA5, 7) && 0x1_E9B5_DBA5 % WORDS == (0xE9B5DBA5 as Word) as int
    ensures CubeRoot(0x2_3956_C25B, 11) && 0x2_3956_C25B % WORDS == (0x3956C25B as Word) as int
    ensures CubeRoot(0x2_59F1_11F1, 13) && 0x2_59F1_11F1 % WORDS == (0x59F111F1 as Word) as int
    ensures CubeRoot(0x2_923F_82A4, 17) && 0x2_923F_82A4 % WORDS == (0x923F82A4 as Word) as int
    ensures CubeRoot(0x2_AB1C_5ED5, 19) && 0x2_AB1C_5ED5 % WORDS == (0xAB1C5ED5 as Word) as int
  {}

  lemma FirstConstants(t: nat)
    requires t < 8
    ensures IsCubeConstant(K(t), Prime(t))
  {
    Constants0();
    FirstValues();
    FirstRoots();
    hide K, Prime, CubeRoot;
  }

  lemma SecondRoots()
    ensures CubeRoot(0x2_D807_AA98, 23) && 0x2_D807_AA98 % WORDS == (0xD807AA98 as Word) as int
    ensures CubeRoot(0x3_1283_5B01, 29) && 0x3_1283_5B01 % WORDS == (0x12835B01 as Word) as int
    ensures CubeRoot(0x3_2431_85BE, 31) && 0x3_2431_85BE % WORDS == (0x243185BE as Word) as int
    ensures CubeRoot(0x3_550C_7DC3, 37) && 0x3_550C_7DC3 % WORDS == (0x550C7DC3 as Word) as int
    ensures CubeRoot(0x3_72BE_5D74, 41) && 0x3_72BE_5D74 % WORDS == (0x72BE5D74 as Word) as int
    ensures CubeRoot(0x3_80DE_B1FE, 43) && 0x3_80DE_B1FE % WORDS == (0x80DEB1FE as Word) as int
    ensures CubeRoot(0x3_9BDC_06A7, 47) && 0x3_9BDC_06A7 % WORDS == (0x9BDC06A7 as Word) as int
    ensures CubeRoot(0x3_C19B_F174, 53) && 0x3_C19B_F174 % WORDS == (0xC19BF174 as Word) as int
  {}

  lemma SecondConstants(t: nat)
    requires 8 <= t < 16
    ensures IsCubeConstant(K(t), Prime(t))
  {
    Constants8();
    SecondValues();
    SecondRoots();
    hide K, Prime, CubeRoot;
  }

  lemma ThirdRoots()
    ensures CubeRoot(0x3_E49B_69C1, 59) && 0x3_E49B_69C1 % WORDS == (0xE49B69C1 as Word) as int
    ensures CubeRoot(0x3_EFBE_4786, 61) && 0x3_EFBE_4786 % WORDS == (0xEFBE4786 as Word) as int
    ensures CubeRoot(0x4_0FC1_9DC6, 67) && 0x4_0FC1_9DC6 % WORDS == (0x0FC19DC6 as Word) as int
    ensures CubeRoot(0x4_240C_A1CC, 71) && 0x4_240C_A1CC % WORDS == (0x240CA1CC as Word) as int
    ensures CubeRoot(0x4_2DE9_2C6F, 73) && 0x4_2DE9_2C6F % WORDS == (0x2DE92C6F as Word) as int
    ensures CubeRoot(0x4_4A74_84AA, 79) && 0x4_4A74_84AA % WORDS == (0x4A7484AA as Word) as int
    ensures CubeRoot(0x4_5CB0_A9DC, 83) && 0x4_5CB0_A9DC % WORDS == (0x5CB0A9DC as Word) as int
    ensures CubeRoot(0x4_76F9_88DA, 89) && 0x4_76F9_88DA % WORDS == (0x76F988DA as Word) as int
  {}

  lemma ThirdConstants(t: nat)
    requires 16 <= t < 24
    ensures IsCubeConstant(K(t), Prime(t))
  {
    Constants16();
    ThirdValues();
    ThirdRoots();
    hide K, Prime, CubeRoot;
  }

  lemma FourthRoots()
    ensures CubeRoot(0x4_983E_5152, 97) && 0x4_983E_5152 % WORDS == (0x983E5152 as Word) as int
    ensures CubeRoot(0x4_A831_C66D, 101) && 0x4_A831_C66D % WORDS == (0xA831C66D as Word) as int
    ensures CubeRoot(0x4_B003_27C8, 103) && 0x4_B003_27C8 % WORDS == (0xB00327C8 as Word) as int
    ensures CubeRoot(0x4_BF59_7FC7, 107) && 0x4_BF59_7FC7 % WORDS == (0xBF597FC7 as Word) as int
    ensures CubeRoot(0x4_C6E0_0BF3, 109) && 0x4_C6E0_0BF3 % WORDS == (0xC6E00BF3 as Word) as int
    ensures CubeRoot(0x4_D5A7_9147, 113) && 0x4_D5A7_9147 % WORDS == (0xD5A79147 as Word) as int
    ensures CubeRoot(0x5_06CA_6351, 127) && 0x5_06CA_6351 % WORDS == (0x06CA6351 as Word) as int
    ensures CubeRoot(0x5_1429_2967, 131) && 0x5_1429_2967 % WORDS == (0x14292967 as Word) as int
  {}

  lemma FourthConstants(t: nat)
    requires 24 <= t < 32
    ensures IsCubeConstant(K(t), Prime(t))
  {
    Constants24();
    FourthValues();
    FourthRoots();
    hide K, Prime, CubeRoot;
  }

  lemma FifthRoots()
    ensures CubeRoot(0x5_27B7_0A85, 137) && 0x5_27B7_0A85 % WORDS == (0x27B70A85 as Word) as int
    ensures CubeRoot(0x5_2E1B_2138, 139) && 0x5_2E1B_2138 % WORDS == (0x2E1B2138 as Word) as int
    ensures CubeRoot(0x5_4D2C_6DFC, 149) && 0x5_4D2C_6DFC % WORDS == (0x4D2C6DFC as Word) as int
    ensures CubeRoot(0x5_5338_0D13, 151) && 0x5_5338_0D13 % WORDS == (0x53380D13 as Word) as int
    ensures CubeRoot(0x5_650A_7354, 157) && 0x5_650A_7354 % WORDS == (0x650A7354 as Word) as int
    ensures CubeRoot(0x5_766A_0ABB, 163) && 0x5_766A_0ABB % WORDS == (0x766A0ABB as Word) as int
    ensures CubeRoot(0x5_81C2_C92E, 167) && 0x5_81C2_C92E % WORDS == (0x81C2C92E as Word) as int
    ensures CubeRoot(0x5_9272_2C85, 173) && 0x5_9272_2C85 % WORDS == (0x92722C85 as Word) as int
  {}

  lemma FifthConstants(t: nat)
    requires 32 <= t < 40
    ensures IsCubeConstant(K(t), Prime(t))
  {
    Constants32();
    FifthValues();
    FifthRoots();
    hide K, Prime, CubeRoot;
  }

  lemma SixthRoots()
    ensures CubeRoot(0x5_A2BF_E8A1, 179) && 0x5_A2BF_E8A1 % WORDS == (0xA2BFE8A1 as Word) as int
    ensures CubeRoot(0x5_A81A_664B, 181) && 0x5_A81A_664B % WORDS == (0xA81A664B as Word) as int
    ensures CubeRoot(0x5_C24B_8B70, 191) && 0x5_C24B_8B70 % WORDS == (0xC24B8B70 as Word) as int
    ensures CubeRoot(0x5_C76C_51A3, 193) && 0x5_C76C_51A3 % WORDS == (0xC76C51A3 as Word) as int
    ensures CubeRoot(0x5_D192_E819, 197) && 0x5_D192_E819 % WORDS == (0xD192E819 as Word) as int
    ensures CubeRoot(0x5_D699_0624, 199) && 0x5_D699_0624 % WORDS == (0xD6990624 as Word) as int
    ensures CubeRoot(0x5_F40E_3585, 211) && 0x5_F40E_3585 % WORDS == (0xF40E3585 as Word) as int
    ensures CubeRoot(0x6_106A_A070, 223) && 0x6_106A_A070 % WORDS == (0x106AA070 as Word) as int
  {}

  lemma SixthConstants(t: nat)
    requires 40 <= t < 48
    ensures IsCubeConstant(K(t), Prime(t))
  {
    Constants40();
    SixthValues();
    SixthRoots();
    hide K, Prime, CubeRoot;
  }

  lemma SeventhRoots()
    ensures CubeRoot(0x6_19A4_C116, 227) && 0x6_19A4_C116 % WORDS == (0x19A4C116 as Word) as int
    ensures CubeRoot(0x6_1E37_6C08, 229) && 0x6_1E37_6C08 % WORDS == (0x1E376C08 as Word) as int
    ensures CubeRoot(0x6_2748_774C, 233) && 0x6_2748_774C % WORDS == (0x2748774C as Word) as int
    ensures CubeRoot(0x6_34B0_BCB5, 239) && 0x6_34B0_BCB5 % WORDS == (0x34B0BCB5 as Word) as int
    ensures CubeRoot(0x6_391C_0CB3, 241) && 0x6_391C_0CB3 % WORDS == (0x391C0CB3 as Word) as int
    ensures CubeRoot(0x6_4ED8_AA4A, 251) && 0x6_4ED8_AA4A % WORDS == (0x4ED8AA4A as Word) as int
    ensures CubeRoot(0x6_5B9C_CA4F, 257) && 0x6_5B9C_CA4F % WORDS == (0x5B9CCA4F as Word) as int
    ensures CubeRoot(0x6_682E_6FF3, 263) && 0x6_682E_6FF3 % WORDS == (0x682E6FF3 as Word) as int
  {}

  lemma SeventhConstants(t: nat)
    requires 48 <= t < 56
    ensures IsCubeConstant(K(t), Prime(t))
  {
    Constants48();
    SeventhValues();
    SeventhRoots();
    hide K, Prime, CubeRoot;
  }

  lemma EighthRoots()
    ensures CubeRoot(0x6_748F_82EE, 269) && 0x6_748F_82EE % WORDS == (0x748F82EE as Word) as int
    ensures CubeRoot(0x6_78A5_636F, 271) && 0x6_78A5_636F % WORDS == (0x78A5636F as Word) as int
    ensures CubeRoot(0x6_84C8_7814, 277) && 0x6_84C8_7814 % WORDS == (0x84C87814 as Word) as int
    ensures CubeRoot(0x6_8CC7_0208, 281) && 0x6_8CC7_0208 % WORDS == (0x8CC70208 as Word) as int
    ensures CubeRoot(0x6_90BE_FFFA, 283) && 0x6_90BE_FFFA % WORDS == (0x90BEFFFA as Word) as int
    ensures CubeRoot(0x6_A450_6CEB, 293) && 0x6_A450_6CEB % WORDS == (0xA4506CEB as Word) as int
    ensures CubeRoot(0x6_BEF9_A3F7, 307) && 0x6_BEF9_A3F7 % WORDS == (0xBEF9A3F7 as Word) as int
    ensures CubeRoot(0x6_C671_78F2, 311) && 0x6_C671_78F2 % WORDS == (0xC67178F2 as Word) as int
  {}

  lemma EighthConstants(t: nat)
    requires 56 <= t < 64
    ensures IsCubeConstant(K(t), Prime(t))
  {
    Constants56();
    EighthValues();
    EighthRoots();
    hide K, Prime, CubeRoot;
  }

  /** The constant of round t is the first 32 bits of the fractional part of the cube root of the t-th prime. */
  lemma ConstantsAreRoots(t: nat)
    requires t < 64
    ensures IsCubeConstant(K(t), Prime(t))
  {
    hide IsCubeConstant, K, Prime;
    if
    case t < 8 => FirstConstants(t);
    case 8 <= t < 16 => SecondConstants(t);
    case 16 <= t < 24 => ThirdConstants(t);
    case 24 <= t < 32 => FourthConstants(t);
    case 32 <= t < 40 => FifthConstants(t);
    case 40 <= t < 48 => SixthConstants(t);
    case 48 <= t < 56 => SeventhConstants(t);
    case 56 <= t => EighthConstants(t);
  }

  lemma StartRoots()
    ensures SquareRoot(0x1_6A09_E667, 2) && 0x1_6A09_E667 % WORDS == (0x6A09E667 as Word) as int
    ensures SquareRoot(0x1_BB67_AE85, 3) && 0x1_BB67_AE85 % WORDS == (0xBB67AE85 as Word) as int
    ensures SquareRoot(0x2_3C6E_F372, 5) && 0x2_3C6E_F372 % WORDS == (0x3C6EF372 as Word) as int
    ensures SquareRoot(0x2_A54F_F53A, 7) && 0x2_A54F_F53A % WORDS == (0xA54FF53A as Word) as int
    ensures SquareRoot(0x3_510E_527F, 11) && 0x3_510E_527F % WORDS == (0x510E527F as Word) as int
    ensures SquareRoot(0x3_9B05_688C, 13) && 0x3_9B05_688C % WORDS == (0x9B05688C as Word) as int
    ensures SquareRoot(0x4_1F83_D9AB, 17) && 0x4_1F83_D9AB % WORDS == (0x1F83D9AB as Word) as int
    ensures SquareRoot(0x4_5BE0_CD19, 19) && 0x4_5BE0_CD19 % WORDS == (0x5BE0CD19 as Word) as int
  {}

  lemma StartRoots224()
    ensures LongSquareRoot(0x4_CBBB_9D5D_C105_9ED8, 23)
    ensures 0x4_CBBB_9D5D_C105_9ED8 % WORDS == (0xC1059ED8 as Word) as int
    ensures LongSquareRoot(0x5_629A_292A_367C_D507, 29)
    ensures 0x5_629A_292A_367C_D507 % WORDS == (0x367CD507 as Word) as int
    ensures LongSquareRoot(0x5_9159_015A_3070_DD17, 31)
    ensures 0x5_9159_015A_3070_DD17 % WORDS == (0x3070DD17 as Word) as int
    ensures LongSquareRoot(0x6_152F_ECD8_F70E_5939, 37)
    ensures 0x6_152F_ECD8_F70E_5939 % WORDS == (0xF70E5939 as Word) as int
    ensures LongSquareRoot(0x6_6733_2667_FFC0_0B31, 41)
    ensures 0x6_6733_2667_FFC0_0B31 % WORDS == (0xFFC00B31 as Word) as int
    ensures LongSquareRoot(0x6_8EB4_4A87_6858_1511, 43)
    ensures 0x6_8EB4_4A87_6858_1511 % WORDS == (0x68581511 as Word) as int
    ensures LongSquareRoot(0x6_DB0C_2E0D_64F9_8FA7, 47)
    ensures 0x6_DB0C_2E0D_64F9_8FA7 % WORDS == (0x64F98FA7 as Word) as int
    ensures LongSquareRoot(0x7_47B5_481D_BEFA_4FA4, 53)
    ensures 0x7_47B5_481D_BEFA_4FA4 % WORDS == (0xBEFA4FA4 as Word) as int
  {}

  ghost predicate IsSquareConstant(h: Word, p: nat) {
    exists c: nat :: SquareRoot(c, p) && c % WORDS == h as int
  }

  ghost predicate IsLongSquareConstant(h: Word, p: nat) {
    exists c: nat :: LongSquareRoot(c, p) && c % WORDS == h as int
  }

  /** SHA-256 starts from the first 32 fractional bits of the square roots of the first eight primes. */
  lemma StartIsRoots()
    ensures
      var r := Start(false);
      && IsSquareConstant(r.a, Prime(0)) && IsSquareConstant(r.b, Prime(1)) && IsSquareConstant(r.c, Prime(2))
      && IsSquareConstant(r.d, Prime(3)) && IsSquareConstant(r.e, Prime(4)) && IsSquareConstant(r.f, Prime(5))
      && IsSquareConstant(r.g, Prime(6)) && IsSquareConstant(r.h, Prime(7))
  {
    FirstValues();
    StartRoots();
    hide Prime, SquareRoot;
  }

  /** SHA-224 starts from the second 32 of the next eight. */
  lemma Start224IsRoots()
    ensures
      var r := Start(true);
      && IsLongSquareConstant(r.a, Prime(8)) && IsLongSquareConstant(r.b, Prime(9))
      && IsLongSquareConstant(r.c, Prime(10)) && IsLongSquareConstant(r.d, Prime(11))
      && IsLongSquareConstant(r.e, Prime(12)) && IsLongSquareConstant(r.f, Prime(13))
      && IsLongSquareConstant(r.g, Prime(14)) && IsLongSquareConstant(r.h, Prime(15))
  {
    SecondValues();
    StartRoots224();
    hide Prime, LongSquareRoot;
  }
}
