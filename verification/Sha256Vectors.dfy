/**
  Known answers of SHA-256 and SHA-224 (FIPS 180-2, appendix B.1, and its change notice 1): every step for the
  message "abc".
*/
module Sha256Vectors {
  import opened BlockHash
  import opened Sha256

  const ABC: seq<bv8> := [0x61, 0x62, 0x63]

  /** The one block the message is padded to: its three bytes, a one bit, zeros, and 24 as the number of bits. */
  ghost predicate AbcBlock(b: seq<bv8>) {
    && |b| == 64 && b[0] == 0x61 && b[1] == 0x62 && b[2] == 0x63 && b[3] == 0x80
    && (forall i :: 4 <= i < 63 ==> b[i] == 0) && b[63] == 24
  }

  lemma ScheduleStep(b: seq<bv8>, t: nat)
    requires t >= 16
    ensures Schedule(b, t) == Expand(Schedule(b, t - 2), Schedule(b, t - 7), Schedule(b, t - 15), Schedule(b, t - 16))
  {}

  lemma FirstWords(b: seq<bv8>)
    requires AbcBlock(b)
    ensures Schedule(b, 0) == 0x61626380 && forall t: nat :: 0 < t < 15 ==> Schedule(b, t) == 0
    ensures Schedule(b, 15) == 24
  {}

  lemma Words16(b: seq<bv8>)
    requires AbcBlock(b)
    ensures Schedule(b, 16) == 0x61626380 && Schedule(b, 17) == 0x000F0000
      && Schedule(b, 18) == 0x7DA86405 && Schedule(b, 19) == 0x600003C6
    ensures Schedule(b, 20) == 0x3E9D7B78 && Schedule(b, 21) == 0x0183FC00
      && Schedule(b, 22) == 0x12DCBFDB && Schedule(b, 23) == 0xE2E2C38E
  {
    FirstWords(b);
    ScheduleStep(b, 16);
    ScheduleStep(b, 17);
    ScheduleStep(b, 18);
    ScheduleStep(b, 19);
    ScheduleStep(b, 20);
    ScheduleStep(b, 21);
    ScheduleStep(b, 22);
    ScheduleStep(b, 23);
    hide Schedule;
  }

  lemma Words24(b: seq<bv8>)
    requires AbcBlock(b)
    ensures Schedule(b, 24) == 0xC8215C1A && Schedule(b, 25) == 0xB73679A2
      && Schedule(b, 26) == 0xE5BC3909 && Schedule(b, 27) == 0x32663C5B
    ensures Schedule(b, 28) == 0x9D209D67 && Schedule(b, 29) == 0xEC8726CB
      && Schedule(b, 30) == 0x702138A4 && Schedule(b, 31) == 0xD3B7973B
  {
    FirstWords(b);
    Words16(b);
    ScheduleStep(b, 24);
    ScheduleStep(b, 25);
    ScheduleStep(b, 26);
    ScheduleStep(b, 27);
    ScheduleStep(b, 28);
    ScheduleStep(b, 29);
    ScheduleStep(b, 30);
    ScheduleStep(b, 31);
    hide Schedule;
  }

  lemma Words32(b: seq<bv8>)
    requires AbcBlock(b)
    ensures Schedule(b, 32) == 0x93F5997F && Schedule(b, 33) == 0x3B68BA73
      && Schedule(b, 34) == 0xAFF4FFC1 && Schedule(b, 35) == 0xF10A5C62
    ensures Schedule(b, 36) == 0x0A8B3996 && Schedule(b, 37) == 0x72AF830A
      && Schedule(b, 38) == 0x9409E33E && Schedule(b, 39) == 0x24641522
  {
    Words24(b);
    Words16(b);
    ScheduleStep(b, 32);
    ScheduleStep(b, 33);
    ScheduleStep(b, 34);
    ScheduleStep(b, 35);
    ScheduleStep(b, 36);
    ScheduleStep(b, 37);
    ScheduleStep(b, 38);
    ScheduleStep(b, 39);
    hide Schedule;
  }

  lemma Words40(b: seq<bv8>)
    requires AbcBlock(b)
    ensures Schedule(b, 40) == 0x9F47BF94 && Schedule(b, 41) == 0xF0A64F5A
      && Schedule(b, 42) == 0x3E246A79 && Schedule(b, 43) == 0x27333BA3
    ensures Schedule(b, 44) == 0x0C4763F2 && Schedule(b, 45) == 0x840ABF27
      && Schedule(b, 46) == 0x7A290D5D && Schedule(b, 47) == 0x065C43DA
  {
    Words32(b);
    Words24(b);
    ScheduleStep(b, 40);
    ScheduleStep(b, 41);
    ScheduleStep(b, 42);
    ScheduleStep(b, 43);
    ScheduleStep(b, 44);
    ScheduleStep(b, 45);
    ScheduleStep(b, 46);
    ScheduleStep(b, 47);
    hide Schedule;
  }

  lemma Words48(b: seq<bv8>)
    requires AbcBlock(b)
    ensures Schedule(b, 48) == 0xFB3E89CB && Schedule(b, 49) == 0xCC7617DB
      && Schedule(b, 50) == 0xB9E66C34 && Schedule(b, 51) == 0xA9993667
    ensures Schedule(b, 52) == 0x84BADEDD && Schedule(b, 53) == 0xC21462BC
      && Schedule(b, 54) == 0x1487472C && Schedule(b, 55) == 0xB20F7A99
  {
    Words40(b);
    Words32(b);
    ScheduleStep(b, 48);
    ScheduleStep(b, 49);
    ScheduleStep(b, 50);
    ScheduleStep(b, 51);
    ScheduleStep(b, 52);
    ScheduleStep(b, 53);
    ScheduleStep(b, 54);
    ScheduleStep(b, 55);
    hide Schedule;
  }

  lemma Words56(b: seq<bv8>)
    requires AbcBlock(b)
    ensures Schedule(b, 56) == 0xEF57B9CD && Schedule(b, 57) == 0xEBE6B238
      && Schedule(b, 58) == 0x9FE3095E && Schedule(b, 59) == 0x78BC8D4B
    ensures Schedule(b, 60) == 0xA43FCF15 && Schedule(b, 61) == 0x668B2FF8
      && Schedule(b, 62) == 0xEEABA2CC && Schedule(b, 63) == 0x12B1EDEB
  {
    Words48(b);
    Words40(b);
    ScheduleStep(b, 56);
    ScheduleStep(b, 57);
    ScheduleStep(b, 58);
    ScheduleStep(b, 59);
    ScheduleStep(b, 60);
    ScheduleStep(b, 61);
    ScheduleStep(b, 62);
    ScheduleStep(b, 63);
    hide Schedule;
  }

  lemma Constants0()
    ensures K(0) == 0x428A2F98 && K(1) == 0x71374491 && K(2) == 0xB5C0FBCF && K(3) == 0xE9B5DBA5
    ensures K(4) == 0x3956C25B && K(5) == 0x59F111F1 && K(6) == 0x923F82A4 && K(7) == 0xAB1C5ED5
  {}

  lemma Constants8()
    ensures K(8) == 0xD807AA98 && K(9) == 0x12835B01 && K(10) == 0x243185BE && K(11) == 0x550C7DC3
    ensures K(12) == 0x72BE5D74 && K(13) == 0x80DEB1FE && K(14) == 0x9BDC06A7 && K(15) == 0xC19BF174
  {}

  lemma Constants16()
    ensures K(16) == 0xE49B69C1 && K(17) == 0xEFBE4786 && K(18) == 0x0FC19DC6 && K(19) == 0x240CA1CC
    ensures K(20) == 0x2DE92C6F && K(21) == 0x4A7484AA && K(22) == 0x5CB0A9DC && K(23) == 0x76F988DA
  {}

  lemma Constants24()
    ensures K(24) == 0x983E5152 && K(25) == 0xA831C66D && K(26) == 0xB00327C8 && K(27) == 0xBF597FC7
    ensures K(28) == 0xC6E00BF3 && K(29) == 0xD5A79147 && K(30) == 0x06CA6351 && K(31) == 0x14292967
  {}

  lemma Constants32()
    ensures K(32) == 0x27B70A85 && K(33) == 0x2E1B2138 && K(34) == 0x4D2C6DFC && K(35) == 0x53380D13
    ensures K(36) == 0x650A7354 && K(37) == 0x766A0ABB && K(38) == 0x81C2C92E && K(39) == 0x92722C85
  {}

  lemma Constants40()
    ensures K(40) == 0xA2BFE8A1 && K(41) == 0xA81A664B && K(42) == 0xC24B8B70 && K(43) == 0xC76C51A3
    ensures K(44) == 0xD192E819 && K(45) == 0xD6990624 && K(46) == 0xF40E3585 && K(47) == 0x106AA070
  {}

  lemma Constants48()
    ensures K(48) == 0x19A4C116 && K(49) == 0x1E376C08 && K(50) == 0x2748774C && K(51) == 0x34B0BCB5
    ensures K(52) == 0x391C0CB3 && K(53) == 0x4ED8AA4A && K(54) == 0x5B9CCA4F && K(55) == 0x682E6FF3
  {}

  lemma Constants56()
    ensures K(56) == 0x748F82EE && K(57) == 0x78A5636F && K(58) == 0x84C87814 && K(59) == 0x8CC70208
    ensures K(60) == 0x90BEFFFA && K(61) == 0xA4506CEB && K(62) == 0xBEF9A3F7 && K(63) == 0xC67178F2
  {}

  lemma Turns256From0()
    ensures Round(Regs(0x6A09E667, 0xBB67AE85, 0x3C6EF372, 0xA54FF53A, 0x510E527F, 0x9B05688C, 0x1F83D9AB, 0x5BE0CD19),
      0x428A2F98, 0x61626380) ==
      Regs(0x5D6AEBCD, 0x6A09E667, 0xBB67AE85, 0x3C6EF372, 0xFA2A4622, 0x510E527F, 0x9B05688C, 0x1F83D9AB)
    ensures Round(Regs(0x5D6AEBCD, 0x6A09E667, 0xBB67AE85, 0x3C6EF372, 0xFA2A4622, 0x510E527F, 0x9B05688C, 0x1F83D9AB),
      0x71374491, 0x00000000) ==
      Regs(0x5A6AD9AD, 0x5D6AEBCD, 0x6A09E667, 0xBB67AE85, 0x78CE7989, 0xFA2A4622, 0x510E527F, 0x9B05688C)
    ensures Round(Regs(0x5A6AD9AD, 0x5D6AEBCD, 0x6A09E667, 0xBB67AE85, 0x78CE7989, 0xFA2A4622, 0x510E527F, 0x9B05688C),
      0xB5C0FBCF, 0x00000000) ==
      Regs(0xC8C347A7, 0x5A6AD9AD, 0x5D6AEBCD, 0x6A09E667, 0xF92939EB, 0x78CE7989, 0xFA2A4622, 0x510E527F)
    ensures Round(Regs(0xC8C347A7, 0x5A6AD9AD, 0x5D6AEBCD, 0x6A09E667, 0xF92939EB, 0x78CE7989, 0xFA2A4622, 0x510E527F),
      0xE9B5DBA5, 0x00000000) ==
      Regs(0xD550F666, 0xC8C347A7, 0x5A6AD9AD, 0x5D6AEBCD, 0x24E00850, 0xF92939EB, 0x78CE7989, 0xFA2A4622)
    ensures Round(Regs(0xD550F666, 0xC8C347A7, 0x5A6AD9AD, 0x5D6AEBCD, 0x24E00850, 0xF92939EB, 0x78CE7989, 0xFA2A4622),
      0x3956C25B, 0x00000000) ==
      Regs(0x04409A6A, 0xD550F666, 0xC8C347A7, 0x5A6AD9AD, 0x43ADA245, 0x24E00850, 0xF92939EB, 0x78CE7989)
    ensures Round(Regs(0x04409A6A, 0xD550F666, 0xC8C347A7, 0x5A6AD9AD, 0x43ADA245, 0x24E00850, 0xF92939EB, 0x78CE7989),
      0x59F111F1, 0x00000000) ==
      Regs(0x2B4209F5, 0x04409A6A, 0xD550F666, 0xC8C347A7, 0x714260AD, 0x43ADA245, 0x24E00850, 0xF92939EB)
    ensures Round(Regs(0x2B4209F5, 0x04409A6A, 0xD550F666, 0xC8C347A7, 0x714260AD, 0x43ADA245, 0x24E00850, 0xF92939EB),
      0x923F82A4, 0x00000000) ==
      Regs(0xE5030380, 0x2B4209F5, 0x04409A6A, 0xD550F666, 0x9B27A401, 0x714260AD, 0x43ADA245, 0x24E00850)
    ensures Round(Regs(0xE5030380, 0x2B4209F5, 0x04409A6A, 0xD550F666, 0x9B27A401, 0x714260AD, 0x43ADA245, 0x24E00850),
      0xAB1C5ED5, 0x00000000) ==
      Regs(0x85A07B5F, 0xE5030380, 0x2B4209F5, 0x04409A6A, 0x0C657A79, 0x9B27A401, 0x714260AD, 0x43ADA245)
  {}

  lemma Rounds256To8(r: Regs, b: seq<bv8>)
    requires AbcBlock(b) && r == Start(false)
    ensures Rounds(r, b, 8) ==
      Regs(0x85A07B5F, 0xE5030380, 0x2B4209F5, 0x04409A6A, 0x0C657A79, 0x9B27A401, 0x714260AD, 0x43ADA245)
  {
    assert Rounds(r, b, 0) == r;
    FirstWords(b);
    Constants0();
    Turns256From0();
    OneMoreRound(r, b, 0);
    OneMoreRound(r, b, 1);
    OneMoreRound(r, b, 2);
    OneMoreRound(r, b, 3);
    OneMoreRound(r, b, 4);
    OneMoreRound(r, b, 5);
    OneMoreRound(r, b, 6);
    OneMoreRound(r, b, 7);
    hide Schedule, Rounds, Round, K, AbcBlock;
  }

  lemma Turns256From8()
    ensures Round(Regs(0x85A07B5F, 0xE5030380, 0x2B4209F5, 0x04409A6A, 0x0C657A79, 0x9B27A401, 0x714260AD, 0x43ADA245),
      0xD807AA98, 0x00000000) ==
      Regs(0x8E04ECB9, 0x85A07B5F, 0xE5030380, 0x2B4209F5, 0x32CA2D8C, 0x0C657A79, 0x9B27A401, 0x714260AD)
    ensures Round(Regs(0x8E04ECB9, 0x85A07B5F, 0xE5030380, 0x2B4209F5, 0x32CA2D8C, 0x0C657A79, 0x9B27A401, 0x714260AD),
      0x12835B01, 0x00000000) ==
      Regs(0x8C87346B, 0x8E04ECB9, 0x85A07B5F, 0xE5030380, 0x1CC92596, 0x32CA2D8C, 0x0C657A79, 0x9B27A401)
    ensures Round(Regs(0x8C87346B, 0x8E04ECB9, 0x85A07B5F, 0xE5030380, 0x1CC92596, 0x32CA2D8C, 0x0C657A79, 0x9B27A401),
      0x243185BE, 0x00000000) ==
      Regs(0x4798A3F4, 0x8C87346B, 0x8E04ECB9, 0x85A07B5F, 0x436B23E8, 0x1CC92596, 0x32CA2D8C, 0x0C657A79)
    ensures Round(Regs(0x4798A3F4, 0x8C87346B, 0x8E04ECB9, 0x85A07B5F, 0x436B23E8, 0x1CC92596, 0x32CA2D8C, 0x0C657A79),
      0x550C7DC3, 0x00000000) ==
      Regs(0xF71FC5A9, 0x4798A3F4, 0x8C87346B, 0x8E04ECB9, 0x816FD6E9, 0x436B23E8, 0x1CC92596, 0x32CA2D8C)
    ensures Round(Regs(0xF71FC5A9, 0x4798A3F4, 0x8C87346B, 0x8E04ECB9, 0x816FD6E9, 0x436B23E8, 0x1CC92596, 0x32CA2D8C),
      0x72BE5D74, 0x00000000) ==
      Regs(0x87912990, 0xF71FC5A9, 0x4798A3F4, 0x8C87346B, 0x1E578218, 0x816FD6E9, 0x436B23E8, 0x1CC92596)
    ensures Round(Regs(0x87912990, 0xF71FC5A9, 0x4798A3F4, 0x8C87346B, 0x1E578218, 0x816FD6E9, 0x436B23E8, 0x1CC92596),
      0x80DEB1FE, 0x00000000) ==
      Regs(0xD932EB16, 0x87912990, 0xF71FC5A9, 0x4798A3F4, 0x745A48DE, 0x1E578218, 0x816FD6E9, 0x436B23E8)
    ensures Round(Regs(0xD932EB16, 0x87912990, 0xF71FC5A9, 0x4798A3F4, 0x745A48DE, 0x1E578218, 0x816FD6E9, 0x436B23E8),
      0x9BDC06A7, 0x00000000) ==
      Regs(0xC0645FDE, 0xD932EB16, 0x87912990, 0xF71FC5A9, 0x0B92F20C, 0x745A48DE, 0x1E578218, 0x816FD6E9)
    ensures Round(Regs(0xC0645FDE, 0xD932EB16, 0x87912990, 0xF71FC5A9, 0x0B92F20C, 0x745A48DE, 0x1E578218, 0x816FD6E9),
      0xC19BF174, 0x00000018) ==
      Regs(0xB0FA238E, 0xC0645FDE, 0xD932EB16, 0x87912990, 0x07590DCD, 0x0B92F20C, 0x745A48DE, 0x1E578218)
  {}

  lemma Rounds256To16(r: Regs, b: seq<bv8>)
    requires AbcBlock(b) && r == Start(false)
    ensures Rounds(r, b, 16) ==
      Regs(0xB0FA238E, 0xC0645FDE, 0xD932EB16, 0x87912990, 0x07590DCD, 0x0B92F20C, 0x745A48DE, 0x1E578218)
  {
    Rounds256To8(r, b);
    FirstWords(b);
    Constants8();
    Turns256From8();
    OneMoreRound(r, b, 8);
    OneMoreRound(r, b, 9);
    OneMoreRound(r, b, 10);
    OneMoreRound(r, b, 11);
    OneMoreRound(r, b, 12);
    OneMoreRound(r, b, 13);
    OneMoreRound(r, b, 14);
    OneMoreRound(r, b, 15);
    hide Schedule, Rounds, Round, K;
  }

  lemma Turns256From16()
    ensures Round(Regs(0xB0FA238E, 0xC0645FDE, 0xD932EB16, 0x87912990, 0x07590DCD, 0x0B92F20C, 0x745A48DE, 0x1E578218),
      0xE49B69C1, 0x61626380) ==
      Regs(0x21DA9A9B, 0xB0FA238E, 0xC0645FDE, 0xD932EB16, 0x8034229C, 0x07590DCD, 0x0B92F20C, 0x745A48DE)
    ensures Round(Regs(0x21DA9A9B, 0xB0FA238E, 0xC0645FDE, 0xD932EB16, 0x8034229C, 0x07590DCD, 0x0B92F20C, 0x745A48DE),
      0xEFBE4786, 0x000F0000) ==
      Regs(0xC2FBD9D1, 0x21DA9A9B, 0xB0FA238E, 0xC0645FDE, 0x846EE454, 0x8034229C, 0x07590DCD, 0x0B92F20C)
    ensures Round(Regs(0xC2FBD9D1, 0x21DA9A9B, 0xB0FA238E, 0xC0645FDE, 0x846EE454, 0x8034229C, 0x07590DCD, 0x0B92F20C),
      0x0FC19DC6, 0x7DA86405) ==
      Regs(0xFE777BBF, 0xC2FBD9D1, 0x21DA9A9B, 0xB0FA238E, 0xCC899961, 0x846EE454, 0x8034229C, 0x07590DCD)
    ensures Round(Regs(0xFE777BBF, 0xC2FBD9D1, 0x21DA9A9B, 0xB0FA238E, 0xCC899961, 0x846EE454, 0x8034229C, 0x07590DCD),
      0x240CA1CC, 0x600003C6) ==
      Regs(0xE1F20C33, 0xFE777BBF, 0xC2FBD9D1, 0x21DA9A9B, 0xB0638179, 0xCC899961, 0x846EE454, 0x8034229C)
    ensures Round(Regs(0xE1F20C33, 0xFE777BBF, 0xC2FBD9D1, 0x21DA9A9B, 0xB0638179, 0xCC899961, 0x846EE454, 0x8034229C),
      0x2DE92C6F, 0x3E9D7B78) ==
      Regs(0x9DC68B63, 0xE1F20C33, 0xFE777BBF, 0xC2FBD9D1, 0x8ADA8930, 0xB0638179, 0xCC899961, 0x846EE454)
    ensures Round(Regs(0x9DC68B63, 0xE1F20C33, 0xFE777BBF, 0xC2FBD9D1, 0x8ADA8930, 0xB0638179, 0xCC899961, 0x846EE454),
      0x4A7484AA, 0x0183FC00) ==
      Regs(0xC2606D6D, 0x9DC68B63, 0xE1F20C33, 0xFE777BBF, 0xE1257970, 0x8ADA8930, 0xB0638179, 0xCC899961)
    ensures Round(Regs(0xC2606D6D, 0x9DC68B63, 0xE1F20C33, 0xFE777BBF, 0xE1257970, 0x8ADA8930, 0xB0638179, 0xCC899961),
      0x5CB0A9DC, 0x12DCBFDB) ==
      Regs(0xA7A3623F, 0xC2606D6D, 0x9DC68B63, 0xE1F20C33, 0x49F5114A, 0xE1257970, 0x8ADA8930, 0xB0638179)
    ensures Round(Regs(0xA7A3623F, 0xC2606D6D, 0x9DC68B63, 0xE1F20C33, 0x49F5114A, 0xE1257970, 0x8ADA8930, 0xB0638179),
      0x76F988DA, 0xE2E2C38E) ==
      Regs(0xC5D53D8D, 0xA7A3623F, 0xC2606D6D, 0x9DC68B63, 0xAA47C347, 0x49F5114A, 0xE1257970, 0x8ADA8930)
  {}

  lemma Rounds256To24(r: Regs, b: seq<bv8>)
    requires AbcBlock(b) && r == Start(false)
    ensures Rounds(r, b, 24) ==
      Regs(0xC5D53D8D, 0xA7A3623F, 0xC2606D6D, 0x9DC68B63, 0xAA47C347, 0x49F5114A, 0xE1257970, 0x8ADA8930)
  {
    Rounds256To16(r, b);
    Words16(b);
    Constants16();
    Turns256From16();
    OneMoreRound(r, b, 16);
    OneMoreRound(r, b, 17);
    OneMoreRound(r, b, 18);
    OneMoreRound(r, b, 19);
    OneMoreRound(r, b, 20);
    OneMoreRound(r, b, 21);
    OneMoreRound(r, b, 22);
    OneMoreRound(r, b, 23);
    hide Schedule, Rounds, Round, K;
  }

  lemma Turns256From24()
    ensures Round(Regs(0xC5D53D8D, 0xA7A3623F, 0xC2606D6D, 0x9DC68B63, 0xAA47C347, 0x49F5114A, 0xE1257970, 0x8ADA8930),
      0x983E5152, 0xC8215C1A) ==
      Regs(0x1C2C2838, 0xC5D53D8D, 0xA7A3623F, 0xC2606D6D, 0x2823EF91, 0xAA47C347, 0x49F5114A, 0xE1257970)
    ensures Round(Regs(0x1C2C2838, 0xC5D53D8D, 0xA7A3623F, 0xC2606D6D, 0x2823EF91, 0xAA47C347, 0x49F5114A, 0xE1257970),
      0xA831C66D, 0xB73679A2) ==
      Regs(0xCDE8037D, 0x1C2C2838, 0xC5D53D8D, 0xA7A3623F, 0x14383D8E, 0x2823EF91, 0xAA47C347, 0x49F5114A)
    ensures Round(Regs(0xCDE8037D, 0x1C2C2838, 0xC5D53D8D, 0xA7A3623F, 0x14383D8E, 0x2823EF91, 0xAA47C347, 0x49F5114A),
      0xB00327C8, 0xE5BC3909) ==
      Regs(0xB62EC4BC, 0xCDE8037D, 0x1C2C2838, 0xC5D53D8D, 0xC74C6516, 0x14383D8E, 0x2823EF91, 0xAA47C347)
    ensures Round(Regs(0xB62EC4BC, 0xCDE8037D, 0x1C2C2838, 0xC5D53D8D, 0xC74C6516, 0x14383D8E, 0x2823EF91, 0xAA47C347),
      0xBF597FC7, 0x32663C5B) ==
      Regs(0x77D37528, 0xB62EC4BC, 0xCDE8037D, 0x1C2C2838, 0xEDFFBFF8, 0xC74C6516, 0x14383D8E, 0x2823EF91)
    ensures Round(Regs(0x77D37528, 0xB62EC4BC, 0xCDE8037D, 0x1C2C2838, 0xEDFFBFF8, 0xC74C6516, 0x14383D8E, 0x2823EF91),
      0xC6E00BF3, 0x9D209D67) ==
      Regs(0x363482C9, 0x77D37528, 0xB62EC4BC, 0xCDE8037D, 0x6112A3B7, 0xEDFFBFF8, 0xC74C6516, 0x14383D8E)
    ensures Round(Regs(0x363482C9, 0x77D37528, 0xB62EC4BC, 0xCDE8037D, 0x6112A3B7, 0xEDFFBFF8, 0xC74C6516, 0x14383D8E),
      0xD5A79147, 0xEC8726CB) ==
      Regs(0xA0060B30, 0x363482C9, 0x77D37528, 0xB62EC4BC, 0xADE79437, 0x6112A3B7, 0xEDFFBFF8, 0xC74C6516)
    ensures Round(Regs(0xA0060B30, 0x363482C9, 0x77D37528, 0xB62EC4BC, 0xADE79437, 0x6112A3B7, 0xEDFFBFF8, 0xC74C6516),
      0x06CA6351, 0x702138A4) ==
      Regs(0xEA992A22, 0xA0060B30, 0x363482C9, 0x77D37528, 0x0109AB3A, 0xADE79437, 0x6112A3B7, 0xEDFFBFF8)
    ensures Round(Regs(0xEA992A22, 0xA0060B30, 0x363482C9, 0x77D37528, 0x0109AB3A, 0xADE79437, 0x6112A3B7, 0xEDFFBFF8),
      0x14292967, 0xD3B7973B) ==
      Regs(0x73B33BF5, 0xEA992A22, 0xA0060B30, 0x363482C9, 0xBA591112, 0x0109AB3A, 0xADE79437, 0x6112A3B7)
  {}

  lemma Rounds256To32(r: Regs, b: seq<bv8>)
    requires AbcBlock(b) && r == Start(false)
    ensures Rounds(r, b, 32) ==
      Regs(0x73B33BF5, 0xEA992A22, 0xA0060B30, 0x363482C9, 0xBA591112, 0x0109AB3A, 0xADE79437, 0x6112A3B7)
  {
    Rounds256To24(r, b);
    Words24(b);
    Constants24();
    Turns256From24();
    OneMoreRound(r, b, 24);
    OneMoreRound(r, b, 25);
    OneMoreRound(r, b, 26);
    OneMoreRound(r, b, 27);
    OneMoreRound(r, b, 28);
    OneMoreRound(r, b, 29);
    OneMoreRound(r, b, 30);
    OneMoreRound(r, b, 31);
    hide Schedule, Rounds, Round, K;
  }

  lemma Turns256From32()
    ensures Round(Regs(0x73B33BF5, 0xEA992A22, 0xA0060B30, 0x363482C9, 0xBA591112, 0x0109AB3A, 0xADE79437, 0x6112A3B7),
      0x27B70A85, 0x93F5997F) ==
      Regs(0x98E12507, 0x73B33BF5, 0xEA992A22, 0xA0060B30, 0x9CD9F5F6, 0xBA591112, 0x0109AB3A, 0xADE79437)
    ensures Round(Regs(0x98E12507, 0x73B33BF5, 0xEA992A22, 0xA0060B30, 0x9CD9F5F6, 0xBA591112, 0x0109AB3A, 0xADE79437),
      0x2E1B2138, 0x3B68BA73) ==
      Regs(0xFE604DF5, 0x98E12507, 0x73B33BF5, 0xEA992A22, 0x59249DD3, 0x9CD9F5F6, 0xBA591112, 0x0109AB3A)
    ensures Round(Regs(0xFE604DF5, 0x98E12507, 0x73B33BF5, 0xEA992A22, 0x59249DD3, 0x9CD9F5F6, 0xBA591112, 0x0109AB3A),
      0x4D2C6DFC, 0xAFF4FFC1) ==
      Regs(0xA9A7738C, 0xFE604DF5, 0x98E12507, 0x73B33BF5, 0x085F3833, 0x59249DD3, 0x9CD9F5F6, 0xBA591112)
    ensures Round(Regs(0xA9A7738C, 0xFE604DF5, 0x98E12507, 0x73B33BF5, 0x085F3833, 0x59249DD3, 0x9CD9F5F6, 0xBA591112),
      0x53380D13, 0xF10A5C62) ==
      Regs(0x65A0CFE4, 0xA9A7738C, 0xFE604DF5, 0x98E12507, 0xF4B002D6, 0x085F3833, 0x59249DD3, 0x9CD9F5F6)
    ensures Round(Regs(0x65A0CFE4, 0xA9A7738C, 0xFE604DF5, 0x98E12507, 0xF4B002D6, 0x085F3833, 0x59249DD3, 0x9CD9F5F6),
      0x650A7354, 0x0A8B3996) ==
      Regs(0x41A65CB1, 0x65A0CFE4, 0xA9A7738C, 0xFE604DF5, 0x0772A26B, 0xF4B002D6, 0x085F3833, 0x59249DD3)
    ensures Round(Regs(0x41A65CB1, 0x65A0CFE4, 0xA9A7738C, 0xFE604DF5, 0x0772A26B, 0xF4B002D6, 0x085F3833, 0x59249DD3),
      0x766A0ABB, 0x72AF830A) ==
      Regs(0x34DF1604, 0x41A65CB1, 0x65A0CFE4, 0xA9A7738C, 0xA507A53D, 0x0772A26B, 0xF4B002D6, 0x085F3833)
    ensures Round(Regs(0x34DF1604, 0x41A65CB1, 0x65A0CFE4, 0xA9A7738C, 0xA507A53D, 0x0772A26B, 0xF4B002D6, 0x085F3833),
      0x81C2C92E, 0x9409E33E) ==
      Regs(0x6DC57A8A, 0x34DF1604, 0x41A65CB1, 0x65A0CFE4, 0xF0781BC8, 0xA507A53D, 0x0772A26B, 0xF4B002D6)
    ensures Round(Regs(0x6DC57A8A, 0x34DF1604, 0x41A65CB1, 0x65A0CFE4, 0xF0781BC8, 0xA507A53D, 0x0772A26B, 0xF4B002D6),
      0x92722C85, 0x24641522) ==
      Regs(0x79EA687A, 0x6DC57A8A, 0x34DF1604, 0x41A65CB1, 0x1EFBC0A0, 0xF0781BC8, 0xA507A53D, 0x0772A26B)
  {}

  lemma Rounds256To40(r: Regs, b: seq<bv8>)
    requires AbcBlock(b) && r == Start(false)
    ensures Rounds(r, b, 40) ==
      Regs(0x79EA687A, 0x6DC57A8A, 0x34DF1604, 0x41A65CB1, 0x1EFBC0A0, 0xF0781BC8, 0xA507A53D, 0x0772A26B)
  {
    Rounds256To32(r, b);
    Words32(b);
    Constants32();
    Turns256From32();
    OneMoreRound(r, b, 32);
    OneMoreRound(r, b, 33);
    OneMoreRound(r, b, 34);
    OneMoreRound(r, b, 35);
    OneMoreRound(r, b, 36);
    OneMoreRound(r, b, 37);
    OneMoreRound(r, b, 38);
    OneMoreRound(r, b, 39);
    hide Schedule, Rounds, Round, K;
  }

  lemma Turns256From40()
    ensures Round(Regs(0x79EA687A, 0x6DC57A8A, 0x34DF1604, 0x41A65CB1, 0x1EFBC0A0, 0xF0781BC8, 0xA507A53D, 0x0772A26B),
      0xA2BFE8A1, 0x9F47BF94) ==
      Regs(0xD6670766, 0x79EA687A, 0x6DC57A8A, 0x34DF1604, 0x26352D63, 0x1EFBC0A0, 0xF0781BC8, 0xA507A53D)
    ensures Round(Regs(0xD6670766, 0x79EA687A, 0x6DC57A8A, 0x34DF1604, 0x26352D63, 0x1EFBC0A0, 0xF0781BC8, 0xA507A53D),
      0xA81A664B, 0xF0A64F5A) ==
      Regs(0xDF46652F, 0xD6670766, 0x79EA687A, 0x6DC57A8A, 0x838B2711, 0x26352D63, 0x1EFBC0A0, 0xF0781BC8)
    ensures Round(Regs(0xDF46652F, 0xD6670766, 0x79EA687A, 0x6DC57A8A, 0x838B2711, 0x26352D63, 0x1EFBC0A0, 0xF0781BC8),
      0xC24B8B70, 0x3E246A79) ==
      Regs(0x17AA0DFE, 0xDF46652F, 0xD6670766, 0x79EA687A, 0xDECD4715, 0x838B2711, 0x26352D63, 0x1EFBC0A0)
    ensures Round(Regs(0x17AA0DFE, 0xDF46652F, 0xD6670766, 0x79EA687A, 0xDECD4715, 0x838B2711, 0x26352D63, 0x1EFBC0A0),
      0xC76C51A3, 0x27333BA3) ==
      Regs(0x9D4BAF93, 0x17AA0DFE, 0xDF46652F, 0xD6670766, 0xFDA24C2E, 0xDECD4715, 0x838B2711, 0x26352D63)
    ensures Round(Regs(0x9D4BAF93, 0x17AA0DFE, 0xDF46652F, 0xD6670766, 0xFDA24C2E, 0xDECD4715, 0x838B2711, 0x26352D63),
      0xD192E819, 0x0C4763F2) ==
      Regs(0x26628815, 0x9D4BAF93, 0x17AA0DFE, 0xDF46652F, 0xA80F11F0, 0xFDA24C2E, 0xDECD4715, 0x838B2711)
    ensures Round(Regs(0x26628815, 0x9D4BAF93, 0x17AA0DFE, 0xDF46652F, 0xA80F11F0, 0xFDA24C2E, 0xDECD4715, 0x838B2711),
      0xD6990624, 0x840ABF27) ==
      Regs(0x72AB4B91, 0x26628815, 0x9D4BAF93, 0x17AA0DFE, 0xB7755DA1, 0xA80F11F0, 0xFDA24C2E, 0xDECD4715)
    ensures Round(Regs(0x72AB4B91, 0x26628815, 0x9D4BAF93, 0x17AA0DFE, 0xB7755DA1, 0xA80F11F0, 0xFDA24C2E, 0xDECD4715),
      0xF40E3585, 0x7A290D5D) ==
      Regs(0xA14C14B0, 0x72AB4B91, 0x26628815, 0x9D4BAF93, 0xD57B94A9, 0xB7755DA1, 0xA80F11F0, 0xFDA24C2E)
    ensures Round(Regs(0xA14C14B0, 0x72AB4B91, 0x26628815, 0x9D4BAF93, 0xD57B94A9, 0xB7755DA1, 0xA80F11F0, 0xFDA24C2E),
      0x106AA070, 0x065C43DA) ==
      Regs(0x4172328D, 0xA14C14B0, 0x72AB4B91, 0x26628815, 0xFECF0BC6, 0xD57B94A9, 0xB7755DA1, 0xA80F11F0)
  {}

  lemma Rounds256To48(r: Regs, b: seq<bv8>)
    requires AbcBlock(b) && r == Start(false)
    ensures Rounds(r, b, 48) ==
      Regs(0x4172328D, 0xA14C14B0, 0x72AB4B91, 0x26628815, 0xFECF0BC6, 0xD57B94A9, 0xB7755DA1, 0xA80F11F0)
  {
    Rounds256To40(r, b);
    Words40(b);
    Constants40();
    Turns256From40();
    OneMoreRound(r, b, 40);
    OneMoreRound(r, b, 41);
    OneMoreRound(r, b, 42);
    OneMoreRound(r, b, 43);
    OneMoreRound(r, b, 44);
    OneMoreRound(r, b, 45);
    OneMoreRound(r, b, 46);
    OneMoreRound(r, b, 47);
    hide Schedule, Rounds, Round, K;
  }

  lemma Turns256From48()
    ensures Round(Regs(0x4172328D, 0xA14C14B0, 0x72AB4B91, 0x26628815, 0xFECF0BC6, 0xD57B94A9, 0xB7755DA1, 0xA80F11F0),
      0x19A4C116, 0xFB3E89CB) ==
      Regs(0x05757CEB, 0x4172328D, 0xA14C14B0, 0x72AB4B91, 0xBD714038, 0xFECF0BC6, 0xD57B94A9, 0xB7755DA1)
    ensures Round(Regs(0x05757CEB, 0x4172328D, 0xA14C14B0, 0x72AB4B91, 0xBD714038, 0xFECF0BC6, 0xD57B94A9, 0xB7755DA1),
      0x1E376C08, 0xCC7617DB) ==
      Regs(0xF11BFAA8, 0x05757CEB, 0x4172328D, 0xA14C14B0, 0x6E5C390C, 0xBD714038, 0xFECF0BC6, 0xD57B94A9)
    ensures Round(Regs(0xF11BFAA8, 0x05757CEB, 0x4172328D, 0xA14C14B0, 0x6E5C390C, 0xBD714038, 0xFECF0BC6, 0xD57B94A9),
      0x2748774C, 0xB9E66C34) ==
      Regs(0x7A0508A1, 0xF11BFAA8, 0x05757CEB, 0x4172328D, 0x52F1CCF7, 0x6E5C390C, 0xBD714038, 0xFECF0BC6)
    ensures Round(Regs(0x7A0508A1, 0xF11BFAA8, 0x05757CEB, 0x4172328D, 0x52F1CCF7, 0x6E5C390C, 0xBD714038, 0xFECF0BC6),
      0x34B0BCB5, 0xA9993667) ==
      Regs(0x886E7A22, 0x7A0508A1, 0xF11BFAA8, 0x05757CEB, 0x49231C1E, 0x52F1CCF7, 0x6E5C390C, 0xBD714038)
    ensures Round(Regs(0x886E7A22, 0x7A0508A1, 0xF11BFAA8, 0x05757CEB, 0x49231C1E, 0x52F1CCF7, 0x6E5C390C, 0xBD714038),
      0x391C0CB3, 0x84BADEDD) ==
      Regs(0x101FD28F, 0x886E7A22, 0x7A0508A1, 0xF11BFAA8, 0x529E7D00, 0x49231C1E, 0x52F1CCF7, 0x6E5C390C)
    ensures Round(Regs(0x101FD28F, 0x886E7A22, 0x7A0508A1, 0xF11BFAA8, 0x529E7D00, 0x49231C1E, 0x52F1CCF7, 0x6E5C390C),
      0x4ED8AA4A, 0xC21462BC) ==
      Regs(0xF5702FDB, 0x101FD28F, 0x886E7A22, 0x7A0508A1, 0x9F4787C3, 0x529E7D00, 0x49231C1E, 0x52F1CCF7)
    ensures Round(Regs(0xF5702FDB, 0x101FD28F, 0x886E7A22, 0x7A0508A1, 0x9F4787C3, 0x529E7D00, 0x49231C1E, 0x52F1CCF7),
      0x5B9CCA4F, 0x1487472C) ==
      Regs(0x3EC45CDB, 0xF5702FDB, 0x101FD28F, 0x886E7A22, 0xE50E1B4F, 0x9F4787C3, 0x529E7D00, 0x49231C1E)
    ensures Round(Regs(0x3EC45CDB, 0xF5702FDB, 0x101FD28F, 0x886E7A22, 0xE50E1B4F, 0x9F4787C3, 0x529E7D00, 0x49231C1E),
      0x682E6FF3, 0xB20F7A99) ==
      Regs(0x38CC9913, 0x3EC45CDB, 0xF5702FDB, 0x101FD28F, 0x54CB266B, 0xE50E1B4F, 0x9F4787C3, 0x529E7D00)
  {}

  lemma Rounds256To56(r: Regs, b: seq<bv8>)
    requires AbcBlock(b) && r == Start(false)
    ensures Rounds(r, b, 56) ==
      Regs(0x38CC9913, 0x3EC45CDB, 0xF5702FDB, 0x101FD28F, 0x54CB266B, 0xE50E1B4F, 0x9F4787C3, 0x529E7D00)
  {
    Rounds256To48(r, b);
    Words48(b);
    Constants48();
    Turns256From48();
    OneMoreRound(r, b, 48);
    OneMoreRound(r, b, 49);
    OneMoreRound(r, b, 50);
    OneMoreRound(r, b, 51);
    OneMoreRound(r, b, 52);
    OneMoreRound(r, b, 53);
    OneMoreRound(r, b, 54);
    OneMoreRound(r, b, 55);
    hide Schedule, Rounds, Round, K;
  }

  lemma Turns256From56()
    ensures Round(Regs(0x38CC9913, 0x3EC45CDB, 0xF5702FDB, 0x101FD28F, 0x54CB266B, 0xE50E1B4F, 0x9F4787C3, 0x529E7D00),
      0x748F82EE, 0xEF57B9CD) ==
      Regs(0xFCD1887B, 0x38CC9913, 0x3EC45CDB, 0xF5702FDB, 0x9B5E906C, 0x54CB266B, 0xE50E1B4F, 0x9F4787C3)
    ensures Round(Regs(0xFCD1887B, 0x38CC9913, 0x3EC45CDB, 0xF5702FDB, 0x9B5E906C, 0x54CB266B, 0xE50E1B4F, 0x9F4787C3),
      0x78A5636F, 0xEBE6B238) ==
      Regs(0xC062D46F, 0xFCD1887B, 0x38CC9913, 0x3EC45CDB, 0x7E44008E, 0x9B5E906C, 0x54CB266B, 0xE50E1B4F)
    ensures Round(Regs(0xC062D46F, 0xFCD1887B, 0x38CC9913, 0x3EC45CDB, 0x7E44008E, 0x9B5E906C, 0x54CB266B, 0xE50E1B4F),
      0x84C87814, 0x9FE3095E) ==
      Regs(0xFFB70472, 0xC062D46F, 0xFCD1887B, 0x38CC9913, 0x6D83BFC6, 0x7E44008E, 0x9B5E906C, 0x54CB266B)
    ensures Round(Regs(0xFFB70472, 0xC062D46F, 0xFCD1887B, 0x38CC9913, 0x6D83BFC6, 0x7E44008E, 0x9B5E906C, 0x54CB266B),
      0x8CC70208, 0x78BC8D4B) ==
      Regs(0xB6AE8FFF, 0xFFB70472, 0xC062D46F, 0xFCD1887B, 0xB21BAD3D, 0x6D83BFC6, 0x7E44008E, 0x9B5E906C)
    ensures Round(Regs(0xB6AE8FFF, 0xFFB70472, 0xC062D46F, 0xFCD1887B, 0xB21BAD3D, 0x6D83BFC6, 0x7E44008E, 0x9B5E906C),
      0x90BEFFFA, 0xA43FCF15) ==
      Regs(0xB85E2CE9, 0xB6AE8FFF, 0xFFB70472, 0xC062D46F, 0x961F4894, 0xB21BAD3D, 0x6D83BFC6, 0x7E44008E)
    ensures Round(Regs(0xB85E2CE9, 0xB6AE8FFF, 0xFFB70472, 0xC062D46F, 0x961F4894, 0xB21BAD3D, 0x6D83BFC6, 0x7E44008E),
      0xA4506CEB, 0x668B2FF8) ==
      Regs(0x04D24D6C, 0xB85E2CE9, 0xB6AE8FFF, 0xFFB70472, 0x948D25B6, 0x961F4894, 0xB21BAD3D, 0x6D83BFC6)
    ensures Round(Regs(0x04D24D6C, 0xB85E2CE9, 0xB6AE8FFF, 0xFFB70472, 0x948D25B6, 0x961F4894, 0xB21BAD3D, 0x6D83BFC6),
      0xBEF9A3F7, 0xEEABA2CC) ==
      Regs(0xD39A2165, 0x04D24D6C, 0xB85E2CE9, 0xB6AE8FFF, 0xFB121210, 0x948D25B6, 0x961F4894, 0xB21BAD3D)
    ensures Round(Regs(0xD39A2165, 0x04D24D6C, 0xB85E2CE9, 0xB6AE8FFF, 0xFB121210, 0x948D25B6, 0x961F4894, 0xB21BAD3D),
      0xC67178F2, 0x12B1EDEB) ==
      Regs(0x506E3058, 0xD39A2165, 0x04D24D6C, 0xB85E2CE9, 0x5EF50F24, 0xFB121210, 0x948D25B6, 0x961F4894)
  {}

  lemma Rounds256To64(r: Regs, b: seq<bv8>)
    requires AbcBlock(b) && r == Start(false)
    ensures Rounds(r, b, 64) ==
      Regs(0x506E3058, 0xD39A2165, 0x04D24D6C, 0xB85E2CE9, 0x5EF50F24, 0xFB121210, 0x948D25B6, 0x961F4894)
  {
    Rounds256To56(r, b);
    Words56(b);
    Constants56();
    Turns256From56();
    OneMoreRound(r, b, 56);
    OneMoreRound(r, b, 57);
    OneMoreRound(r, b, 58);
    OneMoreRound(r, b, 59);
    OneMoreRound(r, b, 60);
    OneMoreRound(r, b, 61);
    OneMoreRound(r, b, 62);
    OneMoreRound(r, b, 63);
    hide Schedule, Rounds, Round, K;
  }

  lemma Turns224From0()
    ensures Round(Regs(0xC1059ED8, 0x367CD507, 0x3070DD17, 0xF70E5939, 0xFFC00B31, 0x68581511, 0x64F98FA7, 0xBEFA4FA4),
      0x428A2F98, 0x61626380) ==
      Regs(0x0E96B2DA, 0xC1059ED8, 0x367CD507, 0x3070DD17, 0x0434225E, 0xFFC00B31, 0x68581511, 0x64F98FA7)
    ensures Round(Regs(0x0E96B2DA, 0xC1059ED8, 0x367CD507, 0x3070DD17, 0x0434225E, 0xFFC00B31, 0x68581511, 0x64F98FA7),
      0x71374491, 0x00000000) ==
      Regs(0xC20DAB6B, 0x0E96B2DA, 0xC1059ED8, 0x367CD507, 0x9CAB416F, 0x0434225E, 0xFFC00B31, 0x68581511)
    ensures Round(Regs(0xC20DAB6B, 0x0E96B2DA, 0xC1059ED8, 0x367CD507, 0x9CAB416F, 0x0434225E, 0xFFC00B31, 0x68581511),
      0xB5C0FBCF, 0x00000000) ==
      Regs(0xAB113B7A, 0xC20DAB6B, 0x0E96B2DA, 0xC1059ED8, 0x82177FE8, 0x9CAB416F, 0x0434225E, 0xFFC00B31)
    ensures Round(Regs(0xAB113B7A, 0xC20DAB6B, 0x0E96B2DA, 0xC1059ED8, 0x82177FE8, 0x9CAB416F, 0x0434225E, 0xFFC00B31),
      0xE9B5DBA5, 0x00000000) ==
      Regs(0x8253CC1A, 0xAB113B7A, 0xC20DAB6B, 0x0E96B2DA, 0x8346B27D, 0x82177FE8, 0x9CAB416F, 0x0434225E)
    ensures Round(Regs(0x8253CC1A, 0xAB113B7A, 0xC20DAB6B, 0x0E96B2DA, 0x8346B27D, 0x82177FE8, 0x9CAB416F, 0x0434225E),
      0x3956C25B, 0x00000000) ==
      Regs(0x08A0DC0C, 0x8253CC1A, 0xAB113B7A, 0xC20DAB6B, 0x05B557DB, 0x8346B27D, 0x82177FE8, 0x9CAB416F)
    ensures Round(Regs(0x08A0DC0C, 0x8253CC1A, 0xAB113B7A, 0xC20DAB6B, 0x05B557DB, 0x8346B27D, 0x82177FE8, 0x9CAB416F),
      0x59F111F1, 0x00000000) ==
      Regs(0xB2CA3A91, 0x08A0DC0C, 0x8253CC1A, 0xAB113B7A, 0x898DC7BB, 0x05B557DB, 0x8346B27D, 0x82177FE8)
    ensures Round(Regs(0xB2CA3A91, 0x08A0DC0C, 0x8253CC1A, 0xAB113B7A, 0x898DC7BB, 0x05B557DB, 0x8346B27D, 0x82177FE8),
      0x923F82A4, 0x00000000) ==
      Regs(0x0B6B9023, 0xB2CA3A91, 0x08A0DC0C, 0x8253CC1A, 0xA2E49147, 0x898DC7BB, 0x05B557DB, 0x8346B27D)
    ensures Round(Regs(0x0B6B9023, 0xB2CA3A91, 0x08A0DC0C, 0x8253CC1A, 0xA2E49147, 0x898DC7BB, 0x05B557DB, 0x8346B27D),
      0xAB1C5ED5, 0x00000000) ==
      Regs(0xF09D116D, 0x0B6B9023, 0xB2CA3A91, 0x08A0DC0C, 0x7A84120D, 0xA2E49147, 0x898DC7BB, 0x05B557DB)
  {}

  lemma Rounds224To8(r: Regs, b: seq<bv8>)
    requires AbcBlock(b) && r == Start(true)
    ensures Rounds(r, b, 8) ==
      Regs(0xF09D116D, 0x0B6B9023, 0xB2CA3A91, 0x08A0DC0C, 0x7A84120D, 0xA2E49147, 0x898DC7BB, 0x05B557DB)
  {
    assert Rounds(r, b, 0) == r;
    FirstWords(b);
    Constants0();
    Turns224From0();
    OneMoreRound(r, b, 0);
    OneMoreRound(r, b, 1);
    OneMoreRound(r, b, 2);
    OneMoreRound(r, b, 3);
    OneMoreRound(r, b, 4);
    OneMoreRound(r, b, 5);
    OneMoreRound(r, b, 6);
    OneMoreRound(r, b, 7);
    hide Schedule, Rounds, Round, K, AbcBlock;
  }

  lemma Turns224From8()
    ensures Round(Regs(0xF09D116D, 0x0B6B9023, 0xB2CA3A91, 0x08A0DC0C, 0x7A84120D, 0xA2E49147, 0x898DC7BB, 0x05B557DB),
      0xD807AA98, 0x00000000) ==
      Regs(0xED6FA633, 0xF09D116D, 0x0B6B9023, 0xB2CA3A91, 0xC037FAAD, 0x7A84120D, 0xA2E49147, 0x898DC7BB)
    ensures Round(Regs(0xED6FA633, 0xF09D116D, 0x0B6B9023, 0xB2CA3A91, 0xC037FAAD, 0x7A84120D, 0xA2E49147, 0x898DC7BB),
      0x12835B01, 0x00000000) ==
      Regs(0x55E6A367, 0xED6FA633, 0xF09D116D, 0x0B6B9023, 0xAAE50091, 0xC037FAAD, 0x7A84120D, 0xA2E49147)
    ensures Round(Regs(0x55E6A367, 0xED6FA633, 0xF09D116D, 0x0B6B9023, 0xAAE50091, 0xC037FAAD, 0x7A84120D, 0xA2E49147),
      0x243185BE, 0x00000000) ==
      Regs(0x0817E82B, 0x55E6A367, 0xED6FA633, 0xF09D116D, 0xC8C53A2C, 0xAAE50091, 0xC037FAAD, 0x7A84120D)
    ensures Round(Regs(0x0817E82B, 0x55E6A367, 0xED6FA633, 0xF09D116D, 0xC8C53A2C, 0xAAE50091, 0xC037FAAD, 0x7A84120D),
      0x550C7DC3, 0x00000000) ==
      Regs(0x17142334, 0x0817E82B, 0x55E6A367, 0xED6FA633, 0xDD4C7BE9, 0xC8C53A2C, 0xAAE50091, 0xC037FAAD)
    ensures Round(Regs(0x17142334, 0x0817E82B, 0x55E6A367, 0xED6FA633, 0xDD4C7BE9, 0xC8C53A2C, 0xAAE50091, 0xC037FAAD),
      0x72BE5D74, 0x00000000) ==
      Regs(0xFC4F023E, 0x17142334, 0x0817E82B, 0x55E6A367, 0x87BEA51A, 0xDD4C7BE9, 0xC8C53A2C, 0xAAE50091)
    ensures Round(Regs(0xFC4F023E, 0x17142334, 0x0817E82B, 0x55E6A367, 0x87BEA51A, 0xDD4C7BE9, 0xC8C53A2C, 0xAAE50091),
      0x80DEB1FE, 0x00000000) ==
      Regs(0xBE316902, 0xFC4F023E, 0x17142334, 0x0817E82B, 0x65141125, 0x87BEA51A, 0xDD4C7BE9, 0xC8C53A2C)
    ensures Round(Regs(0xBE316902, 0xFC4F023E, 0x17142334, 0x0817E82B, 0x65141125, 0x87BEA51A, 0xDD4C7BE9, 0xC8C53A2C),
      0x9BDC06A7, 0x00000000) ==
      Regs(0x1D80D178, 0xBE316902, 0xFC4F023E, 0x17142334, 0x4545F53A, 0x65141125, 0x87BEA51A, 0xDD4C7BE9)
    ensures Round(Regs(0x1D80D178, 0xBE316902, 0xFC4F023E, 0x17142334, 0x4545F53A, 0x65141125, 0x87BEA51A, 0xDD4C7BE9),
      0xC19BF174, 0x00000018) ==
      Regs(0x9F341A45, 0x1D80D178, 0xBE316902, 0xFC4F023E, 0x6A61C411, 0x4545F53A, 0x65141125, 0x87BEA51A)
  {}

  lemma Rounds224To16(r: Regs, b: seq<bv8>)
    requires AbcBlock(b) && r == Start(true)
    ensures Rounds(r, b, 16) ==
      Regs(0x9F341A45, 0x1D80D178, 0xBE316902, 0xFC4F023E, 0x6A61C411, 0x4545F53A, 0x65141125, 0x87BEA51A)
  {
    Rounds224To8(r, b);
    FirstWords(b);
    Constants8();
    Turns224From8();
    OneMoreRound(r, b, 8);
    OneMoreRound(r, b, 9);
    OneMoreRound(r, b, 10);
    OneMoreRound(r, b, 11);
    OneMoreRound(r, b, 12);
    OneMoreRound(r, b, 13);
    OneMoreRound(r, b, 14);
    OneMoreRound(r, b, 15);
    hide Schedule, Rounds, Round, K;
  }

  lemma Turns224From16()
    ensures Round(Regs(0x9F341A45, 0x1D80D178, 0xBE316902, 0xFC4F023E, 0x6A61C411, 0x4545F53A, 0x65141125, 0x87BEA51A),
      0xE49B69C1, 0x61626380) ==
      Regs(0x0F324DB9, 0x9F341A45, 0x1D80D178, 0xBE316902, 0x06C80D6A, 0x6A61C411, 0x4545F53A, 0x65141125)
    ensures Round(Regs(0x0F324DB9, 0x9F341A45, 0x1D80D178, 0xBE316902, 0x06C80D6A, 0x6A61C411, 0x4545F53A, 0x65141125),
      0xEFBE4786, 0x000F0000) ==
      Regs(0xFFE7012B, 0x0F324DB9, 0x9F341A45, 0x1D80D178, 0xB7B601F4, 0x06C80D6A, 0x6A61C411, 0x4545F53A)
    ensures Round(Regs(0xFFE7012B, 0x0F324DB9, 0x9F341A45, 0x1D80D178, 0xB7B601F4, 0x06C80D6A, 0x6A61C411, 0x4545F53A),
      0x0FC19DC6, 0x7DA86405) ==
      Regs(0x62932AB8, 0xFFE7012B, 0x0F324DB9, 0x9F341A45, 0x763B627A, 0xB7B601F4, 0x06C80D6A, 0x6A61C411)
    ensures Round(Regs(0x62932AB8, 0xFFE7012B, 0x0F324DB9, 0x9F341A45, 0x763B627A, 0xB7B601F4, 0x06C80D6A, 0x6A61C411),
      0x240CA1CC, 0x600003C6) ==
      Regs(0x5207D867, 0x62932AB8, 0xFFE7012B, 0x0F324DB9, 0x7FBBA936, 0x763B627A, 0xB7B601F4, 0x06C80D6A)
    ensures Round(Regs(0x5207D867, 0x62932AB8, 0xFFE7012B, 0x0F324DB9, 0x7FBBA936, 0x763B627A, 0xB7B601F4, 0x06C80D6A),
      0x2DE92C6F, 0x3E9D7B78) ==
      Regs(0x07D55CCB, 0x5207D867, 0x62932AB8, 0xFFE7012B, 0x9BA5A6EA, 0x7FBBA936, 0x763B627A, 0xB7B601F4)
    ensures Round(Regs(0x07D55CCB, 0x5207D867, 0x62932AB8, 0xFFE7012B, 0x9BA5A6EA, 0x7FBBA936, 0x763B627A, 0xB7B601F4),
      0x4A7484AA, 0x0183FC00) ==
      Regs(0xDECE98A4, 0x07D55CCB, 0x5207D867, 0x62932AB8, 0x293FFB5D, 0x9BA5A6EA, 0x7FBBA936, 0x763B627A)
    ensures Round(Regs(0xDECE98A4, 0x07D55CCB, 0x5207D867, 0x62932AB8, 0x293FFB5D, 0x9BA5A6EA, 0x7FBBA936, 0x763B627A),
      0x5CB0A9DC, 0x12DCBFDB) ==
      Regs(0xE62A812E, 0xDECE98A4, 0x07D55CCB, 0x5207D867, 0x28FE0FD9, 0x293FFB5D, 0x9BA5A6EA, 0x7FBBA936)
    ensures Round(Regs(0xE62A812E, 0xDECE98A4, 0x07D55CCB, 0x5207D867, 0x28FE0FD9, 0x293FFB5D, 0x9BA5A6EA, 0x7FBBA936),
      0x76F988DA, 0xE2E2C38E) ==
      Regs(0x57206FB8, 0xE62A812E, 0xDECE98A4, 0x07D55CCB, 0xC76084EA, 0x28FE0FD9, 0x293FFB5D, 0x9BA5A6EA)
  {}

  lemma Rounds224To24(r: Regs, b: seq<bv8>)
    requires AbcBlock(b) && r == Start(true)
    ensures Rounds(r, b, 24) ==
      Regs(0x57206FB8, 0xE62A812E, 0xDECE98A4, 0x07D55CCB, 0xC76084EA, 0x28FE0FD9, 0x293FFB5D, 0x9BA5A6EA)
  {
    Rounds224To16(r, b);
    Words16(b);
    Constants16();
    Turns224From16();
    OneMoreRound(r, b, 16);
    OneMoreRound(r, b, 17);
    OneMoreRound(r, b, 18);
    OneMoreRound(r, b, 19);
    OneMoreRound(r, b, 20);
    OneMoreRound(r, b, 21);
    OneMoreRound(r, b, 22);
    OneMoreRound(r, b, 23);
    hide Schedule, Rounds, Round, K;
  }

  lemma Turns224From24()
    ensures Round(Regs(0x57206FB8, 0xE62A812E, 0xDECE98A4, 0x07D55CCB, 0xC76084EA, 0x28FE0FD9, 0x293FFB5D, 0x9BA5A6EA),
      0x983E5152, 0xC8215C1A) ==
      Regs(0x6A6ABCF0, 0x57206FB8, 0xE62A812E, 0xDECE98A4, 0xB2614C5E, 0xC76084EA, 0x28FE0FD9, 0x293FFB5D)
    ensures Round(Regs(0x6A6ABCF0, 0x57206FB8, 0xE62A812E, 0xDECE98A4, 0xB2614C5E, 0xC76084EA, 0x28FE0FD9, 0x293FFB5D),
      0xA831C66D, 0xB73679A2) ==
      Regs(0x937514F0, 0x6A6ABCF0, 0x57206FB8, 0xE62A812E, 0xB42EC21C, 0xB2614C5E, 0xC76084EA, 0x28FE0FD9)
    ensures Round(Regs(0x937514F0, 0x6A6ABCF0, 0x57206FB8, 0xE62A812E, 0xB42EC21C, 0xB2614C5E, 0xC76084EA, 0x28FE0FD9),
      0xB00327C8, 0xE5BC3909) ==
      Regs(0x82AF3FFB, 0x937514F0, 0x6A6ABCF0, 0x57206FB8, 0xBE6F6760, 0xB42EC21C, 0xB2614C5E, 0xC76084EA)
    ensures Round(Regs(0x82AF3FFB, 0x937514F0, 0x6A6ABCF0, 0x57206FB8, 0xBE6F6760, 0xB42EC21C, 0xB2614C5E, 0xC76084EA),
      0xBF597FC7, 0x32663C5B) ==
      Regs(0xECA3BCD5, 0x82AF3FFB, 0x937514F0, 0x6A6ABCF0, 0x1DCCBB10, 0xBE6F6760, 0xB42EC21C, 0xB2614C5E)
    ensures Round(Regs(0xECA3BCD5, 0x82AF3FFB, 0x937514F0, 0x6A6ABCF0, 0x1DCCBB10, 0xBE6F6760, 0xB42EC21C, 0xB2614C5E),
      0xC6E00BF3, 0x9D209D67) ==
      Regs(0x2D1576C4, 0xECA3BCD5, 0x82AF3FFB, 0x937514F0, 0x01641929, 0x1DCCBB10, 0xBE6F6760, 0xB42EC21C)
    ensures Round(Regs(0x2D1576C4, 0xECA3BCD5, 0x82AF3FFB, 0x937514F0, 0x01641929, 0x1DCCBB10, 0xBE6F6760, 0xB42EC21C),
      0xD5A79147, 0xEC8726CB) ==
      Regs(0xFE3C8658, 0x2D1576C4, 0xECA3BCD5, 0x82AF3FFB, 0xFC4B36C5, 0x01641929, 0x1DCCBB10, 0xBE6F6760)
    ensures Round(Regs(0xFE3C8658, 0x2D1576C4, 0xECA3BCD5, 0x82AF3FFB, 0xFC4B36C5, 0x01641929, 0x1DCCBB10, 0xBE6F6760),
      0x06CA6351, 0x702138A4) ==
      Regs(0x0D7CCE07, 0xFE3C8658, 0x2D1576C4, 0xECA3BCD5, 0xA4A4A3A4, 0xFC4B36C5, 0x01641929, 0x1DCCBB10)
    ensures Round(Regs(0x0D7CCE07, 0xFE3C8658, 0x2D1576C4, 0xECA3BCD5, 0xA4A4A3A4, 0xFC4B36C5, 0x01641929, 0x1DCCBB10),
      0x14292967, 0xD3B7973B) ==
      Regs(0xCCE1951D, 0x0D7CCE07, 0xFE3C8658, 0x2D1576C4, 0x4BE9475C, 0xA4A4A3A4, 0xFC4B36C5, 0x01641929)
  {}

  lemma Rounds224To32(r: Regs, b: seq<bv8>)
    requires AbcBlock(b) && r == Start(true)
    ensures Rounds(r, b, 32) ==
      Regs(0xCCE1951D, 0x0D7CCE07, 0xFE3C8658, 0x2D1576C4, 0x4BE9475C, 0xA4A4A3A4, 0xFC4B36C5, 0x01641929)
  {
    Rounds224To24(r, b);
    Words24(b);
    Constants24();
    Turns224From24();
    OneMoreRound(r, b, 24);
    OneMoreRound(r, b, 25);
    OneMoreRound(r, b, 26);
    OneMoreRound(r, b, 27);
    OneMoreRound(r, b, 28);
    OneMoreRound(r, b, 29);
    OneMoreRound(r, b, 30);
    OneMoreRound(r, b, 31);
    hide Schedule, Rounds, Round, K;
  }

  lemma Turns224From32()
    ensures Round(Regs(0xCCE1951D, 0x0D7CCE07, 0xFE3C8658, 0x2D1576C4, 0x4BE9475C, 0xA4A4A3A4, 0xFC4B36C5, 0x01641929),
      0x27B70A85, 0x93F5997F) ==
      Regs(0x09B76257, 0xCCE1951D, 0x0D7CCE07, 0xFE3C8658, 0x0CCDDD86, 0x4BE9475C, 0xA4A4A3A4, 0xFC4B36C5)
    ensures Round(Regs(0x09B76257, 0xCCE1951D, 0x0D7CCE07, 0xFE3C8658, 0x0CCDDD86, 0x4BE9475C, 0xA4A4A3A4, 0xFC4B36C5),
      0x2E1B2138, 0x3B68BA73) ==
      Regs(0xF827767E, 0x09B76257, 0xCCE1951D, 0x0D7CCE07, 0xDB116DB7, 0x0CCDDD86, 0x4BE9475C, 0xA4A4A3A4)
    ensures Round(Regs(0xF827767E, 0x09B76257, 0xCCE1951D, 0x0D7CCE07, 0xDB116DB7, 0x0CCDDD86, 0x4BE9475C, 0xA4A4A3A4),
      0x4D2C6DFC, 0xAFF4FFC1) ==
      Regs(0xE4A0BB48, 0xF827767E, 0x09B76257, 0xCCE1951D, 0x994E2BAC, 0xDB116DB7, 0x0CCDDD86, 0x4BE9475C)
    ensures Round(Regs(0xE4A0BB48, 0xF827767E, 0x09B76257, 0xCCE1951D, 0x994E2BAC, 0xDB116DB7, 0x0CCDDD86, 0x4BE9475C),
      0x53380D13, 0xF10A5C62) ==
      Regs(0xD8BB1041, 0xE4A0BB48, 0xF827767E, 0x09B76257, 0x5B730ABB, 0x994E2BAC, 0xDB116DB7, 0x0CCDDD86)
    ensures Round(Regs(0xD8BB1041, 0xE4A0BB48, 0xF827767E, 0x09B76257, 0x5B730ABB, 0x994E2BAC, 0xDB116DB7, 0x0CCDDD86),
      0x650A7354, 0x0A8B3996) ==
      Regs(0x2A2E32F4, 0xD8BB1041, 0xE4A0BB48, 0xF827767E, 0x22E15C59, 0x5B730ABB, 0x994E2BAC, 0xDB116DB7)
    ensures Round(Regs(0x2A2E32F4, 0xD8BB1041, 0xE4A0BB48, 0xF827767E, 0x22E15C59, 0x5B730ABB, 0x994E2BAC, 0xDB116DB7),
      0x766A0ABB, 0x72AF830A) ==
      Regs(0x0D275CA8, 0x2A2E32F4, 0xD8BB1041, 0xE4A0BB48, 0xF6C39382, 0x22E15C59, 0x5B730ABB, 0x994E2BAC)
    ensures Round(Regs(0x0D275CA8, 0x2A2E32F4, 0xD8BB1041, 0xE4A0BB48, 0xF6C39382, 0x22E15C59, 0x5B730ABB, 0x994E2BAC),
      0x81C2C92E, 0x9409E33E) ==
      Regs(0x7902369C, 0x0D275CA8, 0x2A2E32F4, 0xD8BB1041, 0xD9F8C2E0, 0xF6C39382, 0x22E15C59, 0x5B730ABB)
    ensures Round(Regs(0x7902369C, 0x0D275CA8, 0x2A2E32F4, 0xD8BB1041, 0xD9F8C2E0, 0xF6C39382, 0x22E15C59, 0x5B730ABB),
      0x92722C85, 0x24641522) ==
      Regs(0xF3C80288, 0x7902369C, 0x0D275CA8, 0x2A2E32F4, 0x00E3A7BB, 0xD9F8C2E0, 0xF6C39382, 0x22E15C59)
  {}

  lemma Rounds224To40(r: Regs, b: seq<bv8>)
    requires AbcBlock(b) && r == Start(true)
    ensures Rounds(r, b, 40) ==
      Regs(0xF3C80288, 0x7902369C, 0x0D275CA8, 0x2A2E32F4, 0x00E3A7BB, 0xD9F8C2E0, 0xF6C39382, 0x22E15C59)
  {
    Rounds224To32(r, b);
    Words32(b);
    Constants32();
    Turns224From32();
    OneMoreRound(r, b, 32);
    OneMoreRound(r, b, 33);
    OneMoreRound(r, b, 34);
    OneMoreRound(r, b, 35);
    OneMoreRound(r, b, 36);
    OneMoreRound(r, b, 37);
    OneMoreRound(r, b, 38);
    OneMoreRound(r, b, 39);
    hide Schedule, Rounds, Round, K;
  }

  lemma Turns224From40()
    ensures Round(Regs(0xF3C80288, 0x7902369C, 0x0D275CA8, 0x2A2E32F4, 0x00E3A7BB, 0xD9F8C2E0, 0xF6C39382, 0x22E15C59),
      0xA2BFE8A1, 0x9F47BF94) ==
      Regs(0x483BBA4D, 0xF3C80288, 0x7902369C, 0x0D275CA8, 0xF0A8198C, 0x00E3A7BB, 0xD9F8C2E0, 0xF6C39382)
    ensures Round(Regs(0x483BBA4D, 0xF3C80288, 0x7902369C, 0x0D275CA8, 0xF0A8198C, 0x00E3A7BB, 0xD9F8C2E0, 0xF6C39382),
      0xA81A664B, 0xF0A64F5A) ==
      Regs(0xD75D4D26, 0x483BBA4D, 0xF3C80288, 0x7902369C, 0xFCECDCD4, 0xF0A8198C, 0x00E3A7BB, 0xD9F8C2E0)
    ensures Round(Regs(0xD75D4D26, 0x483BBA4D, 0xF3C80288, 0x7902369C, 0xFCECDCD4, 0xF0A8198C, 0x00E3A7BB, 0xD9F8C2E0),
      0xC24B8B70, 0x3E246A79) ==
      Regs(0x0744B618, 0xD75D4D26, 0x483BBA4D, 0xF3C80288, 0x03186FAA, 0xFCECDCD4, 0xF0A8198C, 0x00E3A7BB)
    ensures Round(Regs(0x0744B618, 0xD75D4D26, 0x483BBA4D, 0xF3C80288, 0x03186FAA, 0xFCECDCD4, 0xF0A8198C, 0x00E3A7BB),
      0xC76C51A3, 0x27333BA3) ==
      Regs(0x9CCE9F01, 0x0744B618, 0xD75D4D26, 0x483BBA4D, 0xA56F6BBF, 0x03186FAA, 0xFCECDCD4, 0xF0A8198C)
    ensures Round(Regs(0x9CCE9F01, 0x0744B618, 0xD75D4D26, 0x483BBA4D, 0xA56F6BBF, 0x03186FAA, 0xFCECDCD4, 0xF0A8198C),
      0xD192E819, 0x0C4763F2) ==
      Regs(0xA3701BD9, 0x9CCE9F01, 0x0744B618, 0xD75D4D26, 0xAF1BEF5F, 0xA56F6BBF, 0x03186FAA, 0xFCECDCD4)
    ensures Round(Regs(0xA3701BD9, 0x9CCE9F01, 0x0744B618, 0xD75D4D26, 0xAF1BEF5F, 0xA56F6BBF, 0x03186FAA, 0xFCECDCD4),
      0xD6990624, 0x840ABF27) ==
      Regs(0x131D4C09, 0xA3701BD9, 0x9CCE9F01, 0x0744B618, 0xECB77E1B, 0xAF1BEF5F, 0xA56F6BBF, 0x03186FAA)
    ensures Round(Regs(0x131D4C09, 0xA3701BD9, 0x9CCE9F01, 0x0744B618, 0xECB77E1B, 0xAF1BEF5F, 0xA56F6BBF, 0x03186FAA),
      0xF40E3585, 0x7A290D5D) ==
      Regs(0xFB3777D9, 0x131D4C09, 0xA3701BD9, 0x9CCE9F01, 0x1D601F44, 0xECB77E1B, 0xAF1BEF5F, 0xA56F6BBF)
    ensures Round(Regs(0xFB3777D9, 0x131D4C09, 0xA3701BD9, 0x9CCE9F01, 0x1D601F44, 0xECB77E1B, 0xAF1BEF5F, 0xA56F6BBF),
      0x106AA070, 0x065C43DA) ==
      Regs(0x847EA00E, 0xFB3777D9, 0x131D4C09, 0xA3701BD9, 0x503A7B95, 0x1D601F44, 0xECB77E1B, 0xAF1BEF5F)
  {}

  lemma Rounds224To48(r: Regs, b: seq<bv8>)
    requires AbcBlock(b) && r == Start(true)
    ensures Rounds(r, b, 48) ==
      Regs(0x847EA00E, 0xFB3777D9, 0x131D4C09, 0xA3701BD9, 0x503A7B95, 0x1D601F44, 0xECB77E1B, 0xAF1BEF5F)
  {
    Rounds224To40(r, b);
    Words40(b);
    Constants40();
    Turns224From40();
    OneMoreRound(r, b, 40);
    OneMoreRound(r, b, 41);
    OneMoreRound(r, b, 42);
    OneMoreRound(r, b, 43);
    OneMoreRound(r, b, 44);
    OneMoreRound(r, b, 45);
    OneMoreRound(r, b, 46);
    OneMoreRound(r, b, 47);
    hide Schedule, Rounds, Round, K;
  }

  lemma Turns224From48()
    ensures Round(Regs(0x847EA00E, 0xFB3777D9, 0x131D4C09, 0xA3701BD9, 0x503A7B95, 0x1D601F44, 0xECB77E1B, 0xAF1BEF5F),
      0x19A4C116, 0xFB3E89CB) ==
      Regs(0xAAA69347, 0x847EA00E, 0xFB3777D9, 0x131D4C09, 0x5EEB9930, 0x503A7B95, 0x1D601F44, 0xECB77E1B)
    ensures Round(Regs(0xAAA69347, 0x847EA00E, 0xFB3777D9, 0x131D4C09, 0x5EEB9930, 0x503A7B95, 0x1D601F44, 0xECB77E1B),
      0x1E376C08, 0xCC7617DB) ==
      Regs(0x505CAF28, 0xAAA69347, 0x847EA00E, 0xFB3777D9, 0xCE695893, 0x5EEB9930, 0x503A7B95, 0x1D601F44)
    ensures Round(Regs(0x505CAF28, 0xAAA69347, 0x847EA00E, 0xFB3777D9, 0xCE695893, 0x5EEB9930, 0x503A7B95, 0x1D601F44),
      0x2748774C, 0xB9E66C34) ==
      Regs(0x675E0B02, 0x505CAF28, 0xAAA69347, 0x847EA00E, 0xC22DD75F, 0xCE695893, 0x5EEB9930, 0x503A7B95)
    ensures Round(Regs(0x675E0B02, 0x505CAF28, 0xAAA69347, 0x847EA00E, 0xC22DD75F, 0xCE695893, 0x5EEB9930, 0x503A7B95),
      0x34B0BCB5, 0xA9993667) ==
      Regs(0xABD26099, 0x675E0B02, 0x505CAF28, 0xAAA69347, 0x1409C3F8, 0xC22DD75F, 0xCE695893, 0x5EEB9930)
    ensures Round(Regs(0xABD26099, 0x675E0B02, 0x505CAF28, 0xAAA69347, 0x1409C3F8, 0xC22DD75F, 0xCE695893, 0x5EEB9930),
      0x391C0CB3, 0x84BADEDD) ==
      Regs(0x0DF9857A, 0xABD26099, 0x675E0B02, 0x505CAF28, 0x2D864D9F, 0x1409C3F8, 0xC22DD75F, 0xCE695893)
    ensures Round(Regs(0x0DF9857A, 0xABD26099, 0x675E0B02, 0x505CAF28, 0x2D864D9F, 0x1409C3F8, 0xC22DD75F, 0xCE695893),
      0x4ED8AA4A, 0xC21462BC) ==
      Regs(0x308B8799, 0x0DF9857A, 0xABD26099, 0x675E0B02, 0x02524F02, 0x2D864D9F, 0x1409C3F8, 0xC22DD75F)
    ensures Round(Regs(0x308B8799, 0x0DF9857A, 0xABD26099, 0x675E0B02, 0x02524F02, 0x2D864D9F, 0x1409C3F8, 0xC22DD75F),
      0x5B9CCA4F, 0x1487472C) ==
      Regs(0x909CC059, 0x308B8799, 0x0DF9857A, 0xABD26099, 0x6F2A444A, 0x02524F02, 0x2D864D9F, 0x1409C3F8)
    ensures Round(Regs(0x909CC059, 0x308B8799, 0x0DF9857A, 0xABD26099, 0x6F2A444A, 0x02524F02, 0x2D864D9F, 0x1409C3F8),
      0x682E6FF3, 0xB20F7A99) ==
      Regs(0x8D25BD94, 0x909CC059, 0x308B8799, 0x0DF9857A, 0x1273C622, 0x6F2A444A, 0x02524F02, 0x2D864D9F)
  {}

  lemma Rounds224To56(r: Regs, b: seq<bv8>)
    requires AbcBlock(b) && r == Start(true)
    ensures Rounds(r, b, 56) ==
      Regs(0x8D25BD94, 0x909CC059, 0x308B8799, 0x0DF9857A, 0x1273C622, 0x6F2A444A, 0x02524F02, 0x2D864D9F)
  {
    Rounds224To48(r, b);
    Words48(b);
    Constants48();
    Turns224From48();
    OneMoreRound(r, b, 48);
    OneMoreRound(r, b, 49);
    OneMoreRound(r, b, 50);
    OneMoreRound(r, b, 51);
    OneMoreRound(r, b, 52);
    OneMoreRound(r, b, 53);
    OneMoreRound(r, b, 54);
    OneMoreRound(r, b, 55);
    hide Schedule, Rounds, Round, K;
  }

  lemma Turns224From56()
    ensures Round(Regs(0x8D25BD94, 0x909CC059, 0x308B8799, 0x0DF9857A, 0x1273C622, 0x6F2A444A, 0x02524F02, 0x2D864D9F),
      0x748F82EE, 0xEF57B9CD) ==
      Regs(0xF32141DA, 0x8D25BD94, 0x909CC059, 0x308B8799, 0x1771ED3F, 0x1273C622, 0x6F2A444A, 0x02524F02)
    ensures Round(Regs(0xF32141DA, 0x8D25BD94, 0x909CC059, 0x308B8799, 0x1771ED3F, 0x1273C622, 0x6F2A444A, 0x02524F02),
      0x78A5636F, 0xEBE6B238) ==
      Regs(0x8CE24395, 0xF32141DA, 0x8D25BD94, 0x909CC059, 0xF52F66A6, 0x1771ED3F, 0x1273C622, 0x6F2A444A)
    ensures Round(Regs(0x8CE24395, 0xF32141DA, 0x8D25BD94, 0x909CC059, 0xF52F66A6, 0x1771ED3F, 0x1273C622, 0x6F2A444A),
      0x84C87814, 0x9FE3095E) ==
      Regs(0x07BCD846, 0x8CE24395, 0xF32141DA, 0x8D25BD94, 0x149DB547, 0xF52F66A6, 0x1771ED3F, 0x1273C622)
    ensures Round(Regs(0x07BCD846, 0x8CE24395, 0xF32141DA, 0x8D25BD94, 0x149DB547, 0xF52F66A6, 0x1771ED3F, 0x1273C622),
      0x8CC70208, 0x78BC8D4B) ==
      Regs(0x622D5E5B, 0x07BCD846, 0x8CE24395, 0xF32141DA, 0xB6F4C630, 0x149DB547, 0xF52F66A6, 0x1771ED3F)
    ensures Round(Regs(0x622D5E5B, 0x07BCD846, 0x8CE24395, 0xF32141DA, 0xB6F4C630, 0x149DB547, 0xF52F66A6, 0x1771ED3F),
      0x90BEFFFA, 0xA43FCF15) ==
      Regs(0xC693FC7A, 0x622D5E5B, 0x07BCD846, 0x8CE24395, 0x13DFB889, 0xB6F4C630, 0x149DB547, 0xF52F66A6)
    ensures Round(Regs(0xC693FC7A, 0x622D5E5B, 0x07BCD846, 0x8CE24395, 0x13DFB889, 0xB6F4C630, 0x149DB547, 0xF52F66A6),
      0xA4506CEB, 0x668B2FF8) ==
      Regs(0x55D1C760, 0xC693FC7A, 0x622D5E5B, 0x07BCD846, 0x7E730E00, 0x13DFB889, 0xB6F4C630, 0x149DB547)
    ensures Round(Regs(0x55D1C760, 0xC693FC7A, 0x622D5E5B, 0x07BCD846, 0x7E730E00, 0x13DFB889, 0xB6F4C630, 0x149DB547),
      0xBEF9A3F7, 0xEEABA2CC) ==
      Regs(0xFD89031B, 0x55D1C760, 0xC693FC7A, 0x622D5E5B, 0x55489EE6, 0x7E730E00, 0x13DFB889, 0xB6F4C630)
    ensures Round(Regs(0xFD89031B, 0x55D1C760, 0xC693FC7A, 0x622D5E5B, 0x55489EE6, 0x7E730E00, 0x13DFB889, 0xB6F4C630),
      0xC67178F2, 0x12B1EDEB) ==
      Regs(0x6203DE4A, 0xFD89031B, 0x55D1C760, 0xC693FC7A, 0x2AEDB1B3, 0x55489EE6, 0x7E730E00, 0x13DFB889)
  {}

  lemma Rounds224To64(r: Regs, b: seq<bv8>)
    requires AbcBlock(b) && r == Start(true)
    ensures Rounds(r, b, 64) ==
      Regs(0x6203DE4A, 0xFD89031B, 0x55D1C760, 0xC693FC7A, 0x2AEDB1B3, 0x55489EE6, 0x7E730E00, 0x13DFB889)
  {
    Rounds224To56(r, b);
    Words56(b);
    Constants56();
    Turns224From56();
    OneMoreRound(r, b, 56);
    OneMoreRound(r, b, 57);
    OneMoreRound(r, b, 58);
    OneMoreRound(r, b, 59);
    OneMoreRound(r, b, 60);
    OneMoreRound(r, b, 61);
    OneMoreRound(r, b, 62);
    OneMoreRound(r, b, 63);
    hide Schedule, Rounds, Round, K;
  }

  lemma AbcPadded()
    ensures AbcBlock(Padded(ABC, BigEndian64(8 * |ABC|)))
  {
    assert |Padded(ABC, BigEndian64(24))| == 64 by { EightBytes(24); }
    LengthOfAbc();
    hide BigEndian64;
  }

  lemma LengthOfAbc()
    ensures BigEndian64(24) == [0, 0, 0, 0, 0, 0, 0, 24]
  {
    assert ByteOf(0) == 0 && ByteOf(24) == 24;
    hide ByteOf;
  }

  lemma Sum256(x: Regs, y: Regs)
    requires x == Start(false)
    requires y == Regs(0x506E3058, 0xD39A2165, 0x04D24D6C, 0xB85E2CE9, 0x5EF50F24, 0xFB121210, 0x948D25B6, 0x961F4894)
    ensures Sum(x, y) ==
      Regs(0xBA7816BF, 0x8F01CFEA, 0x414140DE, 0x5DAE2223, 0xB00361A3, 0x96177A9C, 0xB410FF61, 0xF20015AD)
  {}

  lemma Sum224(x: Regs, y: Regs)
    requires x == Start(true)
    requires y == Regs(0x6203DE4A, 0xFD89031B, 0x55D1C760, 0xC693FC7A, 0x2AEDB1B3, 0x55489EE6, 0x7E730E00, 0x13DFB889)
    ensures Sum(x, y) ==
      Regs(0x23097D22, 0x3405D822, 0x8642A477, 0xBDA255B3, 0x2AADBCE4, 0xBDA0B3F7, 0xE36C9DA7, 0xD2DA082D)
  {}

  lemma Output256()
    ensures Output(Regs(0xBA7816BF, 0x8F01CFEA, 0x414140DE, 0x5DAE2223, 0xB00361A3, 0x96177A9C, 0xB410FF61, 0xF20015AD),
      false) == [
      0xBA, 0x78, 0x16, 0xBF, 0x8F, 0x01, 0xCF, 0xEA, 0x41, 0x41, 0x40, 0xDE, 0x5D, 0xAE, 0x22, 0x23,
      0xB0, 0x03, 0x61, 0xA3, 0x96, 0x17, 0x7A, 0x9C, 0xB4, 0x10, 0xFF, 0x61, 0xF2, 0x00, 0x15, 0xAD]
  {}

  /** The SHA-256 digest of "abc". */
  lemma Digest256OfAbc()
    ensures Digest(ABC, false) == [
      0xBA, 0x78, 0x16, 0xBF, 0x8F, 0x01, 0xCF, 0xEA, 0x41, 0x41, 0x40, 0xDE, 0x5D, 0xAE, 0x22, 0x23,
      0xB0, 0x03, 0x61, 0xA3, 0x96, 0x17, 0x7A, 0x9C, 0xB4, 0x10, 0xFF, 0x61, 0xF2, 0x00, 0x15, 0xAD]
  {
    var b := Padded(ABC, BigEndian64(8 * |ABC|));
    AbcPadded();
    AbsorbOne(Compress, Start(false), b);
    Rounds256To64(Start(false), b);
    Sum256(Start(false), Rounds(Start(false), b, 64));
    Output256();
    hide Absorb, Start, Padded, BigEndian64, Output, Rounds, Sum;
  }

  lemma Output224()
    ensures Output(Regs(0x23097D22, 0x3405D822, 0x8642A477, 0xBDA255B3, 0x2AADBCE4, 0xBDA0B3F7, 0xE36C9DA7, 0xD2DA082D),
      true) == [
      0x23, 0x09, 0x7D, 0x22, 0x34, 0x05, 0xD8, 0x22, 0x86, 0x42, 0xA4, 0x77, 0xBD, 0xA2, 0x55, 0xB3,
      0x2A, 0xAD, 0xBC, 0xE4, 0xBD, 0xA0, 0xB3, 0xF7, 0xE3, 0x6C, 0x9D, 0xA7]
  {}

  /** The SHA-224 digest of "abc". */
  lemma Digest224OfAbc()
    ensures Digest(ABC, true) == [
      0x23, 0x09, 0x7D, 0x22, 0x34, 0x05, 0xD8, 0x22, 0x86, 0x42, 0xA4, 0x77, 0xBD, 0xA2, 0x55, 0xB3,
      0x2A, 0xAD, 0xBC, 0xE4, 0xBD, 0xA0, 0xB3, 0xF7, 0xE3, 0x6C, 0x9D, 0xA7]
  {
    var b := Padded(ABC, BigEndian64(8 * |ABC|));
    AbcPadded();
    AbsorbOne(Compress, Start(true), b);
    Rounds224To64(Start(true), b);
    Sum224(Start(true), Rounds(Start(true), b, 64));
    Output224();
    hide Absorb, Start, Padded, BigEndian64, Output, Rounds, Sum;
  }
}
