/** The worked example of FIPS PUB 180-1, Appendix A: the schedule, the registers and the digest of "abc" as numbers. */
module Sha1Example {
  import opened Sequences
  import opened Sha1Standard

  // The padded message, one block.
  const ABC: Block := [0x61, 0x62, 0x63, 0x80] + Repeat<Byte>(0, 59) + [0x18]

  lemma FirstWord(t: nat)
    requires t < 16
    ensures W(ABC, t) == if t == 0 then 0x61626380 else if t == 15 then 0x18 else 0
  {
    ZeroWord();
    assert forall i :: 4 <= i < 63 ==> ABC[i] == 0;
    assert ABC[0] == 0x61 && ABC[1] == 0x62 && ABC[2] == 0x63 && ABC[3] == 0x80 && ABC[63] == 0x18;
  }

  lemma ZeroWord()
    ensures WordOf(0, 0, 0, 0) == 0 && WordOf(0x61, 0x62, 0x63, 0x80) == 0x61626380 && WordOf(0, 0, 0, 0x18) == 0x18
  {}

  lemma NextWord(t: nat)
    requires 16 <= t
    ensures W(ABC, t) == (W(ABC, t - 3) ^ W(ABC, t - 8) ^ W(ABC, t - 14) ^ W(ABC, t - 16)).RotateLeft(1)
  {}

  // The words of the schedule.
  lemma Words0()
    ensures W(ABC, 0) == 0x61626380 && W(ABC, 1) == 0x00000000
    ensures W(ABC, 2) == 0x00000000 && W(ABC, 3) == 0x00000000
    ensures W(ABC, 4) == 0x00000000 && W(ABC, 5) == 0x00000000
    ensures W(ABC, 6) == 0x00000000 && W(ABC, 7) == 0x00000000
  {
    hide W;
    FirstWord(0);
    FirstWord(1);
    FirstWord(2);
    FirstWord(3);
    FirstWord(4);
    FirstWord(5);
    FirstWord(6);
    FirstWord(7);
  }

  lemma Words8()
    ensures W(ABC, 8) == 0x00000000 && W(ABC, 9) == 0x00000000
    ensures W(ABC, 10) == 0x00000000 && W(ABC, 11) == 0x00000000
    ensures W(ABC, 12) == 0x00000000 && W(ABC, 13) == 0x00000000
    ensures W(ABC, 14) == 0x00000000 && W(ABC, 15) == 0x00000018
  {
    hide W;
    FirstWord(8);
    FirstWord(9);
    FirstWord(10);
    FirstWord(11);
    FirstWord(12);
    FirstWord(13);
    FirstWord(14);
    FirstWord(15);
  }

  lemma Words16()
    ensures W(ABC, 16) == 0xC2C4C700 && W(ABC, 17) == 0x00000000
    ensures W(ABC, 18) == 0x00000030 && W(ABC, 19) == 0x85898E01
    ensures W(ABC, 20) == 0x00000000 && W(ABC, 21) == 0x00000060
    ensures W(ABC, 22) == 0x0B131C03 && W(ABC, 23) == 0x00000030
  {
    hide W;
    Words0();
    Words8();
    NextWord(16);
    NextWord(17);
    NextWord(18);
    NextWord(19);
    NextWord(20);
    NextWord(21);
    NextWord(22);
    NextWord(23);
  }

  lemma Words24()
    ensures W(ABC, 24) == 0x85898EC1 && W(ABC, 25) == 0x16263806
    ensures W(ABC, 26) == 0x00000000 && W(ABC, 27) == 0x00000180
    ensures W(ABC, 28) == 0x2C4C700C && W(ABC, 29) == 0x000000F0
    ensures W(ABC, 30) == 0x93AFB507 && W(ABC, 31) == 0x5898E048
  {
    hide W;
    Words8();
    Words16();
    NextWord(24);
    NextWord(25);
    NextWord(26);
    NextWord(27);
    NextWord(28);
    NextWord(29);
    NextWord(30);
    NextWord(31);
  }

  lemma Words32()
    ensures W(ABC, 32) == 0x8E9A9202 && W(ABC, 33) == 0x00000600
    ensures W(ABC, 34) == 0xB131C0F0 && W(ABC, 35) == 0x16263BC6
    ensures W(ABC, 36) == 0x4EBED41E && W(ABC, 37) == 0x626380A1
    ensures W(ABC, 38) == 0x16263806 && W(ABC, 39) == 0x000018C0
  {
    hide W;
    Words16();
    Words24();
    NextWord(32);
    NextWord(33);
    NextWord(34);
    NextWord(35);
    NextWord(36);
    NextWord(37);
    NextWord(38);
    NextWord(39);
  }

  lemma Words40()
    ensures W(ABC, 40) == 0xD2E138C4 && W(ABC, 41) == 0x00000F00
    ensures W(ABC, 42) == 0x3AFB5079 && W(ABC, 43) == 0x898E04E5
    ensures W(ABC, 44) == 0xE2BA3C2B && W(ABC, 45) == 0x000060C0
    ensures W(ABC, 46) == 0x053A37CD && W(ABC, 47) == 0x74458547
  {
    hide W;
    Words24();
    Words32();
    NextWord(40);
    NextWord(41);
    NextWord(42);
    NextWord(43);
    NextWord(44);
    NextWord(45);
    NextWord(46);
    NextWord(47);
  }

  lemma Words48()
    ensures W(ABC, 48) == 0xDA9415ED && W(ABC, 49) == 0x26380A16
    ensures W(ABC, 50) == 0x626383A1 && W(ABC, 51) == 0x4EBF54DE
    ensures W(ABC, 52) == 0x3835B44B && W(ABC, 53) == 0x0000F600
    ensures W(ABC, 54) == 0x1E84C7A3 && W(ABC, 55) == 0x98E04D98
  {
    hide W;
    Words32();
    Words40();
    NextWord(48);
    NextWord(49);
    NextWord(50);
    NextWord(51);
    NextWord(52);
    NextWord(53);
    NextWord(54);
    NextWord(55);
  }

  lemma Words56()
    ensures W(ABC, 56) == 0x651D16A0 && W(ABC, 57) == 0x62658CA1
    ensures W(ABC, 58) == 0x458544D6 && W(ABC, 59) == 0x44584CB7
    ensures W(ABC, 60) == 0x7BA06619 && W(ABC, 61) == 0x6380AEA2
    ensures W(ABC, 62) == 0x0AE55269 && W(ABC, 63) == 0x627B49A1
  {
    hide W;
    Words40();
    Words48();
    NextWord(56);
    NextWord(57);
    NextWord(58);
    NextWord(59);
    NextWord(60);
    NextWord(61);
    NextWord(62);
    NextWord(63);
  }

  lemma Words64()
    ensures W(ABC, 64) == 0x7CD45C9D && W(ABC, 65) == 0x000F0000
    ensures W(ABC, 66) == 0xFB50753A && W(ABC, 67) == 0xEC6765E8
    ensures W(ABC, 68) == 0xBA3C2BE2 && W(ABC, 69) == 0x0060C000
    ensures W(ABC, 70) == 0x3A37CD05 && W(ABC, 71) == 0x458546F4
  {
    hide W;
    Words48();
    Words56();
    NextWord(64);
    NextWord(65);
    NextWord(66);
    NextWord(67);
    NextWord(68);
    NextWord(69);
    NextWord(70);
    NextWord(71);
  }

  lemma Words72()
    ensures W(ABC, 72) == 0xB8599DD6 && W(ABC, 73) == 0x380A1A26
    ensures W(ABC, 74) == 0x01E02203 && W(ABC, 75) == 0xE7CC3456
    ensures W(ABC, 76) == 0xE6E60B69 && W(ABC, 77) == 0x00F60A00
    ensures W(ABC, 78) == 0x5795EF4F && W(ABC, 79) == 0x822E0879
  {
    hide W;
    Words56();
    Words64();
    NextWord(72);
    NextWord(73);
    NextWord(74);
    NextWord(75);
    NextWord(76);
    NextWord(77);
    NextWord(78);
    NextWord(79);
  }

  // The registers H0 to H4 start with.
  const START := Registers(0x67452301, 0xEFCDAB89, 0x98BADCFE, 0x10325476, 0xC3D2E1F0)

  lemma NextRegisters(t: nat, r: Registers, w: Word)
    requires Rounds(ABC, START, t) == r && W(ABC, t) == w
    ensures Rounds(ABC, START, t + 1) == Round(t, r, w)
  {}

  // The registers after every tenth round.
  lemma Registers10()
    ensures Rounds(ABC, START, 10) ==
      Registers(0x8351F929, 0x4B6AE328, 0x27A301F5, 0x664F8C30, 0x0FF1F290)
  {
    hide W, Rounds;
    Words0();
    Words8();
    NoRounds(ABC, START);
    NextRegisters(0, Registers(0x67452301, 0xEFCDAB89, 0x98BADCFE, 0x10325476, 0xC3D2E1F0), 0x61626380);
    NextRegisters(1, Registers(0x0116FC33, 0x67452301, 0x7BF36AE2, 0x98BADCFE, 0x10325476), 0x00000000);
    NextRegisters(2, Registers(0x8990536D, 0x0116FC33, 0x59D148C0, 0x7BF36AE2, 0x98BADCFE), 0x00000000);
    NextRegisters(3, Registers(0xA1390F08, 0x8990536D, 0xC045BF0C, 0x59D148C0, 0x7BF36AE2), 0x00000000);
    NextRegisters(4, Registers(0xCDD8E11B, 0xA1390F08, 0x626414DB, 0xC045BF0C, 0x59D148C0), 0x00000000);
    NextRegisters(5, Registers(0xCFD499DE, 0xCDD8E11B, 0x284E43C2, 0x626414DB, 0xC045BF0C), 0x00000000);
    NextRegisters(6, Registers(0x3FC7CA40, 0xCFD499DE, 0xF3763846, 0x284E43C2, 0x626414DB), 0x00000000);
    NextRegisters(7, Registers(0x993E30C1, 0x3FC7CA40, 0xB3F52677, 0xF3763846, 0x284E43C2), 0x00000000);
    NextRegisters(8, Registers(0x9E8C07D4, 0x993E30C1, 0x0FF1F290, 0xB3F52677, 0xF3763846), 0x00000000);
    NextRegisters(9, Registers(0x4B6AE328, 0x9E8C07D4, 0x664F8C30, 0x0FF1F290, 0xB3F52677), 0x00000000);
  }

  lemma Registers20()
    ensures Rounds(ABC, START, 20) ==
      Registers(0xFD9E1D7D, 0xDC64901D, 0x20AA99CA, 0xD3A49608, 0xC82F758B)
  {
    hide W, Rounds;
    Words8();
    Words16();
    Registers10();
    NextRegisters(10, Registers(0x8351F929, 0x4B6AE328, 0x27A301F5, 0x664F8C30, 0x0FF1F290), 0x00000000);
    NextRegisters(11, Registers(0xFBDA9E89, 0x8351F929, 0x12DAB8CA, 0x27A301F5, 0x664F8C30), 0x00000000);
    NextRegisters(12, Registers(0x63188FE4, 0xFBDA9E89, 0x60D47E4A, 0x12DAB8CA, 0x27A301F5), 0x00000000);
    NextRegisters(13, Registers(0x4607B664, 0x63188FE4, 0x7EF6A7A2, 0x60D47E4A, 0x12DAB8CA), 0x00000000);
    NextRegisters(14, Registers(0x9128F695, 0x4607B664, 0x18C623F9, 0x7EF6A7A2, 0x60D47E4A), 0x00000000);
    NextRegisters(15, Registers(0x196BEE77, 0x9128F695, 0x1181ED99, 0x18C623F9, 0x7EF6A7A2), 0x00000018);
    NextRegisters(16, Registers(0x20BDD62F, 0x196BEE77, 0x644A3DA5, 0x1181ED99, 0x18C623F9), 0xC2C4C700);
    NextRegisters(17, Registers(0x4E925823, 0x20BDD62F, 0xC65AFB9D, 0x644A3DA5, 0x1181ED99), 0x00000000);
    NextRegisters(18, Registers(0x82AA6728, 0x4E925823, 0xC82F758B, 0xC65AFB9D, 0x644A3DA5), 0x00000030);
    NextRegisters(19, Registers(0xDC64901D, 0x82AA6728, 0xD3A49608, 0xC82F758B, 0xC65AFB9D), 0x85898E01);
  }

  lemma Registers30()
    ensures Rounds(ABC, START, 30) ==
      Registers(0xC5FBAF5D, 0x8370B52E, 0xD2AA1365, 0x6F8D7EF5, 0x12104EE9)
  {
    hide W, Rounds;
    Words16();
    Words24();
    Registers20();
    NextRegisters(20, Registers(0xFD9E1D7D, 0xDC64901D, 0x20AA99CA, 0xD3A49608, 0xC82F758B), 0x00000000);
    NextRegisters(21, Registers(0x1A37B0CA, 0xFD9E1D7D, 0x77192407, 0x20AA99CA, 0xD3A49608), 0x00000060);
    NextRegisters(22, Registers(0x33A23BFC, 0x1A37B0CA, 0x7F67875F, 0x77192407, 0x20AA99CA), 0x0B131C03);
    NextRegisters(23, Registers(0x21283486, 0x33A23BFC, 0x868DEC32, 0x7F67875F, 0x77192407), 0x00000030);
    NextRegisters(24, Registers(0xD541F12D, 0x21283486, 0x0CE88EFF, 0x868DEC32, 0x7F67875F), 0x85898EC1);
    NextRegisters(25, Registers(0xC7567DC6, 0xD541F12D, 0x884A0D21, 0x0CE88EFF, 0x868DEC32), 0x16263806);
    NextRegisters(26, Registers(0x48413BA4, 0xC7567DC6, 0x75507C4B, 0x884A0D21, 0x0CE88EFF), 0x00000000);
    NextRegisters(27, Registers(0xBE35FBD5, 0x48413BA4, 0xB1D59F71, 0x75507C4B, 0x884A0D21), 0x00000180);
    NextRegisters(28, Registers(0x4AA84D97, 0xBE35FBD5, 0x12104EE9, 0xB1D59F71, 0x75507C4B), 0x2C4C700C);
    NextRegisters(29, Registers(0x8370B52E, 0x4AA84D97, 0x6F8D7EF5, 0x12104EE9, 0xB1D59F71), 0x000000F0);
  }

  lemma Registers40()
    ensures Rounds(ABC, START, 40) ==
      Registers(0x32DE1CBA, 0x4C986405, 0xF718E5CF, 0x03D447F6, 0xF72EEC32)
  {
    hide W, Rounds;
    Words24();
    Words32();
    Registers30();
    NextRegisters(30, Registers(0xC5FBAF5D, 0x8370B52E, 0xD2AA1365, 0x6F8D7EF5, 0x12104EE9), 0x93AFB507);
    NextRegisters(31, Registers(0x1267B407, 0xC5FBAF5D, 0xA0DC2D4B, 0xD2AA1365, 0x6F8D7EF5), 0x5898E048);
    NextRegisters(32, Registers(0x3B845D33, 0x1267B407, 0x717EEBD7, 0xA0DC2D4B, 0xD2AA1365), 0x8E9A9202);
    NextRegisters(33, Registers(0x046FAA0A, 0x3B845D33, 0xC499ED01, 0x717EEBD7, 0xA0DC2D4B), 0x00000600);
    NextRegisters(34, Registers(0x2C0EBC11, 0x046FAA0A, 0xCEE1174C, 0xC499ED01, 0x717EEBD7), 0xB131C0F0);
    NextRegisters(35, Registers(0x21796AD4, 0x2C0EBC11, 0x811BEA82, 0xCEE1174C, 0xC499ED01), 0x16263BC6);
    NextRegisters(36, Registers(0xDCBBB0CB, 0x21796AD4, 0x4B03AF04, 0x811BEA82, 0xCEE1174C), 0x4EBED41E);
    NextRegisters(37, Registers(0x0F511FD8, 0xDCBBB0CB, 0x085E5AB5, 0x4B03AF04, 0x811BEA82), 0x626380A1);
    NextRegisters(38, Registers(0xDC63973F, 0x0F511FD8, 0xF72EEC32, 0x085E5AB5, 0x4B03AF04), 0x16263806);
    NextRegisters(39, Registers(0x4C986405, 0xDC63973F, 0x03D447F6, 0xF72EEC32, 0x085E5AB5), 0x000018C0);
  }

  lemma Registers50()
    ensures Rounds(ABC, START, 50) ==
      Registers(0x120731C5, 0xBAF39337, 0xAFAB40B2, 0x2806E11B, 0x8714787C)
  {
    hide W, Rounds;
    Words40();
    Words48();
    Registers40();
    NextRegisters(40, Registers(0x32DE1CBA, 0x4C986405, 0xF718E5CF, 0x03D447F6, 0xF72EEC32), 0xD2E138C4);
    NextRegisters(41, Registers(0xFC87DEDF, 0x32DE1CBA, 0x53261901, 0xF718E5CF, 0x03D447F6), 0x00000F00);
    NextRegisters(42, Registers(0x970A0D5C, 0xFC87DEDF, 0x8CB7872E, 0x53261901, 0xF718E5CF), 0x3AFB5079);
    NextRegisters(43, Registers(0x7F193DC5, 0x970A0D5C, 0xFF21F7B7, 0x8CB7872E, 0x53261901), 0x898E04E5);
    NextRegisters(44, Registers(0xEE1B1AAF, 0x7F193DC5, 0x25C28357, 0xFF21F7B7, 0x8CB7872E), 0xE2BA3C2B);
    NextRegisters(45, Registers(0x40F28E09, 0xEE1B1AAF, 0x5FC64F71, 0x25C28357, 0xFF21F7B7), 0x000060C0);
    NextRegisters(46, Registers(0x1C51E1F2, 0x40F28E09, 0xFB86C6AB, 0x5FC64F71, 0x25C28357), 0x053A37CD);
    NextRegisters(47, Registers(0xA01B846C, 0x1C51E1F2, 0x503CA382, 0xFB86C6AB, 0x5FC64F71), 0x74458547);
    NextRegisters(48, Registers(0xBEAD02CA, 0xA01B846C, 0x8714787C, 0x503CA382, 0xFB86C6AB), 0xDA9415ED);
    NextRegisters(49, Registers(0xBAF39337, 0xBEAD02CA, 0x2806E11B, 0x8714787C, 0x503CA382), 0x26380A16);
  }

  lemma Registers60()
    ensures Rounds(ABC, START, 60) ==
      Registers(0x3F52DE5A, 0x09D785FD, 0x3498BFD4, 0xF211824F, 0xD79915AB)
  {
    hide W, Rounds;
    Words48();
    Words56();
    Registers50();
    NextRegisters(50, Registers(0x120731C5, 0xBAF39337, 0xAFAB40B2, 0x2806E11B, 0x8714787C), 0x626383A1);
    NextRegisters(51, Registers(0x641DB2CE, 0x120731C5, 0xEEBCE4CD, 0xAFAB40B2, 0x2806E11B), 0x4EBF54DE);
    NextRegisters(52, Registers(0x3847AD66, 0x641DB2CE, 0x4481CC71, 0xEEBCE4CD, 0xAFAB40B2), 0x3835B44B);
    NextRegisters(53, Registers(0xE490436D, 0x3847AD66, 0x99076CB3, 0x4481CC71, 0xEEBCE4CD), 0x0000F600);
    NextRegisters(54, Registers(0x27E9F1D8, 0xE490436D, 0x8E11EB59, 0x99076CB3, 0x4481CC71), 0x1E84C7A3);
    NextRegisters(55, Registers(0x7B71F76D, 0x27E9F1D8, 0x792410DB, 0x8E11EB59, 0x99076CB3), 0x98E04D98);
    NextRegisters(56, Registers(0x5E6456AF, 0x7B71F76D, 0x09FA7C76, 0x792410DB, 0x8E11EB59), 0x651D16A0);
    NextRegisters(57, Registers(0xC846093F, 0x5E6456AF, 0x5EDC7DDB, 0x09FA7C76, 0x792410DB), 0x62658CA1);
    NextRegisters(58, Registers(0xD262FF50, 0xC846093F, 0xD79915AB, 0x5EDC7DDB, 0x09FA7C76), 0x458544D6);
    NextRegisters(59, Registers(0x09D785FD, 0xD262FF50, 0xF211824F, 0xD79915AB, 0x5EDC7DDB), 0x44584CB7);
  }

  lemma Registers70()
    ensures Rounds(ABC, START, 70) ==
      Registers(0x3F2588C2, 0x497093C0, 0xDE37534A, 0x030F7CAD, 0x4405957E)
  {
    hide W, Rounds;
    Words56();
    Words64();
    Registers60();
    NextRegisters(60, Registers(0x3F52DE5A, 0x09D785FD, 0x3498BFD4, 0xF211824F, 0xD79915AB), 0x7BA06619);
    NextRegisters(61, Registers(0xD756C147, 0x3F52DE5A, 0x4275E17F, 0x3498BFD4, 0xF211824F), 0x6380AEA2);
    NextRegisters(62, Registers(0x548C9CB2, 0xD756C147, 0x8FD4B796, 0x4275E17F, 0x3498BFD4), 0x0AE55269);
    NextRegisters(63, Registers(0xB66C020B, 0x548C9CB2, 0xF5D5B051, 0x8FD4B796, 0x4275E17F), 0x627B49A1);
    NextRegisters(64, Registers(0x6B61C9E1, 0xB66C020B, 0x9523272C, 0xF5D5B051, 0x8FD4B796), 0x7CD45C9D);
    NextRegisters(65, Registers(0x19DFA7AC, 0x6B61C9E1, 0xED9B0082, 0x9523272C, 0xF5D5B051), 0x000F0000);
    NextRegisters(66, Registers(0x101655F9, 0x19DFA7AC, 0x5AD87278, 0xED9B0082, 0x9523272C), 0xFB50753A);
    NextRegisters(67, Registers(0x0C3DF2B4, 0x101655F9, 0x0677E9EB, 0x5AD87278, 0xED9B0082), 0xEC6765E8);
    NextRegisters(68, Registers(0x78DD4D2B, 0x0C3DF2B4, 0x4405957E, 0x0677E9EB, 0x5AD87278), 0xBA3C2BE2);
    NextRegisters(69, Registers(0x497093C0, 0x78DD4D2B, 0x030F7CAD, 0x4405957E, 0x0677E9EB), 0x0060C000);
  }

  lemma Registers80()
    ensures Rounds(ABC, START, 80) ==
      Registers(0x42541B35, 0x5738D5E1, 0x21834873, 0x681E6DF6, 0xD8FDF6AD)
  {
    hide W, Rounds;
    Words64();
    Words72();
    Registers70();
    NextRegisters(70, Registers(0x3F2588C2, 0x497093C0, 0xDE37534A, 0x030F7CAD, 0x4405957E), 0x3A37CD05);
    NextRegisters(71, Registers(0xC199F8C7, 0x3F2588C2, 0x125C24F0, 0xDE37534A, 0x030F7CAD), 0x458546F4);
    NextRegisters(72, Registers(0x39859DE7, 0xC199F8C7, 0x8FC96230, 0x125C24F0, 0xDE37534A), 0xB8599DD6);
    NextRegisters(73, Registers(0xEDB42DE4, 0x39859DE7, 0xF0667E31, 0x8FC96230, 0x125C24F0), 0x380A1A26);
    NextRegisters(74, Registers(0x11793F6F, 0xEDB42DE4, 0xCE616779, 0xF0667E31, 0x8FC96230), 0x01E02203);
    NextRegisters(75, Registers(0x5EE76897, 0x11793F6F, 0x3B6D0B79, 0xCE616779, 0xF0667E31), 0xE7CC3456);
    NextRegisters(76, Registers(0x63F7DAB7, 0x5EE76897, 0xC45E4FDB, 0x3B6D0B79, 0xCE616779), 0xE6E60B69);
    NextRegisters(77, Registers(0xA079B7D9, 0x63F7DAB7, 0xD7B9DA25, 0xC45E4FDB, 0x3B6D0B79), 0x00F60A00);
    NextRegisters(78, Registers(0x860D21CC, 0xA079B7D9, 0xD8FDF6AD, 0xD7B9DA25, 0xC45E4FDB), 0x5795EF4F);
    NextRegisters(79, Registers(0x5738D5E1, 0x860D21CC, 0x681E6DF6, 0xD8FDF6AD, 0xD7B9DA25), 0x822E0879);
  }

  lemma CompressedAbc()
    ensures Compress(H0, ABC) == [0xA9993E36, 0x4706816A, 0xBA3E2571, 0x7850C26C, 0x9CD0D89D]
  {
    hide W, Rounds;
    Registers80();
  }

  // The padding of three bytes.
  lemma PaddedAbc()
    ensures Pad([0x61, 0x62, 0x63]) == ABC
  {
    hide LowByte, PadZeros;
    PadZerosCases(0, 3);
    assert BigEndian64(24) == Repeat<Byte>(0, 7) + [0x18] by {
      LengthOfAbc();
    }
    assert Repeat<Byte>(0, 52) + Repeat<Byte>(0, 7) == Repeat<Byte>(0, 59);
  }

  lemma LengthOfAbc()
    ensures LowByte(0) == 0 && LowByte(24) == 0x18
  {}

  // The digest of "abc".
  lemma DigestOfAbc()
    ensures Digest([0x61, 0x62, 0x63]) == [0xA9993E36, 0x4706816A, 0xBA3E2571, 0x7850C26C, 0x9CD0D89D]
  {
    hide Compress, Pad;
    PaddedAbc();
    CompressedAbc();
    assert ABC[..64] == ABC && ABC[64..] == [];
    assert Fold(Compress(H0, ABC), []) == Compress(H0, ABC);
  }
}
