/** Powers of x modulo the generator: the squares x^(2^k), and the products the period needs. */
module CrcPowers {
  import opened Masks
  import opened CrcField

  // ---- Squares --------------------------------------------------------------------------------

  lemma Powers4()
    requires Power(Pow2(0), 0x4000_0000)
    ensures Power(Pow2(1), 0x2000_0000)
    ensures Power(Pow2(2), 0x0800_0000)
    ensures Power(Pow2(3), 0x0080_0000)
    ensures Power(Pow2(4), 0x0000_8000)
  {
    hide Power, Pow2;
    Doubled(0, 0x4000_0000, 0x2000_0000);
    Doubled(1, 0x2000_0000, 0x0800_0000);
    Doubled(2, 0x0800_0000, 0x0080_0000);
    Doubled(3, 0x0080_0000, 0x0000_8000);
  }

  lemma Powers8()
    requires Power(Pow2(4), 0x0000_8000)
    ensures Power(Pow2(5), 0xEDB8_8320)
    ensures Power(Pow2(6), 0xB1E6_B092)
    ensures Power(Pow2(7), 0xA06A_2517)
    ensures Power(Pow2(8), 0xED62_7DAE)
  {
    hide Power, Pow2;
    Doubled(4, 0x0000_8000, 0xEDB8_8320);
    Doubled(5, 0xEDB8_8320, 0xB1E6_B092);
    Doubled(6, 0xB1E6_B092, 0xA06A_2517);
    Doubled(7, 0xA06A_2517, 0xED62_7DAE);
  }

  lemma Powers12()
    requires Power(Pow2(8), 0xED62_7DAE)
    ensures Power(Pow2(9), 0x88D1_4467)
    ensures Power(Pow2(10), 0xD7BB_FE6A)
    ensures Power(Pow2(11), 0xEC44_7F11)
    ensures Power(Pow2(12), 0x8E7E_A170)
  {
    hide Power, Pow2;
    Doubled(8, 0xED62_7DAE, 0x88D1_4467);
    Doubled(9, 0x88D1_4467, 0xD7BB_FE6A);
    Doubled(10, 0xD7BB_FE6A, 0xEC44_7F11);
    Doubled(11, 0xEC44_7F11, 0x8E7E_A170);
  }

  lemma Powers16()
    requires Power(Pow2(12), 0x8E7E_A170)
    ensures Power(Pow2(13), 0x6427_800E)
    ensures Power(Pow2(14), 0x4D47_BAE0)
    ensures Power(Pow2(15), 0x09FE_548F)
    ensures Power(Pow2(16), 0x8385_2D0F)
  {
    hide Power, Pow2;
    Doubled(12, 0x8E7E_A170, 0x6427_800E);
    Doubled(13, 0x6427_800E, 0x4D47_BAE0);
    Doubled(14, 0x4D47_BAE0, 0x09FE_548F);
    Doubled(15, 0x09FE_548F, 0x8385_2D0F);
  }

  lemma Powers20()
    requires Power(Pow2(16), 0x8385_2D0F)
    ensures Power(Pow2(17), 0x3036_2F1A)
    ensures Power(Pow2(18), 0x7B5A_9CC3)
    ensures Power(Pow2(19), 0x31FE_C169)
    ensures Power(Pow2(20), 0x9FEC_022A)
  {
    hide Power, Pow2;
    Doubled(16, 0x8385_2D0F, 0x3036_2F1A);
    Doubled(17, 0x3036_2F1A, 0x7B5A_9CC3);
    Doubled(18, 0x7B5A_9CC3, 0x31FE_C169);
    Doubled(19, 0x31FE_C169, 0x9FEC_022A);
  }

  lemma Powers24()
    requires Power(Pow2(20), 0x9FEC_022A)
    ensures Power(Pow2(21), 0x6C8D_EDC4)
    ensures Power(Pow2(22), 0x15D6_874D)
    ensures Power(Pow2(23), 0x5FDE_7A4E)
    ensures Power(Pow2(24), 0xBAD9_0E37)
  {
    hide Power, Pow2;
    Doubled(20, 0x9FEC_022A, 0x6C8D_EDC4);
    Doubled(21, 0x6C8D_EDC4, 0x15D6_874D);
    Doubled(22, 0x15D6_874D, 0x5FDE_7A4E);
    Doubled(23, 0x5FDE_7A4E, 0xBAD9_0E37);
  }

  lemma Powers28()
    requires Power(Pow2(24), 0xBAD9_0E37)
    ensures Power(Pow2(25), 0x2E4E_5EEF)
    ensures Power(Pow2(26), 0x4EAB_A214)
    ensures Power(Pow2(27), 0xA8A4_72C0)
    ensures Power(Pow2(28), 0x429A_969E)
  {
    hide Power, Pow2;
    Doubled(24, 0xBAD9_0E37, 0x2E4E_5EEF);
    Doubled(25, 0x2E4E_5EEF, 0x4EAB_A214);
    Doubled(26, 0x4EAB_A214, 0xA8A4_72C0);
    Doubled(27, 0xA8A4_72C0, 0x429A_969E);
  }

  lemma Powers32()
    requires Power(Pow2(28), 0x429A_969E)
    ensures Power(Pow2(29), 0x148D_302A)
    ensures Power(Pow2(30), 0xC40B_A6D0)
    ensures Power(Pow2(31), 0xC4E2_2C3C)
    ensures Power(Pow2(32), 0x4000_0000)
  {
    hide Power, Pow2;
    Doubled(28, 0x429A_969E, 0x148D_302A);
    Doubled(29, 0x148D_302A, 0xC40B_A6D0);
    Doubled(30, 0xC40B_A6D0, 0xC4E2_2C3C);
    Doubled(31, 0xC4E2_2C3C, 0x4000_0000);
  }

  lemma AllPowers()
    ensures Power(Pow2(0), 0x4000_0000)
    ensures Power(Pow2(1), 0x2000_0000)
    ensures Power(Pow2(2), 0x0800_0000)
    ensures Power(Pow2(3), 0x0080_0000)
    ensures Power(Pow2(4), 0x0000_8000)
    ensures Power(Pow2(5), 0xEDB8_8320)
    ensures Power(Pow2(6), 0xB1E6_B092)
    ensures Power(Pow2(7), 0xA06A_2517)
    ensures Power(Pow2(8), 0xED62_7DAE)
    ensures Power(Pow2(9), 0x88D1_4467)
    ensures Power(Pow2(10), 0xD7BB_FE6A)
    ensures Power(Pow2(11), 0xEC44_7F11)
    ensures Power(Pow2(12), 0x8E7E_A170)
    ensures Power(Pow2(13), 0x6427_800E)
    ensures Power(Pow2(14), 0x4D47_BAE0)
    ensures Power(Pow2(15), 0x09FE_548F)
    ensures Power(Pow2(16), 0x8385_2D0F)
    ensures Power(Pow2(17), 0x3036_2F1A)
    ensures Power(Pow2(18), 0x7B5A_9CC3)
    ensures Power(Pow2(19), 0x31FE_C169)
    ensures Power(Pow2(20), 0x9FEC_022A)
    ensures Power(Pow2(21), 0x6C8D_EDC4)
    ensures Power(Pow2(22), 0x15D6_874D)
    ensures Power(Pow2(23), 0x5FDE_7A4E)
    ensures Power(Pow2(24), 0xBAD9_0E37)
    ensures Power(Pow2(25), 0x2E4E_5EEF)
    ensures Power(Pow2(26), 0x4EAB_A214)
    ensures Power(Pow2(27), 0xA8A4_72C0)
    ensures Power(Pow2(28), 0x429A_969E)
    ensures Power(Pow2(29), 0x148D_302A)
    ensures Power(Pow2(30), 0xC40B_A6D0)
    ensures Power(Pow2(31), 0xC4E2_2C3C)
    ensures Power(Pow2(32), 0x4000_0000)
  {
    hide Power, Pow2;
    FirstPowers();
    Powers4();
    Powers8();
    Powers12();
    Powers16();
    Powers20();
    Powers24();
    Powers28();
    Powers32();
  }

  lemma TwoPowers()
    ensures Pow2(0) == 0x0000_0001 && Pow2(1) == 0x0000_0002 && Pow2(2) == 0x0000_0004 && Pow2(3) == 0x0000_0008
    ensures Pow2(4) == 0x0000_0010 && Pow2(5) == 0x0000_0020 && Pow2(6) == 0x0000_0040 && Pow2(7) == 0x0000_0080
    ensures Pow2(8) == 0x0000_0100 && Pow2(9) == 0x0000_0200 && Pow2(10) == 0x0000_0400 && Pow2(11) == 0x0000_0800
    ensures Pow2(12) == 0x0000_1000 && Pow2(13) == 0x0000_2000 && Pow2(14) == 0x0000_4000 && Pow2(15) == 0x0000_8000
    ensures Pow2(16) == 0x0001_0000 && Pow2(17) == 0x0002_0000 && Pow2(18) == 0x0004_0000 && Pow2(19) == 0x0008_0000
    ensures Pow2(20) == 0x0010_0000 && Pow2(21) == 0x0020_0000 && Pow2(22) == 0x0040_0000 && Pow2(23) == 0x0080_0000
    ensures Pow2(24) == 0x0100_0000 && Pow2(25) == 0x0200_0000 && Pow2(26) == 0x0400_0000 && Pow2(27) == 0x0800_0000
    ensures Pow2(28) == 0x1000_0000 && Pow2(29) == 0x2000_0000 && Pow2(30) == 0x4000_0000 && Pow2(31) == 0x8000_0000
    ensures Pow2(32) == 0x1_0000_0000
  {
    Pow2Values();
  }

  // ---- Powers in between ----------------------------------------------------------------------

  lemma PowerAhead257Part1()
    requires Power(0x0100_0000, 0xBAD9_0E37)
    requires Power(0x0000_0100, 0xED62_7DAE)
    ensures Power(0x0100_0100, 0x4630_D51A)
  {
    hide Power;
    Times(0x0100_0000, 0xBAD9_0E37, 0x0000_0100, 0xED62_7DAE, 0x4630_D51A);
  }

  lemma PowerBehind257Part1()
    requires Power(0x0001_0000, 0x8385_2D0F)
    requires Power(0x0000_0001, 0x4000_0000)
    ensures Power(0x0001_0001, 0xAC7A_15A7)
  {
    hide Power;
    Times(0x0001_0000, 0x8385_2D0F, 0x0000_0001, 0x4000_0000, 0xAC7A_15A7);
  }

  lemma PowerAhead17Part1()
    requires Power(0x1000_0000, 0x429A_969E)
    requires Power(0x0010_0000, 0x9FEC_022A)
    requires Power(0x0000_1000, 0x8E7E_A170)
    requires Power(0x0000_0010, 0x0000_8000)
    ensures Power(0x1010_1010, 0x0C28_3CA0)
  {
    hide Power;
    Times(0x1000_0000, 0x429A_969E, 0x0010_0000, 0x9FEC_022A, 0xFC3A_DC78);
    Times(0x1010_0000, 0xFC3A_DC78, 0x0000_1000, 0x8E7E_A170, 0x430D_6807);
    Times(0x1010_1000, 0x430D_6807, 0x0000_0010, 0x0000_8000, 0x0C28_3CA0);
  }

  lemma PowerBehind17Part1()
    requires Power(0x0100_0000, 0xBAD9_0E37)
    requires Power(0x0001_0000, 0x8385_2D0F)
    requires Power(0x0000_0100, 0xED62_7DAE)
    requires Power(0x0000_0001, 0x4000_0000)
    ensures Power(0x0101_0101, 0x316B_5BA1)
  {
    hide Power;
    Times(0x0100_0000, 0xBAD9_0E37, 0x0001_0000, 0x8385_2D0F, 0xB806_1574);
    Times(0x0101_0000, 0xB806_1574, 0x0000_0100, 0xED62_7DAE, 0x62D6_B742);
    Times(0x0101_0100, 0x62D6_B742, 0x0000_0001, 0x4000_0000, 0x316B_5BA1);
  }

  lemma PowerAhead5Part1()
    requires Power(0x0000_0004, 0x0800_0000)
    requires Power(0x0000_0040, 0xB1E6_B092)
    requires Power(0x0000_0400, 0xD7BB_FE6A)
    requires Power(0x0000_4000, 0x4D47_BAE0)
    requires Power(0x0004_0000, 0x7B5A_9CC3)
    ensures Power(0x0004_4444, 0x8C02_D3F9)
  {
    hide Power;
    Times(0x0000_0004, 0x0800_0000, 0x0000_0040, 0xB1E6_B092, 0x3070_4BC1);
    Times(0x0000_0044, 0x3070_4BC1, 0x0000_0400, 0xD7BB_FE6A, 0xEE53_A8F0);
    Times(0x0000_0444, 0xEE53_A8F0, 0x0000_4000, 0x4D47_BAE0, 0x2FCB_B278);
    Times(0x0000_4444, 0x2FCB_B278, 0x0004_0000, 0x7B5A_9CC3, 0x8C02_D3F9);
  }

  lemma PowerAhead5Part2()
    requires Power(0x0004_4444, 0x8C02_D3F9)
    requires Power(0x0040_0000, 0x15D6_874D)
    requires Power(0x0400_0000, 0x4EAB_A214)
    requires Power(0x4000_0000, 0xC40B_A6D0)
    ensures Power(0x4444_4444, 0xBD43_6701)
  {
    hide Power;
    Times(0x0004_4444, 0x8C02_D3F9, 0x0040_0000, 0x15D6_874D, 0x578A_D067);
    Times(0x0044_4444, 0x578A_D067, 0x0400_0000, 0x4EAB_A214, 0xD2CE_2B5E);
    Times(0x0444_4444, 0xD2CE_2B5E, 0x4000_0000, 0xC40B_A6D0, 0xBD43_6701);
  }

  lemma PowerBehind5Part1()
    requires Power(0x0000_0001, 0x4000_0000)
    requires Power(0x0000_0010, 0x0000_8000)
    requires Power(0x0000_0100, 0xED62_7DAE)
    requires Power(0x0000_1000, 0x8E7E_A170)
    requires Power(0x0001_0000, 0x8385_2D0F)
    ensures Power(0x0001_1111, 0xEC4F_BE80)
  {
    hide Power;
    Times(0x0000_0001, 0x4000_0000, 0x0000_0010, 0x0000_8000, 0x0000_4000);
    Times(0x0000_0011, 0x0000_4000, 0x0000_0100, 0xED62_7DAE, 0x0F18_38C2);
    Times(0x0000_0111, 0x0F18_38C2, 0x0000_1000, 0x8E7E_A170, 0x34B8_58BA);
    Times(0x0000_1111, 0x34B8_58BA, 0x0001_0000, 0x8385_2D0F, 0xEC4F_BE80);
  }

  lemma PowerBehind5Part2()
    requires Power(0x0001_1111, 0xEC4F_BE80)
    requires Power(0x0010_0000, 0x9FEC_022A)
    requires Power(0x0100_0000, 0xBAD9_0E37)
    requires Power(0x1000_0000, 0x429A_969E)
    ensures Power(0x1111_1111, 0x3D43_6701)
  {
    hide Power;
    Times(0x0001_1111, 0xEC4F_BE80, 0x0010_0000, 0x9FEC_022A, 0x8140_BBF4);
    Times(0x0011_1111, 0x8140_BBF4, 0x0100_0000, 0xBAD9_0E37, 0xEF5E_8517);
    Times(0x0111_1111, 0xEF5E_8517, 0x1000_0000, 0x429A_969E, 0x3D43_6701);
  }

  lemma Power3()
    requires Power(0x4444_4444, 0xBD43_6701) && Power(0x1111_1111, 0x3D43_6701)
    ensures Power(0x5555_5555, 0xC736_EB52)
  {
    hide Power;
    Times(0x4444_4444, 0xBD43_6701, 0x1111_1111, 0x3D43_6701, 0xC736_EB52);
  }
}
