/** The check value published with the checksum, computed. */
module CrcCheck {
  import opened Bytes
  import opened Types
  import opened Crc32
  import opened CrcBurst

  lemma LowDigits()
    ensures LowByte(49) == 49 && LowByte(50) == 50 && LowByte(51) == 51 && LowByte(52) == 52
    ensures LowByte(53) == 53 && LowByte(54) == 54 && LowByte(55) == 55 && LowByte(56) == 56 && LowByte(57) == 57
    ensures Low8(49) == 49 && Low8(50) == 50 && Low8(51) == 51 && Low8(52) == 52 && Low8(53) == 53
    ensures Low8(54) == 54 && Low8(55) == 55 && Low8(56) == 56 && Low8(57) == 57
  {
    assert ByteOf(true, false, false, false, true, true, false, false) == 49;
    assert ByteOf(false, true, false, false, true, true, false, false) == 50;
    assert ByteOf(true, true, false, false, true, true, false, false) == 51;
    assert ByteOf(false, false, true, false, true, true, false, false) == 52;
    assert ByteOf(true, false, true, false, true, true, false, false) == 53;
    assert ByteOf(false, true, true, false, true, true, false, false) == 54;
    assert ByteOf(true, true, true, false, true, true, false, false) == 55;
    assert ByteOf(false, false, false, true, true, true, false, false) == 56;
    assert ByteOf(true, false, false, true, true, true, false, false) == 57;
  }

  lemma DigitWords()
    ensures ByteWord(49) == 49 && ByteWord(50) == 50 && ByteWord(51) == 51 && ByteWord(52) == 52
    ensures ByteWord(53) == 53 && ByteWord(54) == 54 && ByteWord(55) == 55 && ByteWord(56) == 56
    ensures ByteWord(57) == 57
  {
    hide ByteWord, LowByte, Low8;
    LowDigits();
    LowWord(49); LowWord(50); LowWord(51);
    LowWord(52); LowWord(53); LowWord(54);
    LowWord(55); LowWord(56); LowWord(57);
  }

  lemma FirstDigits()
    ensures Step8(Xor(0xFFFF_FFFF, 49)) == 0x7C23_1048
    ensures Step8(Xor(0x7C23_1048, 50)) == 0xB0AC_BB32
    ensures Step8(Xor(0xB0AC_BB32, 51)) == 0x77B7_9C2D
  {}

  lemma MiddleDigits()
    ensures Step8(Xor(0x77B7_9C2D, 52)) == 0x641C_1F5C
    ensures Step8(Xor(0x641C_1F5C, 53)) == 0x340A_C5E3
    ensures Step8(Xor(0x340A_C5E3, 54)) == 0xF68D_2C9E
  {}

  lemma LastDigits()
    ensures Step8(Xor(0xF68D_2C9E, 55)) == 0xAFFC_9660
    ensures Step8(Xor(0xAFFC_9660, 56)) == 0x651F_2550
    ensures Step8(Xor(0x651F_2550, 57)) == 0x340B_C6D9
  {}

  lemma LastWord()
    ensures Xor(0x340B_C6D9, ALL_ONES) == 0xCBF4_3926
    ensures Shr8(0xCBF4_3926) == 0x00CB_F439 && Shr8(0x00CB_F439) == 0x0000_CBF4 && Shr8(0x0000_CBF4) == 0x0000_00CB
  {}

  lemma LowBytes()
    ensures LowByte(0xCBF4_3926) == 0x26 && LowByte(0x00CB_F439) == 0x39
    ensures LowByte(0x0000_CBF4) == 0xF4 && LowByte(0x0000_00CB) == 0xCB
  {
    assert ByteOf(false, true, true, false, false, true, false, false) == 0x26;
    assert ByteOf(true, false, false, true, true, true, false, false) == 0x39;
    assert ByteOf(false, false, true, false, true, true, true, true) == 0xF4;
    assert ByteOf(true, true, false, true, false, false, true, true) == 0xCB;
  }

  lemma CheckBytes()
    ensures Xor(0x340B_C6D9, ALL_ONES) == 0xCBF4_3926
    ensures WordBytes(0xCBF4_3926) == [0x26, 0x39, 0xF4, 0xCB]
  {
    hide Xor, Shr8, LowByte;
    LastWord();
    LowBytes();
  }

  /** The checksum of "123456789", and the order of its bytes in a frame. */
  lemma CheckValue()
    ensures IeeeCrc(Ascii("123456789")) == 0xCBF4_3926
    ensures WordBytes(IeeeCrc(Ascii("123456789"))) == [0x26, 0x39, 0xF4, 0xCB]
  {
    hide Step8, Xor, WordBytes, Serial, Bits, ByteWord, Crc, IeeeCrc, Ascii, Register;
    DigitWords();
    EmptyRegister();
    FirstDigits();
    MiddleDigits();
    LastDigits();
    RegisterStep([], 49);
    assert [] + [49] == [49];
    RegisterStep([49], 50);
    assert [49] + [50] == [49, 50];
    RegisterStep([49, 50], 51);
    assert [49, 50] + [51] == [49, 50, 51];
    RegisterStep([49, 50, 51], 52);
    assert [49, 50, 51] + [52] == [49, 50, 51, 52];
    RegisterStep([49, 50, 51, 52], 53);
    assert [49, 50, 51, 52] + [53] == [49, 50, 51, 52, 53];
    RegisterStep([49, 50, 51, 52, 53], 54);
    assert [49, 50, 51, 52, 53] + [54] == [49, 50, 51, 52, 53, 54];
    RegisterStep([49, 50, 51, 52, 53, 54], 55);
    assert [49, 50, 51, 52, 53, 54] + [55] == [49, 50, 51, 52, 53, 54, 55];
    RegisterStep([49, 50, 51, 52, 53, 54, 55], 56);
    assert [49, 50, 51, 52, 53, 54, 55] + [56] == [49, 50, 51, 52, 53, 54, 55, 56];
    RegisterStep([49, 50, 51, 52, 53, 54, 55, 56], 57);
    assert [49, 50, 51, 52, 53, 54, 55, 56] + [57] == [49, 50, 51, 52, 53, 54, 55, 56, 57];
    CheckText();
    CheckBytes();
    CrcIsIeee(Ascii("123456789"));
    CrcOfRegister(Ascii("123456789"));
  }

  lemma EmptyRegister()
    ensures Register([]) == 0xFFFF_FFFF
  {}

  lemma CheckText()
    ensures Ascii("123456789") == [49, 50, 51, 52, 53, 54, 55, 56, 57]
  {
    assert "123456789" == ['1', '2', '3', '4', '5', '6', '7', '8', '9'];
  }

  lemma CrcOfRegister(data: seq<byte>)
    ensures Crc(data) == Xor(Register(data), ALL_ONES)
  {}
}
