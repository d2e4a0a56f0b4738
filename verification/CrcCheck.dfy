/** The polynomials and start values of utils/src/crc.c, fixed from outside: the terms of the two
    generators, and the checksums of the string "123456789" that catalogues of CRCs list. */
module CrcCheck {
  import opened Gf2
  import opened WordBits
  import opened Crc

  // ---------------------------------------------------------------- The generators

  lemma MaskValues()
    ensures BitMask(0) == 0x8000_0000 && BitMask(1) == 0x4000_0000 && BitMask(2) == 0x2000_0000
    ensures BitMask(3) == 0x1000_0000 && BitMask(4) == 0x0800_0000 && BitMask(5) == 0x0400_0000
    ensures BitMask(6) == 0x0200_0000 && BitMask(7) == 0x0100_0000 && BitMask(8) == 0x0080_0000
    ensures BitMask(9) == 0x0040_0000 && BitMask(10) == 0x0020_0000 && BitMask(11) == 0x0010_0000
    ensures BitMask(12) == 0x0008_0000 && BitMask(13) == 0x0004_0000 && BitMask(14) == 0x0002_0000
    ensures BitMask(15) == 0x0001_0000
  {}

  lemma LowMaskValues()
    ensures BitMask(16) == 0x8000 && BitMask(17) == 0x4000 && BitMask(18) == 0x2000 && BitMask(19) == 0x1000
    ensures BitMask(20) == 0x0800 && BitMask(21) == 0x0400 && BitMask(22) == 0x0200 && BitMask(23) == 0x0100
    ensures BitMask(24) == 0x0080 && BitMask(25) == 0x0040 && BitMask(26) == 0x0020 && BitMask(27) == 0x0010
    ensures BitMask(28) == 0x0008 && BitMask(29) == 0x0004 && BitMask(30) == 0x0002 && BitMask(31) == 0x0001
  {
    MaskValues();
  }

  /** x^16 + x^12 + x^5 + 1; the leading term is left out, and bit i is the coefficient of
      x^(15 - i). */
  lemma Poly16Terms(k: nat)
    requires k < 16
    ensures Poly16()[15 - k] <==> k == 12 || k == 5 || k == 0
  {
    hide BitMask;
    MaskValues();
  }

  /** x^32 + x^26 + x^23 + x^22 + x^16 + x^12 + x^11 + x^10 + x^8 + x^7 + x^5 + x^4 + x^2 + x + 1. */
  lemma Poly32Terms(k: nat)
    requires k < 32
    ensures Poly32()[31 - k] <==> k in {26, 23, 22, 16, 12, 11, 10, 8, 7, 5, 4, 2, 1, 0}
  {
    hide BitMask;
    MaskValues();
    LowMaskValues();
  }

  // ---------------------------------------------------------------- The check values

  const DIGITS: seq<bv8> := [0x31, 0x32, 0x33, 0x34, 0x35, 0x36, 0x37, 0x38, 0x39]

  lemma EightShifts(c: bv16)
    ensures Shifts16(c, 8) == Shift16(Shift16(Shift16(Shift16(Shift16(Shift16(Shift16(Shift16(c))))))))
  {
    hide Shift16;
    assert Shifts16(c, 1) == Shift16(Shifts16(c, 0));
    assert Shifts16(c, 3) == Shift16(Shift16(Shifts16(c, 1)));
    assert Shifts16(c, 5) == Shift16(Shift16(Shifts16(c, 3)));
    assert Shifts16(c, 7) == Shift16(Shift16(Shifts16(c, 5)));
  }

  lemma Digit1()
    ensures Crc16Byte(0x0000, 0x31) == 0x2672 && Crc32Byte(0xffff_ffff, 0x31) == 0x9efb_cf93
  {
    EightShifts(0x0000 ^ 0x3100);
  }

  lemma Digit2()
    ensures Crc16Byte(0x2672, 0x32) == 0x20b5 && Crc32Byte(0x9efb_cf93, 0x32) == 0x3fec_5e6a
  {
    EightShifts(0x2672 ^ 0x3200);
  }

  lemma Digit3()
    ensures Crc16Byte(0x20b5, 0x33) == 0x9752 && Crc32Byte(0x3fec_5e6a, 0x33) == 0xd952_f164
  {
    EightShifts(0x20b5 ^ 0x3300);
  }

  lemma Digit4()
    ensures Crc16Byte(0x9752, 0x34) == 0xd789 && Crc32Byte(0xd952_f164, 0x34) == 0xa695_c4aa
  {
    EightShifts(0x9752 ^ 0x3400);
  }

  lemma Digit5()
    ensures Crc16Byte(0xd789, 0x35) == 0x546c && Crc32Byte(0xa695_c4aa, 0x35) == 0xbd9a_b747
  {
    EightShifts(0xd789 ^ 0x3500);
  }

  lemma Digit6()
    ensures Crc16Byte(0x546c, 0x36) == 0x20e4 && Crc32Byte(0xbd9a_b747, 0x36) == 0xd8f0_6c8f
  {
    EightShifts(0x546c ^ 0x3600);
  }

  lemma Digit7()
    ensures Crc16Byte(0x20e4, 0x37) == 0x86d6 && Crc32Byte(0xd8f0_6c8f, 0x37) == 0x0d8a_14c4
  {
    EightShifts(0x20e4 ^ 0x3700);
  }

  lemma Digit8()
    ensures Crc16Byte(0x86d6, 0x38) == 0x9015 && Crc32Byte(0x0d8a_14c4, 0x38) == 0x49e3_c2fb
  {
    EightShifts(0x86d6 ^ 0x3800);
  }

  lemma Digit9()
    ensures Crc16Byte(0x9015, 0x39) == 0x31c3 && Crc32Byte(0x49e3_c2fb, 0x39) == 0x0376_e6e7
  {
    EightShifts(0x9015 ^ 0x3900);
  }

  lemma NextDigit(c: bv16, e: bv32, data: seq<bv8>)
    requires data != []
    ensures Crc16(c, data) == Crc16(Crc16Byte(c, data[0]), data[1..])
    ensures Crc32(e, data) == Crc32(Crc32Byte(e, data[0]), data[1..])
  {}

  /** The check values of the CRC-16 with this polynomial and start value 0, and of the CRC-32 that
      takes the most significant bit first. */
  lemma CheckValues()
    ensures Crc16(CRC16_INIT, DIGITS) == 0x31c3 && Fcs32(DIGITS) == 0xfc89_1918
  {
    hide Crc16, Crc32, Crc16Byte, Crc32Byte;
    Digit1();
    NextDigit(0x0000, 0xffff_ffff, DIGITS[0..]);
    Digit2();
    NextDigit(0x2672, 0x9efb_cf93, DIGITS[1..]);
    Digit3();
    NextDigit(0x20b5, 0x3fec_5e6a, DIGITS[2..]);
    Digit4();
    NextDigit(0x9752, 0xd952_f164, DIGITS[3..]);
    Digit5();
    NextDigit(0xd789, 0xa695_c4aa, DIGITS[4..]);
    Digit6();
    NextDigit(0x546c, 0xbd9a_b747, DIGITS[5..]);
    Digit7();
    NextDigit(0x20e4, 0xd8f0_6c8f, DIGITS[6..]);
    Digit8();
    NextDigit(0x86d6, 0x0d8a_14c4, DIGITS[7..]);
    Digit9();
    NextDigit(0x9015, 0x49e3_c2fb, DIGITS[8..]);
    assert DIGITS[9..] == [];
    NoDigits(0x31c3, 0x0376_e6e7);
  }

  lemma NoDigits(c: bv16, e: bv32)
    ensures Crc16(c, []) == c && Crc32(e, []) == e
  {}
}
