/** CRC-16 (bit loop) and CRC-32 (table) of utils/src/crc.c, against the division of
    polynomials over GF(2). */
module Crc {
  import opened Gf2
  import opened WordBits

  const CRC16_POLY: bv16 := 0x1021
  const CRC16_INIT: bv16 := 0x0000
  const CRC32_POLY: bv32 := 0x04c1_1db7
  const CRC32_INIT: bv32 := 0xffff_ffff

  /** How two checksums of short messages differ that differ in their last bit. */
  const SHORT_BURST: bv32 := 0xd219_c1dc

  function Poly16(): (p: Bits)
    ensures |p| == 16
  {
    Bits16(CRC16_POLY)
  }

  function Poly32(): (p: Bits)
    ensures |p| == 32
  {
    Bits32(CRC32_POLY)
  }

  /** Both generators have constant term 1. */
  lemma PolysEndInOne()
    ensures Poly16()[15] && Poly32()[31]
  {
    NextMask(14);
    assert BitMask(15) == 0x0001_0000;
    assert BitMask(31) == 1;
  }

  // ---------------------------------------------------------------- CRC-16

  function Shift16(c: bv16): bv16 {
    if c & 0x8000 != 0 then (c << 1) ^ CRC16_POLY else c << 1
  }

  function Shifts16(c: bv16, n: nat): bv16 {
    if n == 0 then c else Shift16(Shifts16(c, n - 1))
  }

  function Crc16Byte(curr: bv16, byte: bv8): bv16 {
    Shifts16(curr ^ ((byte as bv16) << 8), 8)
  }

  /** The register after a whole message. */
  function Crc16(curr: bv16, data: seq<bv8>): bv16
    decreases |data|
  {
    if data == [] then curr else Crc16(Crc16Byte(curr, data[0]), data[1..])
  }

  lemma TopBit16(c: bv16)
    ensures Bits16(c)[0] == (c & 0x8000 != 0)
  {}

  lemma Shift16IsStep(c: bv16)
    ensures Bits16(Shift16(c)) == Step(Bits16(c), false, Poly16())
  {
    TopBit16(c);
    Bits16Double(c);
    Bits16Xor(c << 1, CRC16_POLY, (c << 1) ^ CRC16_POLY);
    assert Xor(Bits16(c << 1), Zeros(16)) == Bits16(c << 1);
  }

  lemma {:induction false} Shifts16IsFeed(c: bv16, n: nat)
    ensures Bits16(Shifts16(c, n)) == Feed(Bits16(c), Zeros(n), Poly16())
  {
    if n > 0 {
      Shifts16IsFeed(c, n - 1);
      Shift16IsStep(Shifts16(c, n - 1));
      assert Zeros(n) == Zeros(n - 1) + [false];
      FeedSplit(Bits16(c), Zeros(n - 1), [false], Poly16());
      var r := Feed(Bits16(c), Zeros(n - 1), Poly16());
      assert Feed(r, [false], Poly16()) == Feed(Step(r, false, Poly16()), [], Poly16());
    }
  }

  lemma Crc16ByteIsFeed(curr: bv16, byte: bv8)
    ensures Bits16(Crc16Byte(curr, byte)) == Feed(Bits16(curr), Bits8(byte), Poly16())
  {
    PolysEndInOne();
    Shifts16IsFeed(curr ^ ((byte as bv16) << 8), 8);
    Bits16Xor(curr, (byte as bv16) << 8, curr ^ ((byte as bv16) << 8));
    Bits16OfByte(byte);
    FeedAsAdd(Bits16(curr), Bits8(byte), Poly16());
  }

  lemma {:induction false} Crc16IsFeed(curr: bv16, data: seq<bv8>)
    ensures Bits16(Crc16(curr, data)) == Feed(Bits16(curr), MessageBits(data), Poly16())
    decreases |data|
  {
    if data != [] {
      Crc16ByteIsFeed(curr, data[0]);
      Crc16IsFeed(Crc16Byte(curr, data[0]), data[1..]);
      FeedSplit(Bits16(curr), Bits8(data[0]), MessageBits(data[1..]), Poly16());
    }
  }

  method Crc16Update(currCrc: bv16, byte: bv8) returns (crc: bv16)
    ensures crc == Crc16Byte(currCrc, byte)
  {
    var ix := 8;
    crc := currCrc ^ ((byte as bv16) << 8);
    ghost var start := crc;
    while ix != 0
      invariant 0 <= ix <= 8
      invariant crc == Shifts16(start, 8 - ix)
    {
      ghost var before := crc;
      ix := ix - 1;
      if crc & 0x8000 != 0 {
        crc := (crc << 1) ^ CRC16_POLY;
        ShiftWithPoly(start, before, crc, 8 - ix);
      } else {
        crc := crc << 1;
        ShiftOnly(start, before, crc, 8 - ix);
      }
    }
  }

  lemma ShiftWithPoly(start: bv16, before: bv16, after: bv16, n: nat)
    requires n > 0 && before == Shifts16(start, n - 1)
    requires before & 0x8000 != 0 && after == (before << 1) ^ CRC16_POLY
    ensures after == Shifts16(start, n)
  {}

  lemma ShiftOnly(start: bv16, before: bv16, after: bv16, n: nat)
    requires n > 0 && before == Shifts16(start, n - 1)
    requires before & 0x8000 == 0 && after == before << 1
    ensures after == Shifts16(start, n)
  {}

  method Crc16UpdateN(currCrc: bv16, data: seq<bv8>) returns (crc: bv16)
    requires |data| < 0x1_0000
    ensures crc == Crc16(currCrc, data)
  {
    crc := currCrc;
    for ix := 0 to |data|
      invariant Crc16(currCrc, data) == Crc16(crc, data[ix..])
    {
      crc := Crc16Update(crc, data[ix]);
    }
  }

  method Crc16Calc(data: seq<bv8>) returns (crc: bv16)
    requires |data| < 0x1_0000
    ensures crc == Crc16(CRC16_INIT, data)
  {
    crc := CRC16_INIT;
    for ix := 0 to |data|
      invariant Crc16(CRC16_INIT, data) == Crc16(crc, data[ix..])
    {
      crc := Crc16Update(crc, data[ix]);
    }
  }

  // ---------------------------------------------------------------- CRC-32

  const TABLE_0: seq<bv32> := [
    0x0000_0000, 0x04c1_1db7, 0x0982_3b6e, 0x0d43_26d9, 0x1304_76dc, 0x17c5_6b6b, 0x1a86_4db2, 0x1e47_5005,
    0x2608_edb8, 0x22c9_f00f, 0x2f8a_d6d6, 0x2b4b_cb61, 0x350c_9b64, 0x31cd_86d3, 0x3c8e_a00a, 0x384f_bdbd
  ]
  const TABLE_1: seq<bv32> := [
    0x4c11_db70, 0x48d0_c6c7, 0x4593_e01e, 0x4152_fda9, 0x5f15_adac, 0x5bd4_b01b, 0x5697_96c2, 0x5256_8b75,
    0x6a19_36c8, 0x6ed8_2b7f, 0x639b_0da6, 0x675a_1011, 0x791d_4014, 0x7ddc_5da3, 0x709f_7b7a, 0x745e_66cd
  ]
  const TABLE_2: seq<bv32> := [
    0x9823_b6e0, 0x9ce2_ab57, 0x91a1_8d8e, 0x9560_9039, 0x8b27_c03c, 0x8fe6_dd8b, 0x82a5_fb52, 0x8664_e6e5,
    0xbe2b_5b58, 0xbaea_46ef, 0xb7a9_6036, 0xb368_7d81, 0xad2f_2d84, 0xa9ee_3033, 0xa4ad_16ea, 0xa06c_0b5d
  ]
  const TABLE_3: seq<bv32> := [
    0xd432_6d90, 0xd0f3_7027, 0xddb0_56fe, 0xd971_4b49, 0xc736_1b4c, 0xc3f7_06fb, 0xceb4_2022, 0xca75_3d95,
    0xf23a_8028, 0xf6fb_9d9f, 0xfbb8_bb46, 0xff79_a6f1, 0xe13e_f6f4, 0xe5ff_eb43, 0xe8bc_cd9a, 0xec7d_d02d
  ]
  const TABLE_4: seq<bv32> := [
    0x3486_7077, 0x3047_6dc0, 0x3d04_4b19, 0x39c5_56ae, 0x2782_06ab, 0x2343_1b1c, 0x2e00_3dc5, 0x2ac1_2072,
    0x128e_9dcf, 0x164f_8078, 0x1b0c_a6a1, 0x1fcd_bb16, 0x018a_eb13, 0x054b_f6a4, 0x0808_d07d, 0x0cc9_cdca
  ]
  const TABLE_5: seq<bv32> := [
    0x7897_ab07, 0x7c56_b6b0, 0x7115_9069, 0x75d4_8dde, 0x6b93_dddb, 0x6f52_c06c, 0x6211_e6b5, 0x66d0_fb02,
    0x5e9f_46bf, 0x5a5e_5b08, 0x571d_7dd1, 0x53dc_6066, 0x4d9b_3063, 0x495a_2dd4, 0x4419_0b0d, 0x40d8_16ba
  ]
  const TABLE_6: seq<bv32> := [
    0xaca5_c697, 0xa864_db20, 0xa527_fdf9, 0xa1e6_e04e, 0xbfa1_b04b, 0xbb60_adfc, 0xb623_8b25, 0xb2e2_9692,
    0x8aad_2b2f, 0x8e6c_3698, 0x832f_1041, 0x87ee_0df6, 0x99a9_5df3, 0x9d68_4044, 0x902b_669d, 0x94ea_7b2a
  ]
  const TABLE_7: seq<bv32> := [
    0xe0b4_1de7, 0xe475_0050, 0xe936_2689, 0xedf7_3b3e, 0xf3b0_6b3b, 0xf771_768c, 0xfa32_5055, 0xfef3_4de2,
    0xc6bc_f05f, 0xc27d_ede8, 0xcf3e_cb31, 0xcbff_d686, 0xd5b8_8683, 0xd179_9b34, 0xdc3a_bded, 0xd8fb_a05a
  ]
  const TABLE_8: seq<bv32> := [
    0x690c_e0ee, 0x6dcd_fd59, 0x608e_db80, 0x644f_c637, 0x7a08_9632, 0x7ec9_8b85, 0x738a_ad5c, 0x774b_b0eb,
    0x4f04_0d56, 0x4bc5_10e1, 0x4686_3638, 0x4247_2b8f, 0x5c00_7b8a, 0x58c1_663d, 0x5582_40e4, 0x5143_5d53
  ]
  const TABLE_9: seq<bv32> := [
    0x251d_3b9e, 0x21dc_2629, 0x2c9f_00f0, 0x285e_1d47, 0x3619_4d42, 0x32d8_50f5, 0x3f9b_762c, 0x3b5a_6b9b,
    0x0315_d626, 0x07d4_cb91, 0x0a97_ed48, 0x0e56_f0ff, 0x1011_a0fa, 0x14d0_bd4d, 0x1993_9b94, 0x1d52_8623
  ]
  const TABLE_A: seq<bv32> := [
    0xf12f_560e, 0xf5ee_4bb9, 0xf8ad_6d60, 0xfc6c_70d7, 0xe22b_20d2, 0xe6ea_3d65, 0xeba9_1bbc, 0xef68_060b,
    0xd727_bbb6, 0xd3e6_a601, 0xdea5_80d8, 0xda64_9d6f, 0xc423_cd6a, 0xc0e2_d0dd, 0xcda1_f604, 0xc960_ebb3
  ]
  const TABLE_B: seq<bv32> := [
    0xbd3e_8d7e, 0xb9ff_90c9, 0xb4bc_b610, 0xb07d_aba7, 0xae3a_fba2, 0xaafb_e615, 0xa7b8_c0cc, 0xa379_dd7b,
    0x9b36_60c6, 0x9ff7_7d71, 0x92b4_5ba8, 0x9675_461f, 0x8832_161a, 0x8cf3_0bad, 0x81b0_2d74, 0x8571_30c3
  ]
  const TABLE_C: seq<bv32> := [
    0x5d8a_9099, 0x594b_8d2e, 0x5408_abf7, 0x50c9_b640, 0x4e8e_e645, 0x4a4f_fbf2, 0x470c_dd2b, 0x43cd_c09c,
    0x7b82_7d21, 0x7f43_6096, 0x7200_464f, 0x76c1_5bf8, 0x6886_0bfd, 0x6c47_164a, 0x6104_3093, 0x65c5_2d24
  ]
  const TABLE_D: seq<bv32> := [
    0x119b_4be9, 0x155a_565e, 0x1819_7087, 0x1cd8_6d30, 0x029f_3d35, 0x065e_2082, 0x0b1d_065b, 0x0fdc_1bec,
    0x3793_a651, 0x3352_bbe6, 0x3e11_9d3f, 0x3ad0_8088, 0x2497_d08d, 0x2056_cd3a, 0x2d15_ebe3, 0x29d4_f654
  ]
  const TABLE_E: seq<bv32> := [
    0xc5a9_2679, 0xc168_3bce, 0xcc2b_1d17, 0xc8ea_00a0, 0xd6ad_50a5, 0xd26c_4d12, 0xdf2f_6bcb, 0xdbee_767c,
    0xe3a1_cbc1, 0xe760_d676, 0xea23_f0af, 0xeee2_ed18, 0xf0a5_bd1d, 0xf464_a0aa, 0xf927_8673, 0xfde6_9bc4
  ]
  const TABLE_F: seq<bv32> := [
    0x89b8_fd09, 0x8d79_e0be, 0x803a_c667, 0x84fb_dbd0, 0x9abc_8bd5, 0x9e7d_9662, 0x933e_b0bb, 0x97ff_ad0c,
    0xafb0_10b1, 0xab71_0d06, 0xa632_2bdf, 0xa2f3_3668, 0xbcb4_666d, 0xb875_7bda, 0xb536_5d03, 0xb1f7_40b4
  ]
  function TableRow(row: int): seq<bv32> {
    match row
    case 0 => TABLE_0
    case 1 => TABLE_1
    case 2 => TABLE_2
    case 3 => TABLE_3
    case 4 => TABLE_4
    case 5 => TABLE_5
    case 6 => TABLE_6
    case 7 => TABLE_7
    case 8 => TABLE_8
    case 9 => TABLE_9
    case 10 => TABLE_A
    case 11 => TABLE_B
    case 12 => TABLE_C
    case 13 => TABLE_D
    case 14 => TABLE_E
    case _ => TABLE_F
  }

  lemma RowLength(row: int)
    ensures |TableRow(row)| == 16
  {}

  /** The entry at a byte index: row and column are its upper and lower four bits. */
  function TableEntry(index: bv8): bv32 {
    RowLength((index >> 4) as int);
    TableRow((index >> 4) as int)[(index & 0x0f) as int]
  }

  function Crc32Byte(curr: bv32, byte: bv8): bv32 {
    TableEntry(byte ^ TopByte(curr)) ^ (curr << 8)
  }

  function Crc32(curr: bv32, data: seq<bv8>): bv32
    decreases |data|
  {
    if data == [] then curr else Crc32(Crc32Byte(curr, data[0]), data[1..])
  }

  function Shift32(c: bv32): bv32 {
    if c & 0x8000_0000 != 0 then (c << 1) ^ CRC32_POLY else c << 1
  }

  function EightShifts(c: bv32): bv32 {
    Shift32(Shift32(Shift32(Shift32(Shift32(Shift32(Shift32(Shift32(c))))))))
  }

  lemma Shift32IsStep(c: bv32)
    ensures Bits32(Shift32(c)) == Step(Bits32(c), false, Poly32())
  {
    TopBit32(c);
    Bits32Double(c);
    Bits32Xor(c << 1, CRC32_POLY, (c << 1) ^ CRC32_POLY);
    assert Xor(Bits32(c << 1), Zeros(32)) == Bits32(c << 1);
  }

  lemma ShiftIsFeed(c: bv32, n: nat, start: Bits)
    requires |start| == 32 && Bits32(c) == Feed(start, Zeros(n), Poly32())
    ensures Bits32(Shift32(c)) == Feed(start, Zeros(n + 1), Poly32())
  {
    Shift32IsStep(c);
    assert Zeros(n + 1) == Zeros(n) + [false];
    FeedSplit(start, Zeros(n), [false], Poly32());
    var r := Feed(start, Zeros(n), Poly32());
    assert Feed(r, [false], Poly32()) == Feed(Step(r, false, Poly32()), [], Poly32());
  }

  /** What a table entry must be: the remainder of its index, eight places up. */
  predicate Right(index: bv8, entry: bv32) {
    Bits32(entry) == Feed(Bits8(index) + Zeros(24), Zeros(8), Poly32())
  }

  lemma EightShiftsRight(index: bv8, word: bv32)
    requires word == Wide8(index)
    ensures Right(index, EightShifts(word))
  {
    Bits32OfByte(index);
    var start := Bits32(word);
    assert Feed(start, Zeros(0), Poly32()) == start;
    var c1 := Shift32(word);
    ShiftIsFeed(word, 0, start);
    var c2 := Shift32(c1);
    ShiftIsFeed(c1, 1, start);
    var c3 := Shift32(c2);
    ShiftIsFeed(c2, 2, start);
    var c4 := Shift32(c3);
    ShiftIsFeed(c3, 3, start);
    var c5 := Shift32(c4);
    ShiftIsFeed(c4, 4, start);
    var c6 := Shift32(c5);
    ShiftIsFeed(c5, 5, start);
    var c7 := Shift32(c6);
    ShiftIsFeed(c6, 6, start);
    ShiftIsFeed(c7, 7, start);
  }

  // The 256 entries come down to exclusive ors of the eight entries at powers of two.

  predicate RowFollows(row: seq<bv32>) {
    |row| == 16 && forall i | 0 <= i < 16 :: row[i] == row[0] ^ TABLE_0[i]
  }

  lemma Row0() ensures RowFollows(TABLE_0) {}
  lemma Row1() ensures RowFollows(TABLE_1) {}
  lemma Row2() ensures RowFollows(TABLE_2) {}
  lemma Row3() ensures RowFollows(TABLE_3) {}
  lemma Row4() ensures RowFollows(TABLE_4) {}
  lemma Row5() ensures RowFollows(TABLE_5) {}
  lemma Row6() ensures RowFollows(TABLE_6) {}
  lemma Row7() ensures RowFollows(TABLE_7) {}
  lemma Row8() ensures RowFollows(TABLE_8) {}
  lemma Row9() ensures RowFollows(TABLE_9) {}
  lemma RowA() ensures RowFollows(TABLE_A) {}
  lemma RowB() ensures RowFollows(TABLE_B) {}
  lemma RowC() ensures RowFollows(TABLE_C) {}
  lemma RowD() ensures RowFollows(TABLE_D) {}
  lemma RowE() ensures RowFollows(TABLE_E) {}
  lemma RowF() ensures RowFollows(TABLE_F) {}

  function Part(index: bv8, power: bv8, entry: bv32): bv32 {
    if index & power != 0 then entry else 0
  }

  /** What the low and the high half of an index contribute: the entries at 1, 2, 4, 8 and
      at 0x10, 0x20, 0x40, 0x80. */
  function FromLow(index: bv8): bv32 {
    Part(index, 0x01, 0x04c1_1db7) ^ Part(index, 0x02, 0x0982_3b6e)
      ^ Part(index, 0x04, 0x1304_76dc) ^ Part(index, 0x08, 0x2608_edb8)
  }

  function FromHigh(index: bv8): bv32 {
    Part(index, 0x10, 0x4c11_db70) ^ Part(index, 0x20, 0x9823_b6e0)
      ^ Part(index, 0x40, 0x3486_7077) ^ Part(index, 0x80, 0x690c_e0ee)
  }

  lemma Columns(low: bv8)
    requires low < 16
    ensures (low as int) < 16 && TABLE_0[low as int] == FromLow(low)
  {}

  lemma Heads(high: bv8)
    requires high < 16
    ensures (high as int) < 16 && |TableRow(high as int)| == 16
    ensures TableRow(high as int)[0] == FromHigh(high << 4)
  {}

  lemma Rows(r: int)
    requires 0 <= r < 16
    ensures RowFollows(TableRow(r))
  {
    if {
      case r == 0 => Row0();
      case r == 1 => Row1();
      case r == 2 => Row2();
      case r == 3 => Row3();
      case r == 4 => Row4();
      case r == 5 => Row5();
      case r == 6 => Row6();
      case r == 7 => Row7();
      case r == 8 => Row8();
      case r == 9 => Row9();
      case r == 10 => RowA();
      case r == 11 => RowB();
      case r == 12 => RowC();
      case r == 13 => RowD();
      case r == 14 => RowE();
      case r == 15 => RowF();
    }
  }

  lemma UseRow(row: seq<bv32>, i: int)
    requires RowFollows(row) && 0 <= i < 16
    ensures row[i] == row[0] ^ TABLE_0[i]
  {}

  lemma RowHead(high: bv8, row: seq<bv32>)
    requires high < 16 && row == TableRow(high as int)
    ensures RowFollows(row) && row[0] == FromHigh(high << 4)
  {
    Rows(high as int);
    Heads(high);
  }

  lemma EntryOfRow(high: bv8, low: bv8, row: seq<bv32>)
    requires low < 16 && RowFollows(row) && row[0] == FromHigh(high)
    ensures row[low as int] == FromHigh(high) ^ FromLow(low)
  {
    UseRow(row, low as int);
    Columns(low);
  }

  lemma EntryIsSum(index: bv8)
    ensures TableEntry(index) == FromHigh((index >> 4) << 4) ^ FromLow(index & 0x0f)
  {
    var row := TableRow((index >> 4) as int);
    RowHead(index >> 4, row);
    EntryOfRow((index >> 4) << 4, index & 0x0f, row);
  }

  lemma ShiftsAreSum(index: bv8)
    ensures EightShifts(Wide8(index)) == FromHigh((index >> 4) << 4) ^ FromLow(index & 0x0f)
  {}

  lemma EntryIsRemainder(index: bv8)
    ensures Right(index, TableEntry(index))
  {
    EntryIsSum(index);
    ShiftsAreSum(index);
    EightShiftsRight(index, Wide8(index));
  }

  lemma Crc32ByteIsFeed(curr: bv32, byte: bv8)
    ensures Bits32(Crc32Byte(curr, byte)) == Feed(Bits32(curr), Bits8(byte), Poly32())
  {
    EntryIsRemainder(byte ^ TopByte(curr));
    AnyRightEntryServes(curr, byte, TableEntry(byte ^ TopByte(curr)));
  }

  lemma AnyRightEntryServes(curr: bv32, byte: bv8, entry: bv32)
    requires Right(byte ^ TopByte(curr), entry)
    ensures Bits32(entry ^ (curr << 8)) == Feed(Bits32(curr), Bits8(byte), Poly32())
  {
    RightEntryAddsUp(curr, byte, entry);
    BitsOfSum(entry, curr << 8);
  }

  lemma RightEntryAddsUp(curr: bv32, byte: bv8, entry: bv32)
    requires Right(byte ^ TopByte(curr), entry)
    ensures Xor(Bits32(entry), Bits32(curr << 8)) == Feed(Bits32(curr), Bits8(byte), Poly32())
  {
    FeedOfByte(curr, byte);
  }

  lemma BitsOfSum(c: bv32, d: bv32)
    ensures Bits32(c ^ d) == Xor(Bits32(c), Bits32(d))
  {
    Bits32Xor(c, d, c ^ d);
  }

  lemma FeedOfByte(curr: bv32, byte: bv8)
    ensures Feed(Bits32(curr), Bits8(byte), Poly32())
         == Xor(Feed(Bits8(byte ^ TopByte(curr)) + Zeros(24), Zeros(8), Poly32()), Bits32(curr << 8))
  {
    Bits8Xor(byte, TopByte(curr), byte ^ TopByte(curr));
    Bits32ShiftByte(curr);
    TableStep(Bits8(TopByte(curr)), Top(curr << 8, 24), Bits8(byte), Bits8(byte ^ TopByte(curr)));
  }

  /** The table step on bits: the outgoing byte meets the data byte, the other 24 bits move up. */
  lemma TableStep(high: Bits, low: Bits, byte: Bits, index: Bits)
    requires |high| == |byte| == 8 && |low| == 24 && index == Xor(byte, high)
    ensures Feed(high + low, byte, Poly32())
         == Xor(Feed(index + Zeros(24), Zeros(8), Poly32()), low + Zeros(8))
  {
    PolysEndInOne();
    FeedAsAdd(high + low, byte, Poly32());
    var rest := Zeros(8) + low;
    assert Xor(high + low, byte + Zeros(24)) == Xor(index + Zeros(24), rest);
    assert Xor(Zeros(8), Zeros(8)) == Zeros(8);
    FeedLinear(index + Zeros(24), rest, Zeros(8), Zeros(8), Poly32());
    FeedZerosThrough(8, low, Poly32());
  }

  lemma {:induction false} Crc32IsFeed(curr: bv32, data: seq<bv8>)
    ensures Bits32(Crc32(curr, data)) == Feed(Bits32(curr), MessageBits(data), Poly32())
    decreases |data|
  {
    if data != [] {
      Crc32ByteIsFeed(curr, data[0]);
      Crc32IsFeed(Crc32Byte(curr, data[0]), data[1..]);
      FeedSplit(Bits32(curr), Bits8(data[0]), MessageBits(data[1..]), Poly32());
    }
  }

  method Crc32Update(currCrc: bv32, byte: bv8) returns (crc: bv32)
    ensures crc == Crc32Byte(currCrc, byte)
    ensures Bits32(crc) == Feed(Bits32(currCrc), Bits8(byte), Poly32())
  {
    crc := TableEntry(byte ^ TopByte(currCrc)) ^ (currCrc << 8);
    Crc32ByteIsFeed(currCrc, byte);
  }

  method Crc32UpdateN(currCrc: bv32, data: seq<bv8>) returns (crc: bv32)
    requires |data| < 0x1_0000
    ensures crc == Crc32(currCrc, data)
  {
    crc := currCrc;
    for ix := 0 to |data|
      invariant Crc32(currCrc, data) == Crc32(crc, data[ix..])
    {
      crc := Crc32Update(crc, data[ix]);
    }
  }

  /** The 32-bit frame check sequence: short messages get one zero byte of padding, and the
      register is complemented at the end. */
  function Fcs32(data: seq<bv8>): bv32 {
    Crc32(CRC32_INIT, if |data| < 4 then data + [0] else data) ^ CRC32_INIT
  }

  method Crc32Calc(data: seq<bv8>) returns (crc: bv32)
    requires |data| < 0x1_0000
    ensures crc == Fcs32(data)
  {
    crc := CRC32_INIT;
    for ix := 0 to |data|
      invariant Crc32(CRC32_INIT, data) == Crc32(crc, data[ix..])
    {
      crc := Crc32Update(crc, data[ix]);
    }
    if |data| < 4 {
      Crc32Concat(CRC32_INIT, data, [0]);
      crc := Crc32Update(crc, 0x00);
    }
    crc := crc ^ CRC32_INIT;
  }

  // ---------------------------------------------------------------- Table differences

  function Sum32(a: bv32, b: bv32): bv32 { a ^ b }

  function Sum8(a: bv8, b: bv8): bv8 { a ^ b }

  function UpperHalf(index: bv8): bv8 { (index >> 4) << 4 }

  function LowerHalf(index: bv8): bv8 { index & 0x0f }

  lemma LowAdds(i: bv8, d: bv8)
    requires LowerHalf(d) == d
    ensures FromLow(LowerHalf(Sum8(i, d))) == Sum32(FromLow(LowerHalf(i)), FromLow(d))
    ensures UpperHalf(Sum8(i, d)) == UpperHalf(i)
  {}

  lemma EntryOfHalves(index: bv8)
    ensures TableEntry(index) == Sum32(FromHigh(UpperHalf(index)), FromLow(LowerHalf(index)))
  {
    hide TableEntry, FromLow, FromHigh;
    EntryIsSum(index);
  }

  /** Changing the lower half of an index changes the entry by a fixed amount. */
  lemma EntryAdds(i: bv8, d: bv8)
    requires LowerHalf(d) == d
    ensures TableEntry(Sum8(i, d)) == Sum32(TableEntry(i), FromLow(d))
  {
    hide TableEntry, FromLow, FromHigh, Sum8, Sum32, UpperHalf, LowerHalf;
    EntryOfHalves(i);
    EntryOfHalves(Sum8(i, d));
    LowAdds(i, d);
    Regrouped(FromHigh(UpperHalf(i)), FromLow(LowerHalf(i)), FromLow(d));
  }

  lemma Regrouped(a: bv32, b: bv32, c: bv32)
    ensures Sum32(a, Sum32(b, c)) == Sum32(Sum32(a, b), c)
  {}

  lemma Commuted(a: bv32, b: bv32)
    ensures Sum32(a, b) == Sum32(b, a)
  {}

  lemma Swapped(a: bv32, b: bv32, c: bv32)
    ensures Sum32(Sum32(a, b), c) == Sum32(Sum32(a, c), b)
  {
    hide Sum32;
    Regrouped(a, b, c);
    Commuted(b, c);
    Regrouped(a, c, b);
  }

  /** Two bytes that differ in their last bit leave registers that differ by the generator. */
  lemma LastBitFlipped(curr: bv32, b: bv8)
    ensures Crc32Byte(curr, Sum8(b, 1)) == Sum32(Crc32Byte(curr, b), CRC32_POLY)
  {
    hide TableEntry, TopByte, FromLow, Sum8, Sum32;
    LowEntries();
    IndexFlipped(b, TopByte(curr));
    EntryAdds(Sum8(b, TopByte(curr)), 1);
    ByteStep(curr, b);
    ByteStep(curr, Sum8(b, 1));
    Swapped(TableEntry(Sum8(b, TopByte(curr))), CRC32_POLY, curr << 8);
  }

  lemma ByteStep(curr: bv32, b: bv8)
    ensures Crc32Byte(curr, b) == Sum32(TableEntry(Sum8(b, TopByte(curr))), curr << 8)
  {
    hide TableEntry, TopByte;
  }

  lemma LowEntries()
    ensures LowerHalf(1) == 1 && FromLow(1) == CRC32_POLY
    ensures LowerHalf(4) == 4 && FromLow(4) == 0x1304_76dc
  {}

  lemma IndexFlipped(b: bv8, top: bv8)
    ensures Sum8(Sum8(b, 1), top) == Sum8(Sum8(b, top), 1)
  {}

  /** What one zero byte makes of such a difference. */
  lemma PolyShiftedByte(curr: bv32)
    ensures Crc32Byte(Sum32(curr, CRC32_POLY), 0) == Sum32(Crc32Byte(curr, 0), SHORT_BURST)
  {
    hide TableEntry, TopByte, FromLow, Sum8, Sum32;
    LowEntries();
    TopOfSum(curr);
    EntryAdds(Sum8(0, TopByte(curr)), 4);
    ByteStep(curr, 0);
    ByteStep(Sum32(curr, CRC32_POLY), 0);
    Collected(TableEntry(Sum8(0, TopByte(curr))), curr << 8);
  }

  lemma TopOfSum(c: bv32)
    ensures Sum8(0, TopByte(Sum32(c, CRC32_POLY))) == Sum8(Sum8(0, TopByte(c)), 4)
    ensures Sum32(c, CRC32_POLY) << 8 == Sum32(c << 8, 0xc11d_b700)
  {}

  lemma Collected(a: bv32, b: bv32)
    ensures Sum32(Sum32(a, 0x1304_76dc), Sum32(b, 0xc11d_b700)) == Sum32(Sum32(a, b), SHORT_BURST)
  {}

  // ---------------------------------------------------------------- Main results

  lemma Crc16IsTheRemainder(curr: bv16, data: seq<bv8>, crc: bv16)
    ensures IsRemainder(Dividend(MessageBits(data), Bits16(curr)), Poly16(), Bits16(crc)) <==> crc == Crc16(curr, data)
  {
    FeedIsTheRemainder(MessageBits(data), Bits16(curr), Poly16(), Bits16(crc));
    Crc16IsFeed(curr, data);
    if Bits16(crc) == Bits16(Crc16(curr, data)) {
      Bits16Injective(crc, Crc16(curr, data));
    }
  }

  lemma Crc32IsTheRemainder(curr: bv32, data: seq<bv8>, crc: bv32)
    ensures IsRemainder(Dividend(MessageBits(data), Bits32(curr)), Poly32(), Bits32(crc)) <==> crc == Crc32(curr, data)
  {
    FeedIsTheRemainder(MessageBits(data), Bits32(curr), Poly32(), Bits32(crc));
    Crc32IsFeed(curr, data);
    if Bits32(crc) == Bits32(Crc32(curr, data)) {
      Bits32Injective(crc, Crc32(curr, data));
    }
  }

  lemma {:induction false} Crc16Concat(curr: bv16, a: seq<bv8>, b: seq<bv8>)
    ensures Crc16(curr, a + b) == Crc16(Crc16(curr, a), b)
    decreases |a|
  {
    if a == [] {
      assert a + b == b;
    } else {
      assert (a + b)[1..] == a[1..] + b;
      Crc16Concat(Crc16Byte(curr, a[0]), a[1..], b);
    }
  }

  lemma {:induction false} Crc32Concat(curr: bv32, a: seq<bv8>, b: seq<bv8>)
    ensures Crc32(curr, a + b) == Crc32(Crc32(curr, a), b)
    decreases |a|
  {
    if a == [] {
      assert a + b == b;
    } else {
      assert (a + b)[1..] == a[1..] + b;
      Crc32Concat(Crc32Byte(curr, a[0]), a[1..], b);
    }
  }

  /** Messages of one length that differ, but only within 16 consecutive bits, have
      different 16-bit CRCs. */
  lemma Crc16DetectsBurst(curr: bv16, a: seq<bv8>, b: seq<bv8>, start: nat)
    requires a != b && |a| == |b|
    requires DifferWithin(MessageBits(a), MessageBits(b), start, 16)
    ensures Crc16(curr, a) != Crc16(curr, b)
  {
    if MessageBits(a) == MessageBits(b) {
      MessageBitsInjective(a, b);
    }
    PolysEndInOne();
    DetectsBurst(Bits16(curr), MessageBits(a), MessageBits(b), start, Poly16());
    Crc16IsFeed(curr, a);
    Crc16IsFeed(curr, b);
  }

  lemma Crc32DetectsBurst(curr: bv32, a: seq<bv8>, b: seq<bv8>, start: nat)
    requires a != b && |a| == |b|
    requires DifferWithin(MessageBits(a), MessageBits(b), start, 32)
    ensures Crc32(curr, a) != Crc32(curr, b)
  {
    if MessageBits(a) == MessageBits(b) {
      MessageBitsInjective(a, b);
    }
    PolysEndInOne();
    DetectsBurst(Bits32(curr), MessageBits(a), MessageBits(b), start, Poly32());
    Crc32IsFeed(curr, a);
    Crc32IsFeed(curr, b);
  }

  /** A message followed by its CRC-16 divides without remainder, and nothing else of that
      length behind the message does. */
  lemma Crc16SelfCheck(curr: bv16, data: seq<bv8>, fcs: bv16)
    ensures Crc16(curr, data + [(fcs >> 8) as bv8, (fcs & 0xff) as bv8]) == 0
       <==> fcs == Crc16(curr, data)
  {
    var tail := [(fcs >> 8) as bv8, (fcs & 0xff) as bv8];
    var crc := Crc16(curr, data);
    Crc16Concat(curr, data, tail);
    Crc16IsFeed(crc, tail);
    assert tail[1..] == [tail[1]] && tail[1..][1..] == [];
    assert MessageBits(tail) == Bits8(tail[0]) + Bits8(tail[1]);
    Bits16OfBytes(fcs);
    PolysEndInOne();
    ZeroAfter(Bits16(crc), Bits16(fcs), Poly16());
    assert Bits16(fcs) + Zeros(0) == Bits16(fcs);
    TopZero(16);
    if Bits16(crc) == Bits16(fcs) {
      Bits16Injective(crc, fcs);
    }
    if Bits16(Crc16(crc, tail)) == Bits16(0) {
      Bits16Injective(Crc16(crc, tail), 0);
    }
  }

  /** The padding lets two short messages be so close, check sequence included, that they
      differ in 32 consecutive bits only. */
  lemma ShortFcs32(data: seq<bv8>, b: bv8)
    requires |data| < 3
    ensures Fcs32(data + [Sum8(b, 1)]) == Sum32(Fcs32(data + [b]), SHORT_BURST)
  {
    hide Crc32Byte, Crc32, Sum8, Sum32, Fcs32;
    var before := Crc32(CRC32_INIT, data);
    PaddedFcs(data, b);
    PaddedFcs(data, Sum8(b, 1));
    LastBitFlipped(before, b);
    PolyShiftedByte(Crc32Byte(before, b));
    Swapped(Crc32Byte(Crc32Byte(before, b), 0), SHORT_BURST, CRC32_INIT);
  }

  lemma PaddedFcs(data: seq<bv8>, b: bv8)
    requires |data| < 3
    ensures Fcs32(data + [b]) == Sum32(Crc32Byte(Crc32Byte(Crc32(CRC32_INIT, data), b), 0), CRC32_INIT)
  {
    hide Crc32Byte, Crc32;
    assert data + [b] + [0] == data + ([b] + [0]);
    Crc32Concat(CRC32_INIT, data, [b] + [0]);
    Crc32Concat(Crc32(CRC32_INIT, data), [b], [0]);
    OneByte(Crc32(CRC32_INIT, data), b);
    OneByte(Crc32Byte(Crc32(CRC32_INIT, data), b), 0);
  }

  lemma OneByte(curr: bv32, b: bv8)
    ensures Crc32(curr, [b]) == Crc32Byte(curr, b)
  {
    hide Crc32Byte;
    assert [b][1..] == [];
  }
}
