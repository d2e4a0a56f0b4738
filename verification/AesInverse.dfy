/** The inverse cipher of FIPS 197, and that it undoes the cipher of utils/src/aes-128.c. */
module AesInverse {
  import opened WordBits
  import opened Aes

  // ---------------------------------------------------------------- The inverse S-box

  const INV_0: seq<bv8> :=
    [0x52, 0x09, 0x6a, 0xd5, 0x30, 0x36, 0xa5, 0x38, 0xbf, 0x40, 0xa3, 0x9e, 0x81, 0xf3, 0xd7, 0xfb]
  const INV_1: seq<bv8> :=
    [0x7c, 0xe3, 0x39, 0x82, 0x9b, 0x2f, 0xff, 0x87, 0x34, 0x8e, 0x43, 0x44, 0xc4, 0xde, 0xe9, 0xcb]
  const INV_2: seq<bv8> :=
    [0x54, 0x7b, 0x94, 0x32, 0xa6, 0xc2, 0x23, 0x3d, 0xee, 0x4c, 0x95, 0x0b, 0x42, 0xfa, 0xc3, 0x4e]
  const INV_3: seq<bv8> :=
    [0x08, 0x2e, 0xa1, 0x66, 0x28, 0xd9, 0x24, 0xb2, 0x76, 0x5b, 0xa2, 0x49, 0x6d, 0x8b, 0xd1, 0x25]
  const INV_4: seq<bv8> :=
    [0x72, 0xf8, 0xf6, 0x64, 0x86, 0x68, 0x98, 0x16, 0xd4, 0xa4, 0x5c, 0xcc, 0x5d, 0x65, 0xb6, 0x92]
  const INV_5: seq<bv8> :=
    [0x6c, 0x70, 0x48, 0x50, 0xfd, 0xed, 0xb9, 0xda, 0x5e, 0x15, 0x46, 0x57, 0xa7, 0x8d, 0x9d, 0x84]
  const INV_6: seq<bv8> :=
    [0x90, 0xd8, 0xab, 0x00, 0x8c, 0xbc, 0xd3, 0x0a, 0xf7, 0xe4, 0x58, 0x05, 0xb8, 0xb3, 0x45, 0x06]
  const INV_7: seq<bv8> :=
    [0xd0, 0x2c, 0x1e, 0x8f, 0xca, 0x3f, 0x0f, 0x02, 0xc1, 0xaf, 0xbd, 0x03, 0x01, 0x13, 0x8a, 0x6b]
  const INV_8: seq<bv8> :=
    [0x3a, 0x91, 0x11, 0x41, 0x4f, 0x67, 0xdc, 0xea, 0x97, 0xf2, 0xcf, 0xce, 0xf0, 0xb4, 0xe6, 0x73]
  const INV_9: seq<bv8> :=
    [0x96, 0xac, 0x74, 0x22, 0xe7, 0xad, 0x35, 0x85, 0xe2, 0xf9, 0x37, 0xe8, 0x1c, 0x75, 0xdf, 0x6e]
  const INV_A: seq<bv8> :=
    [0x47, 0xf1, 0x1a, 0x71, 0x1d, 0x29, 0xc5, 0x89, 0x6f, 0xb7, 0x62, 0x0e, 0xaa, 0x18, 0xbe, 0x1b]
  const INV_B: seq<bv8> :=
    [0xfc, 0x56, 0x3e, 0x4b, 0xc6, 0xd2, 0x79, 0x20, 0x9a, 0xdb, 0xc0, 0xfe, 0x78, 0xcd, 0x5a, 0xf4]
  const INV_C: seq<bv8> :=
    [0x1f, 0xdd, 0xa8, 0x33, 0x88, 0x07, 0xc7, 0x31, 0xb1, 0x12, 0x10, 0x59, 0x27, 0x80, 0xec, 0x5f]
  const INV_D: seq<bv8> :=
    [0x60, 0x51, 0x7f, 0xa9, 0x19, 0xb5, 0x4a, 0x0d, 0x2d, 0xe5, 0x7a, 0x9f, 0x93, 0xc9, 0x9c, 0xef]
  const INV_E: seq<bv8> :=
    [0xa0, 0xe0, 0x3b, 0x4d, 0xae, 0x2a, 0xf5, 0xb0, 0xc8, 0xeb, 0xbb, 0x3c, 0x83, 0x53, 0x99, 0x61]
  const INV_F: seq<bv8> :=
    [0x17, 0x2b, 0x04, 0x7e, 0xba, 0x77, 0xd6, 0x26, 0xe1, 0x69, 0x14, 0x63, 0x55, 0x21, 0x0c, 0x7d]

  function InvRow(row: int): (r: seq<bv8>)
    ensures |r| == 16
  {
    match row
    case 0 => INV_0
    case 1 => INV_1
    case 2 => INV_2
    case 3 => INV_3
    case 4 => INV_4
    case 5 => INV_5
    case 6 => INV_6
    case 7 => INV_7
    case 8 => INV_8
    case 9 => INV_9
    case 10 => INV_A
    case 11 => INV_B
    case 12 => INV_C
    case 13 => INV_D
    case 14 => INV_E
    case _ => INV_F
  }

  /** The entry at a byte: row and column are its upper and lower four bits. */
  function InvSbox(s: bv8): bv8 {
    InvRow((s >> 4) as int)[(s & 0x0f) as int]
  }

  predicate InvRowIsFips(h: bv8, row: seq<bv8>) {
    |row| == 16
    && EntryIsFips(row[0], h) && EntryIsFips(row[1], h + 1) && EntryIsFips(row[2], h + 2)
    && EntryIsFips(row[3], h + 3) && EntryIsFips(row[4], h + 4) && EntryIsFips(row[5], h + 5)
    && EntryIsFips(row[6], h + 6) && EntryIsFips(row[7], h + 7) && EntryIsFips(row[8], h + 8)
    && EntryIsFips(row[9], h + 9) && EntryIsFips(row[10], h + 10) && EntryIsFips(row[11], h + 11)
    && EntryIsFips(row[12], h + 12) && EntryIsFips(row[13], h + 13) && EntryIsFips(row[14], h + 14)
    && EntryIsFips(row[15], h + 15)
  }

  lemma InvRow0() ensures InvRowIsFips(0x00, INV_0) {}
  lemma InvRow1() ensures InvRowIsFips(0x10, INV_1) {}
  lemma InvRow2() ensures InvRowIsFips(0x20, INV_2) {}
  lemma InvRow3() ensures InvRowIsFips(0x30, INV_3) {}
  lemma InvRow4() ensures InvRowIsFips(0x40, INV_4) {}
  lemma InvRow5() ensures InvRowIsFips(0x50, INV_5) {}
  lemma InvRow6() ensures InvRowIsFips(0x60, INV_6) {}
  lemma InvRow7() ensures InvRowIsFips(0x70, INV_7) {}
  lemma InvRow8() ensures InvRowIsFips(0x80, INV_8) {}
  lemma InvRow9() ensures InvRowIsFips(0x90, INV_9) {}
  lemma InvRowA() ensures InvRowIsFips(0xA0, INV_A) {}
  lemma InvRowB() ensures InvRowIsFips(0xB0, INV_B) {}
  lemma InvRowC() ensures InvRowIsFips(0xC0, INV_C) {}
  lemma InvRowD() ensures InvRowIsFips(0xD0, INV_D) {}
  lemma InvRowE() ensures InvRowIsFips(0xE0, INV_E) {}
  lemma InvRowF() ensures InvRowIsFips(0xF0, INV_F) {}

  lemma UseInvRow(h: bv8, low: bv8, row: seq<bv8>)
    requires low < 16 && InvRowIsFips(h, row)
    ensures low as int < 16 && EntryIsFips(row[low as int], h + low)
  {
    hide EntryIsFips;
  }

  lemma HighInvRows(high: bv8)
    requires high < 16
    ensures high as int < 16 && InvRowIsFips(high << 4, InvRow(high as int))
  {
    hide InvRowIsFips;
    var row := high as int;
    if {
      case high == 0 => InvRow0();
      case high == 1 => InvRow1();
      case high == 2 => InvRow2();
      case high == 3 => InvRow3();
      case high == 4 => InvRow4();
      case high == 5 => InvRow5();
      case high == 6 => InvRow6();
      case high == 7 => InvRow7();
      case high == 8 => InvRow8();
      case high == 9 => InvRow9();
      case high == 10 => InvRowA();
      case high == 11 => InvRowB();
      case high == 12 => InvRowC();
      case high == 13 => InvRowD();
      case high == 14 => InvRowE();
      case high == 15 => InvRowF();
    }
  }

  /** The table is the inverse of the S-box of FIPS 197. */
  lemma InvSboxIsFips(s: bv8)
    ensures EntryIsFips(InvSbox(s), s)
  {
    hide EntryIsFips, InvRowIsFips, InvRow;
    Halves(s);
    HighInvRows(s >> 4);
    UseInvRow((s >> 4) << 4, s & 0x0f, InvRow((s >> 4) as int));
  }

  lemma InvSboxUndoes(b: bv8)
    ensures InvSbox(Sbox(b)) == b
  {
    hide Sbox, InvSbox, InvAffine, Product;
    var c := InvSbox(Sbox(b));
    SboxIsFips(b);
    InvSboxIsFips(Sbox(b));
    var y := InvAffine(Sbox(b));
    ProductOfZero(y);
    ProductOfZero(b);
    ProductOfZero(c);
    if b != 0 && c != 0 {
      ProductCancels(b, c, y);
    }
  }

  // ---------------------------------------------------------------- The inverse matrix

  /** The first row of the matrix of section 5.3.3. */
  function InvMixRow(a: bv8, b: bv8, c: bv8, d: bv8): bv8 {
    Sum4(Product(0x0e, a), Product(0x0b, b), Product(0x0d, c), Product(0x09, d))
  }

  /** Its rows are 0e 0b 0d 09, 09 0e 0b 0d, 0d 09 0e 0b and 0b 0d 09 0e: each is the one above,
      turned by one place. */
  function InvMixColumn(m: Word): Word {
    [InvMixRow(m[0], m[1], m[2], m[3]), InvMixRow(m[1], m[2], m[3], m[0]),
     InvMixRow(m[2], m[3], m[0], m[1]), InvMixRow(m[3], m[0], m[1], m[2])]
  }

  /** The coefficients, in Horner's form. */
  lemma InvCoefficients(b: bv8)
    ensures Product(0x0e, b) == Mul2(Plus(b, Mul2(Plus(b, Mul2(b)))))
    ensures Product(0x0b, b) == Plus(b, Mul2(Plus(b, Mul2(Mul2(b)))))
    ensures Product(0x0d, b) == Plus(b, Mul2(Mul2(Plus(b, Mul2(b)))))
    ensures Product(0x09, b) == Plus(b, Mul2(Mul2(Mul2(b))))
  {}

  lemma InPairs(a: bv8, b: bv8, c: bv8, d: bv8)
    ensures Sum4(a, b, c, d) == Plus(Plus(a, b), Plus(c, d))
  {}

  lemma ZeroPlus(a: bv8)
    ensures Plus(0, a) == a
  {}

  lemma PlusAssociates(a: bv8, b: bv8, c: bv8)
    ensures Plus(Plus(a, b), c) == Plus(a, Plus(b, c))
  {}

  lemma PlusCommutes(a: bv8, b: bv8)
    ensures Plus(a, b) == Plus(b, a)
  {}

  lemma PairsSwap(a: bv8, a': bv8, b: bv8, b': bv8)
    ensures Plus(Plus(a, a'), Plus(b, b')) == Plus(Plus(a, b), Plus(a', b'))
  {
    hide Plus;
    PlusAssociates(a, a', Plus(b, b'));
    PlusAssociates(a', b, b');
    PlusCommutes(a', b);
    PlusAssociates(b, a', b');
    PlusAssociates(a, b, Plus(a', b'));
  }

  lemma SumOfPairs(a: bv8, b: bv8, c: bv8, d: bv8, a': bv8, b': bv8, c': bv8, d': bv8)
    ensures Sum4(Plus(a, a'), Plus(b, b'), Plus(c, c'), Plus(d, d')) == Plus(Sum4(a, b, c, d), Sum4(a', b', c', d'))
  {
    hide Plus, Sum4;
    InPairs(Plus(a, a'), Plus(b, b'), Plus(c, c'), Plus(d, d'));
    InPairs(a, b, c, d);
    InPairs(a', b', c', d');
    PairsSwap(a, a', b, b');
    PairsSwap(c, c', d, d');
    PairsSwap(Plus(a, b), Plus(a', b'), Plus(c, d), Plus(c', d'));
  }

  /** Four values of Horner's form added up: first what is not doubled, then what is. */
  lemma Level(a: bv8, b: bv8, c: bv8, d: bv8, a': bv8, b': bv8, c': bv8, d': bv8)
    ensures Sum4(Plus(a, Mul2(a')), Plus(b, Mul2(b')), Plus(c, Mul2(c')), Plus(d, Mul2(d')))
         == Plus(Sum4(a, b, c, d), Mul2(Sum4(a', b', c', d')))
  {
    hide Mul2, Plus, Sum4;
    SumOfPairs(a, b, c, d, Mul2(a'), Mul2(b'), Mul2(c'), Mul2(d'));
    InPairs(Mul2(a'), Mul2(b'), Mul2(c'), Mul2(d'));
    InPairs(a', b', c', d');
    Mul2Linear(Plus(a', b'), Plus(c', d'));
    Mul2Linear(a', b');
    Mul2Linear(c', d');
  }

  /** One row of the inverse matrix, collected by powers of x. */
  function Collected(m0: bv8, m1: bv8, m2: bv8, m3: bv8): bv8 {
    Plus(Sum4(0, m1, m2, m3),
      Mul2(Plus(Sum4(m0, m1, 0, 0), Mul2(Plus(Sum4(m0, 0, m2, 0), Mul2(Sum4(m0, m1, m2, m3)))))))
  }

  lemma InvRowCollects(m0: bv8, m1: bv8, m2: bv8, m3: bv8)
    ensures InvMixRow(m0, m1, m2, m3) == Collected(m0, m1, m2, m3)
  {
    hide Product, Mul2, Sum4, Plus;
    InvCoefficients(m0);
    InvCoefficients(m1);
    InvCoefficients(m2);
    InvCoefficients(m3);
    var x0, x1, x2, x3 := Plus(m0, Mul2(m0)), Mul2(m1), Plus(m2, Mul2(m2)), Mul2(m3);
    ZeroPlus(Mul2(Plus(m0, Mul2(x0))));
    ZeroPlus(Mul2(x2));
    ZeroPlus(Mul2(x3));
    ZeroPlus(x1);
    ZeroPlus(x3);
    Level(0, m1, m2, m3, Plus(m0, Mul2(x0)), Plus(m1, Mul2(x1)), Mul2(x2), Mul2(x3));
    Level(m0, m1, 0, 0, x0, x1, x2, x3);
    Level(m0, 0, m2, 0, m0, m1, m2, m3);
  }

  lemma PairSum(a: bv8, x: bv8, c: bv8, y: bv8, t: bv8)
    ensures Plus(Sum3(a, x, t), Sum3(c, y, t)) == Plus(Plus(a, c), Plus(x, y))
  {}

  lemma MiddleCancels(a: bv8, b: bv8, c: bv8)
    ensures Plus(Plus(a, b), Plus(b, c)) == Plus(a, c)
    ensures Plus(Plus(a, b), Plus(c, b)) == Plus(a, c)
  {}

  lemma WithZeros(m0: bv8, m1: bv8, m2: bv8)
    ensures Sum4(m0, m1, 0, 0) == Plus(m0, m1) && Sum4(m0, 0, m2, 0) == Plus(m0, m2)
  {}

  lemma FirstTwice(a: bv8, b: bv8, c: bv8)
    ensures Plus(a, Plus(Plus(a, b), c)) == Plus(Plus(0, b), c)
  {}

  lemma WithoutFirst(m0: bv8, m1: bv8, m2: bv8, m3: bv8)
    ensures Sum4(0, m1, m2, m3) == Plus(m0, Sum4(m0, m1, m2, m3))
  {
    hide Plus, Sum4;
    InPairs(0, m1, m2, m3);
    InPairs(m0, m1, m2, m3);
    FirstTwice(m0, m1, Plus(m2, m3));
  }

  lemma LastTwice(a: bv8, x: bv8, t: bv8)
    ensures Plus(Sum3(a, x, t), t) == Plus(a, x)
  {}

  /** A row of the matrix, as the code computes it from a column of sum t. */
  function MixedRow(a: bv8, b: bv8, t: bv8): bv8 {
    Sum3(a, Mul2(Plus(a, b)), t)
  }

  lemma TwoRows(a: bv8, b: bv8, c: bv8, d: bv8, t: bv8)
    ensures Plus(MixedRow(a, b, t), MixedRow(c, d, t)) == Plus(Plus(a, c), Mul2(Plus(Plus(a, b), Plus(c, d))))
  {
    hide Mul2, Plus, Sum3;
    PairSum(a, Mul2(Plus(a, b)), c, Mul2(Plus(c, d)), t);
    Mul2Linear(Plus(a, b), Plus(c, d));
  }

  /** In the row, every power of x cancels out. */
  lemma CollectedOfMixed(a: bv8, b: bv8, c: bv8, d: bv8, t: bv8)
    requires t == Sum4(a, b, c, d)
    ensures Collected(MixedRow(a, b, t), MixedRow(b, c, t), MixedRow(c, d, t), MixedRow(d, a, t)) == a
  {
    hide Mul2, Plus, Sum3, Sum4, MixedRow;
    var m0, m1, m2, m3 := MixedRow(a, b, t), MixedRow(b, c, t), MixedRow(c, d, t), MixedRow(d, a, t);
    InPairs(a, b, c, d);
    TwoRows(a, b, c, d, t);
    TwoRows(a, b, b, c, t);
    MiddleCancels(a, b, c);
    TwoRows(c, d, d, a, t);
    MiddleCancels(c, d, a);
    PlusCommutes(c, a);
    InPairs(m0, m1, m2, m3);
    MiddleCancels(Plus(a, b), Mul2(Plus(a, c)), Plus(c, d));
    WithZeros(m0, m1, m2);
    WithoutFirst(m0, m1, m2, m3);
    FirstRow(a, b, t);
    PlusTwice(Plus(a, c), Mul2(t));
    PlusTwice(Plus(a, b), Mul2(Plus(a, c)));
    PlusTwice(a, Mul2(Plus(a, b)));
  }

  lemma FirstRow(a: bv8, b: bv8, t: bv8)
    ensures Plus(MixedRow(a, b, t), t) == Plus(a, Mul2(Plus(a, b)))
  {
    hide Mul2, Plus, Sum3;
    LastTwice(a, Mul2(Plus(a, b)), t);
  }

  lemma InvRowOfRows(a: bv8, b: bv8, c: bv8, d: bv8, t: bv8)
    requires t == Sum4(a, b, c, d)
    ensures InvMixRow(MixedRow(a, b, t), MixedRow(b, c, t), MixedRow(c, d, t), MixedRow(d, a, t)) == a
  {
    hide Sum4, MixedRow, Collected, InvMixRow;
    InvRowCollects(MixedRow(a, b, t), MixedRow(b, c, t), MixedRow(c, d, t), MixedRow(d, a, t));
    CollectedOfMixed(a, b, c, d, t);
  }

  /** The inverse matrix undoes the matrix. */
  lemma InvMixColumnUndoes(a: Word)
    ensures InvMixColumn(MixColumn(a)) == a
  {
    hide Mul2, Product, Sum3, Sum4, Plus, MixColumn, InvMixRow;
    var t := Sum4(a[0], a[1], a[2], a[3]);
    MixedColumn(a);
    SumTurns(a[0], a[1], a[2], a[3]);
    SumTurns(a[1], a[2], a[3], a[0]);
    SumTurns(a[2], a[3], a[0], a[1]);
    InvRowOfRows(a[0], a[1], a[2], a[3], t);
    InvRowOfRows(a[1], a[2], a[3], a[0], t);
    InvRowOfRows(a[2], a[3], a[0], a[1], t);
    InvRowOfRows(a[3], a[0], a[1], a[2], t);
  }

  // ---------------------------------------------------------------- The inverse cipher

  function InvSubBytes(s: Block): Block {
    seq(BLOCK_SIZE, i requires 0 <= i < BLOCK_SIZE => InvSbox(s[i]))
  }

  /** Section 5.3.1: row r moves r places to the right. */
  function InvShiftRows(s: Block): Block {
    [s[0], s[13], s[10], s[7], s[4], s[1], s[14], s[11], s[8], s[5], s[2], s[15], s[12], s[9], s[6], s[3]]
  }

  lemma InvShiftRowsRotates(s: Block, r: nat, c: nat)
    requires r < 4 && c < 4
    ensures InvShiftRows(s)[r + 4 * ((c + r) % 4)] == s[r + 4 * c]
  {
    if {
      case c == 0 =>
      case c == 1 =>
      case c == 2 =>
      case c == 3 =>
    }
  }

  function InvMixColumns(s: Block): Block {
    FourWords(InvMixColumn(s[0..4]), InvMixColumn(s[4..8]), InvMixColumn(s[8..12]), InvMixColumn(s[12..16]))
  }

  /** Section 5.3: the state after r rounds of the inverse cipher. */
  function InvRounds(keys: Schedule, s: Block, r: nat): Block
    requires r <= 10
  {
    if r == 0 then AddRoundKey(s, keys[10])
    else
      var t := AddRoundKey(InvSubBytes(InvShiftRows(InvRounds(keys, s, r - 1))), keys[10 - r]);
      if r < 10 then InvMixColumns(t) else t
  }

  function InvCipher(keys: Schedule, s: Block): Block {
    InvRounds(keys, s, 10)
  }

  lemma InvSubBytesUndoes(s: Block)
    ensures InvSubBytes(SubBytes(s)) == s
  {
    hide Sbox, InvSbox;
    forall i | 0 <= i < BLOCK_SIZE ensures InvSubBytes(SubBytes(s))[i] == s[i] {
      InvSboxUndoes(s[i]);
    }
  }

  lemma InvShiftRowsUndoes(s: Block)
    ensures InvShiftRows(ShiftRows(s)) == s
  {
    var u := InvShiftRows(ShiftRows(s));
    assert u[0..4] == s[0..4] && u[4..8] == s[4..8] && u[8..12] == s[8..12] && u[12..16] == s[12..16];
    assert s == s[0..4] + s[4..8] + s[8..12] + s[12..16] && u == u[0..4] + u[4..8] + u[8..12] + u[12..16];
  }

  lemma InvMixColumnsUndoes(s: Block)
    ensures InvMixColumns(MixColumns(s)) == s
  {
    hide MixColumn, InvMixColumn;
    var m := MixColumns(s);
    assert m[0..4] == MixColumn(s[0..4]) && m[4..8] == MixColumn(s[4..8]);
    assert m[8..12] == MixColumn(s[8..12]) && m[12..16] == MixColumn(s[12..16]);
    InvMixColumnUndoes(s[0..4]);
    InvMixColumnUndoes(s[4..8]);
    InvMixColumnUndoes(s[8..12]);
    InvMixColumnUndoes(s[12..16]);
    assert s == s[0..4] + s[4..8] + s[8..12] + s[12..16];
  }

  lemma KeyTwice(s: Block, key: Block)
    ensures AddRoundKey(AddRoundKey(s, key), key) == s
  {
    hide Plus;
    forall i | 0 <= i < BLOCK_SIZE ensures AddRoundKey(AddRoundKey(s, key), key)[i] == s[i] {
      PlusTwice(s[i], key[i]);
    }
  }

  /** After r rounds the inverse cipher is where the cipher was in its round 10 - r. */
  lemma {:induction false} InvRoundsMeet(keys: Schedule, s: Block, r: nat)
    requires r <= 9
    ensures InvRounds(keys, Cipher(keys, s), r) == ShiftRows(SubBytes(Rounds(keys, s, 9 - r)))
  {
    hide AddRoundKey, SubBytes, ShiftRows, MixColumns, InvSubBytes, InvShiftRows, InvMixColumns;
    var t := ShiftRows(SubBytes(Rounds(keys, s, 9 - r)));
    if r == 0 {
      KeyTwice(t, keys[10]);
    } else {
      InvRoundsMeet(keys, s, r - 1);
      InvShiftRowsUndoes(SubBytes(Rounds(keys, s, 10 - r)));
      InvSubBytesUndoes(Rounds(keys, s, 10 - r));
      KeyTwice(MixColumns(t), keys[10 - r]);
      InvMixColumnsUndoes(t);
    }
  }

  /** Under every key schedule, the inverse cipher gets every block back. */
  lemma InvCipherUndoes(keys: Schedule, s: Block)
    ensures InvCipher(keys, Cipher(keys, s)) == s
  {
    hide AddRoundKey, SubBytes, ShiftRows, MixColumns, InvSubBytes, InvShiftRows, InvMixColumns;
    InvRoundsMeet(keys, s, 9);
    InvShiftRowsUndoes(SubBytes(Rounds(keys, s, 0)));
    InvSubBytesUndoes(Rounds(keys, s, 0));
    KeyTwice(s, keys[0]);
  }
}
