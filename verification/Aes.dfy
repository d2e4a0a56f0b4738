/** utils/src/aes-128.c: AES-128, after FIPS 197. */
module Aes {
  import opened WordBits
  import Gf2

  // ---------------------------------------------------------------- The field GF(2^8)

  /** galois_mul2. */
  function Mul2(value: bv8): bv8 {
    var xorVal := (value >> 7) * 0x1b;
    (value << 1) ^ xorVal
  }

  /** The product modulo x^8 + x^4 + x^3 + x + 1 (section 4.2): the sum of the b * x^i for the
      bits i of a. */
  function Product(a: bv8, b: bv8): bv8 {
    var b1 := Mul2(b);
    var b2 := Mul2(b1);
    var b3 := Mul2(b2);
    var b4 := Mul2(b3);
    var b5 := Mul2(b4);
    var b6 := Mul2(b5);
    var b7 := Mul2(b6);
    (if a & 1 != 0 then b else 0) ^ (if a & 2 != 0 then b1 else 0)
      ^ (if a & 4 != 0 then b2 else 0) ^ (if a & 8 != 0 then b3 else 0)
      ^ (if a & 16 != 0 then b4 else 0) ^ (if a & 32 != 0 then b5 else 0)
      ^ (if a & 64 != 0 then b6 else 0) ^ (if a & 128 != 0 then b7 else 0)
  }

  /** galois_mul2 multiplies by x = 2, and 3 = x + 1. */
  lemma Mul2IsProduct(b: bv8)
    ensures Product(1, b) == b && Product(2, b) == Mul2(b) && Product(3, b) == Plus(Mul2(b), b)
  {}

  lemma Wide8Double(v: bv8)
    ensures Wide8(v << 1) == Wide8(v) << 1
  {}

  lemma NoEighthBit(v: bv8, m: bv32)
    requires m == 0x0080_0000
    ensures !Overlap(Wide8(v), m)
  {}

  lemma Bits8Double(v: bv8)
    ensures Bits8(v << 1) == Bits8(v)[1..] + [false]
  {
    Wide8Double(v);
    EighthMask(0);
    NoEighthBit(v, BitMask(8));
    TopShift(Wide8(v), Wide8(v << 1), 8);
  }

  lemma TopBit8(v: bv8)
    ensures Bits8(v)[0] == (v >> 7 == 1)
    ensures Mul2(v) == (v << 1) ^ if v >> 7 == 1 then 0x1b else 0
  {}

  /** In the polynomials of bits, galois_mul2 is one step of the division by
      x^8 + x^4 + x^3 + x + 1. */
  lemma Mul2IsStep(v: bv8)
    ensures Bits8(Mul2(v)) == Gf2.Step(Bits8(v), false, Bits8(0x1b))
  {
    hide Bits8, Mul2;
    TopBit8(v);
    Bits8Double(v);
    Bits8Xor(v << 1, 0x1b, (v << 1) ^ 0x1b);
    assert (v << 1) ^ 0 == v << 1;
    assert Gf2.Xor(Bits8(v << 1), Gf2.Zeros(8)) == Bits8(v << 1);
  }

  lemma Mul2Linear(a: bv8, b: bv8)
    ensures Mul2(Plus(a, b)) == Plus(Mul2(a), Mul2(b))
  {}

  lemma ProductCancels(a: bv8, b: bv8, y: bv8)
    requires Product(a, y) == 1 && Product(b, y) == 1
    ensures a == b
  {}

  // ---------------------------------------------------------------- The S-box

  const SBOX_0: seq<bv8> :=
    [0x63, 0x7c, 0x77, 0x7b, 0xf2, 0x6b, 0x6f, 0xc5, 0x30, 0x01, 0x67, 0x2b, 0xfe, 0xd7, 0xab, 0x76]
  const SBOX_1: seq<bv8> :=
    [0xca, 0x82, 0xc9, 0x7d, 0xfa, 0x59, 0x47, 0xf0, 0xad, 0xd4, 0xa2, 0xaf, 0x9c, 0xa4, 0x72, 0xc0]
  const SBOX_2: seq<bv8> :=
    [0xb7, 0xfd, 0x93, 0x26, 0x36, 0x3f, 0xf7, 0xcc, 0x34, 0xa5, 0xe5, 0xf1, 0x71, 0xd8, 0x31, 0x15]
  const SBOX_3: seq<bv8> :=
    [0x04, 0xc7, 0x23, 0xc3, 0x18, 0x96, 0x05, 0x9a, 0x07, 0x12, 0x80, 0xe2, 0xeb, 0x27, 0xb2, 0x75]
  const SBOX_4: seq<bv8> :=
    [0x09, 0x83, 0x2c, 0x1a, 0x1b, 0x6e, 0x5a, 0xa0, 0x52, 0x3b, 0xd6, 0xb3, 0x29, 0xe3, 0x2f, 0x84]
  const SBOX_5: seq<bv8> :=
    [0x53, 0xd1, 0x00, 0xed, 0x20, 0xfc, 0xb1, 0x5b, 0x6a, 0xcb, 0xbe, 0x39, 0x4a, 0x4c, 0x58, 0xcf]
  const SBOX_6: seq<bv8> :=
    [0xd0, 0xef, 0xaa, 0xfb, 0x43, 0x4d, 0x33, 0x85, 0x45, 0xf9, 0x02, 0x7f, 0x50, 0x3c, 0x9f, 0xa8]
  const SBOX_7: seq<bv8> :=
    [0x51, 0xa3, 0x40, 0x8f, 0x92, 0x9d, 0x38, 0xf5, 0xbc, 0xb6, 0xda, 0x21, 0x10, 0xff, 0xf3, 0xd2]
  const SBOX_8: seq<bv8> :=
    [0xcd, 0x0c, 0x13, 0xec, 0x5f, 0x97, 0x44, 0x17, 0xc4, 0xa7, 0x7e, 0x3d, 0x64, 0x5d, 0x19, 0x73]
  const SBOX_9: seq<bv8> :=
    [0x60, 0x81, 0x4f, 0xdc, 0x22, 0x2a, 0x90, 0x88, 0x46, 0xee, 0xb8, 0x14, 0xde, 0x5e, 0x0b, 0xdb]
  const SBOX_A: seq<bv8> :=
    [0xe0, 0x32, 0x3a, 0x0a, 0x49, 0x06, 0x24, 0x5c, 0xc2, 0xd3, 0xac, 0x62, 0x91, 0x95, 0xe4, 0x79]
  const SBOX_B: seq<bv8> :=
    [0xe7, 0xc8, 0x37, 0x6d, 0x8d, 0xd5, 0x4e, 0xa9, 0x6c, 0x56, 0xf4, 0xea, 0x65, 0x7a, 0xae, 0x08]
  const SBOX_C: seq<bv8> :=
    [0xba, 0x78, 0x25, 0x2e, 0x1c, 0xa6, 0xb4, 0xc6, 0xe8, 0xdd, 0x74, 0x1f, 0x4b, 0xbd, 0x8b, 0x8a]
  const SBOX_D: seq<bv8> :=
    [0x70, 0x3e, 0xb5, 0x66, 0x48, 0x03, 0xf6, 0x0e, 0x61, 0x35, 0x57, 0xb9, 0x86, 0xc1, 0x1d, 0x9e]
  const SBOX_E: seq<bv8> :=
    [0xe1, 0xf8, 0x98, 0x11, 0x69, 0xd9, 0x8e, 0x94, 0x9b, 0x1e, 0x87, 0xe9, 0xce, 0x55, 0x28, 0xdf]
  const SBOX_F: seq<bv8> :=
    [0x8c, 0xa1, 0x89, 0x0d, 0xbf, 0xe6, 0x42, 0x68, 0x41, 0x99, 0x2d, 0x0f, 0xb0, 0x54, 0xbb, 0x16]

  function SboxRow(row: int): (r: seq<bv8>)
    ensures |r| == 16
  {
    match row
    case 0 => SBOX_0
    case 1 => SBOX_1
    case 2 => SBOX_2
    case 3 => SBOX_3
    case 4 => SBOX_4
    case 5 => SBOX_5
    case 6 => SBOX_6
    case 7 => SBOX_7
    case 8 => SBOX_8
    case 9 => SBOX_9
    case 10 => SBOX_A
    case 11 => SBOX_B
    case 12 => SBOX_C
    case 13 => SBOX_D
    case 14 => SBOX_E
    case _ => SBOX_F
  }

  /** The entry at a byte: row and column are its upper and lower four bits. */
  function Sbox(b: bv8): bv8 {
    SboxRow((b >> 4) as int)[(b & 0x0f) as int]
  }

  /** The affine transformation of section 5.1.1, and its inverse. */
  function Affine(y: bv8): bv8 {
    y ^ ((y << 1) | (y >> 7)) ^ ((y << 2) | (y >> 6)) ^ ((y << 3) | (y >> 5)) ^ ((y << 4) | (y >> 4)) ^ 0x63
  }

  function InvAffine(s: bv8): bv8 {
    ((s << 1) | (s >> 7)) ^ ((s << 3) | (s >> 5)) ^ ((s << 6) | (s >> 2)) ^ 0x05
  }

  lemma AffineInverse(s: bv8)
    ensures Affine(InvAffine(s)) == s
  {}

  /** s belongs to b in the S-box of FIPS 197: before the affine transformation it is the
      inverse of b in the field, or 0 for 0. */
  predicate EntryIsFips(b: bv8, s: bv8) {
    Product(b, InvAffine(s)) == if b == 0 then InvAffine(s) else 1
  }

  predicate RowIsFips(h: bv8, row: seq<bv8>) {
    |row| == 16
    && EntryIsFips(h, row[0]) && EntryIsFips(h + 1, row[1]) && EntryIsFips(h + 2, row[2])
    && EntryIsFips(h + 3, row[3]) && EntryIsFips(h + 4, row[4]) && EntryIsFips(h + 5, row[5])
    && EntryIsFips(h + 6, row[6]) && EntryIsFips(h + 7, row[7]) && EntryIsFips(h + 8, row[8])
    && EntryIsFips(h + 9, row[9]) && EntryIsFips(h + 10, row[10]) && EntryIsFips(h + 11, row[11])
    && EntryIsFips(h + 12, row[12]) && EntryIsFips(h + 13, row[13]) && EntryIsFips(h + 14, row[14])
    && EntryIsFips(h + 15, row[15])
  }

  lemma Row0() ensures RowIsFips(0x00, SBOX_0) {}
  lemma Row1() ensures RowIsFips(0x10, SBOX_1) {}
  lemma Row2() ensures RowIsFips(0x20, SBOX_2) {}
  lemma Row3() ensures RowIsFips(0x30, SBOX_3) {}
  lemma Row4() ensures RowIsFips(0x40, SBOX_4) {}
  lemma Row5() ensures RowIsFips(0x50, SBOX_5) {}
  lemma Row6() ensures RowIsFips(0x60, SBOX_6) {}
  lemma Row7() ensures RowIsFips(0x70, SBOX_7) {}
  lemma Row8() ensures RowIsFips(0x80, SBOX_8) {}
  lemma Row9() ensures RowIsFips(0x90, SBOX_9) {}
  lemma RowA() ensures RowIsFips(0xA0, SBOX_A) {}
  lemma RowB() ensures RowIsFips(0xB0, SBOX_B) {}
  lemma RowC() ensures RowIsFips(0xC0, SBOX_C) {}
  lemma RowD() ensures RowIsFips(0xD0, SBOX_D) {}
  lemma RowE() ensures RowIsFips(0xE0, SBOX_E) {}
  lemma RowF() ensures RowIsFips(0xF0, SBOX_F) {}

  lemma UseRow(h: bv8, low: bv8, row: seq<bv8>)
    requires low < 16 && RowIsFips(h, row)
    ensures low as int < 16 && EntryIsFips(h + low, row[low as int])
  {
    hide EntryIsFips;
  }

  lemma HighRows(high: bv8)
    requires high < 16
    ensures high as int < 16 && RowIsFips(high << 4, SboxRow(high as int))
  {
    hide RowIsFips;
    var row := high as int;
    if {
      case high == 0 => Row0();
      case high == 1 => Row1();
      case high == 2 => Row2();
      case high == 3 => Row3();
      case high == 4 => Row4();
      case high == 5 => Row5();
      case high == 6 => Row6();
      case high == 7 => Row7();
      case high == 8 => Row8();
      case high == 9 => Row9();
      case high == 10 => RowA();
      case high == 11 => RowB();
      case high == 12 => RowC();
      case high == 13 => RowD();
      case high == 14 => RowE();
      case high == 15 => RowF();
    }
  }

  lemma Halves(b: bv8)
    ensures b >> 4 < 16 && b & 0x0f < 16 && ((b >> 4) << 4) + (b & 0x0f) == b
  {}

  /** The table is the S-box of FIPS 197. */
  lemma SboxIsFips(b: bv8)
    ensures EntryIsFips(b, Sbox(b)) && Affine(InvAffine(Sbox(b))) == Sbox(b)
  {
    hide EntryIsFips, RowIsFips, Affine, InvAffine, SboxRow;
    Halves(b);
    HighRows(b >> 4);
    UseRow((b >> 4) << 4, b & 0x0f, SboxRow((b >> 4) as int));
    AffineInverse(Sbox(b));
  }

  lemma SboxInjective(b: bv8, c: bv8)
    requires Sbox(b) == Sbox(c)
    ensures b == c
  {
    hide Sbox, InvAffine, Product;
    SboxIsFips(b);
    SboxIsFips(c);
    var y := InvAffine(Sbox(b));
    ProductOfZero(y);
    ProductOfZero(b);
    ProductOfZero(c);
    if b != 0 && c != 0 {
      ProductCancels(b, c, y);
    }
  }

  lemma ProductOfZero(y: bv8)
    ensures Product(y, 0) == 0 && Product(0, y) == 0
  {}

  // ---------------------------------------------------------------- FIPS 197

  type Word = w: seq<bv8> | |w| == 4 witness [0, 0, 0, 0]

  function PlusWord(v: Word, w: Word): Word {
    [Plus(v[0], w[0]), Plus(v[1], w[1]), Plus(v[2], w[2]), Plus(v[3], w[3])]
  }

  function RotWord(w: Word): Word { [w[1], w[2], w[3], w[0]] }

  function SubWord(w: Word): Word { [Sbox(w[0]), Sbox(w[1]), Sbox(w[2]), Sbox(w[3])] }

  /** x^(i - 1). */
  function Rcon(i: nat): bv8
    requires i >= 1
  {
    if i == 1 then 1 else Mul2(Rcon(i - 1))
  }

  /** The word w[i] of the key expansion (section 5.2), for Nk = 4. */
  function KeyWord(key: Block, i: nat): Word {
    if i < 4 then key[4 * i..4 * i + 4]
    else
      var temp := KeyWord(key, i - 1);
      PlusWord(KeyWord(key, i - 4),
        if i % 4 == 0 then PlusWord(SubWord(RotWord(temp)), [Rcon(i / 4), 0, 0, 0]) else temp)
  }

  function FourWords(a: Word, b: Word, c: Word, d: Word): Block { a + b + c + d }

  /** The round keys, four words each. */
  function RoundKey(key: Block, r: nat): Block {
    FourWords(KeyWord(key, 4 * r), KeyWord(key, 4 * r + 1), KeyWord(key, 4 * r + 2), KeyWord(key, 4 * r + 3))
  }

  /** State byte i is in row i % 4 and column i / 4. */
  function SubBytes(s: Block): Block {
    seq(BLOCK_SIZE, i requires 0 <= i < BLOCK_SIZE => Sbox(s[i]))
  }

  function ShiftRows(s: Block): Block {
    [s[0], s[5], s[10], s[15], s[4], s[9], s[14], s[3], s[8], s[13], s[2], s[7], s[12], s[1], s[6], s[11]]
  }

  /** Section 5.1.2: row r moves r places to the left. */
  lemma ShiftRowsRotates(s: Block, r: nat, c: nat)
    requires r < 4 && c < 4
    ensures ShiftRows(s)[r + 4 * c] == s[r + 4 * ((c + r) % 4)]
  {
    if {
      case c == 0 =>
      case c == 1 =>
      case c == 2 =>
      case c == 3 =>
    }
  }

  function Sum3(a: bv8, b: bv8, c: bv8): bv8 { a ^ b ^ c }

  function Sum4(a: bv8, b: bv8, c: bv8, d: bv8): bv8 { a ^ b ^ c ^ d }

  /** Section 5.1.3: the matrix with rows 2 3 1 1, 1 2 3 1, 1 1 2 3 and 3 1 1 2. */
  function MixColumn(a: Word): Word {
    [Sum4(Product(2, a[0]), Product(3, a[1]), a[2], a[3]),
     Sum4(a[0], Product(2, a[1]), Product(3, a[2]), a[3]),
     Sum4(a[0], a[1], Product(2, a[2]), Product(3, a[3])),
     Sum4(Product(3, a[0]), a[1], a[2], Product(2, a[3]))]
  }

  function MixColumns(s: Block): Block {
    FourWords(MixColumn(s[0..4]), MixColumn(s[4..8]), MixColumn(s[8..12]), MixColumn(s[12..16]))
  }

  function AddRoundKey(s: Block, key: Block): Block {
    seq(BLOCK_SIZE, i requires 0 <= i < BLOCK_SIZE => Plus(s[i], key[i]))
  }

  const ZERO_BLOCK: Block := [0, 0, 0, 0, 0, 0, 0, 0, 0, 0, 0, 0, 0, 0, 0, 0]

  type Schedule = keys: seq<Block> | |keys| == 11 witness seq(11, _ => ZERO_BLOCK)

  /** Section 5.1: the state after round r; the last round leaves out MixColumns. */
  function Rounds(keys: Schedule, s: Block, r: nat): Block
    requires r <= 10
  {
    if r == 0 then AddRoundKey(s, keys[0])
    else
      var t := ShiftRows(SubBytes(Rounds(keys, s, r - 1)));
      AddRoundKey(if r < 10 then MixColumns(t) else t, keys[r])
  }

  function Cipher(keys: Schedule, s: Block): Block {
    Rounds(keys, s, 10)
  }

  // ---------------------------------------------------------------- The code

  /** What the code computes for a byte a with followers b, c and d is a row of the matrix. */
  lemma MixedByte(a: bv8, b: bv8, c: bv8, d: bv8)
    ensures Sum3(a, Mul2(Plus(a, b)), Sum4(a, b, c, d)) == Sum4(Product(2, a), Product(3, b), c, d)
  {
    hide Mul2, Product, Sum3, Sum4, Plus;
    Mul2IsProduct(a);
    Mul2IsProduct(b);
    Mul2Linear(a, b);
    Cancelled(a, b, c, d, Mul2(a), Mul2(b));
    Flat(Mul2(a), Mul2(b));
    Flat(Mul2(b), b);
    FlatSum(a, b, c, d);
  }

  lemma Flat(a: bv8, b: bv8)
    ensures Plus(a, b) == a ^ b
  {}

  lemma FlatSum(a: bv8, b: bv8, c: bv8, d: bv8)
    ensures Sum4(a, b, c, d) == a ^ b ^ c ^ d
  {}

  lemma Cancelled(a: bv8, b: bv8, c: bv8, d: bv8, x: bv8, y: bv8)
    ensures Sum3(a, x ^ y, a ^ b ^ c ^ d) == Sum4(x, y ^ b, c, d)
  {}

  lemma SumTurns(a: bv8, b: bv8, c: bv8, d: bv8)
    ensures Sum4(b, c, d, a) == Sum4(a, b, c, d)
  {}

  lemma MixedColumn(a: Word)
    ensures var t := Sum4(a[0], a[1], a[2], a[3]);
      MixColumn(a) == [Sum3(a[0], Mul2(Plus(a[0], a[1])), t), Sum3(a[1], Mul2(Plus(a[1], a[2])), t),
                       Sum3(a[2], Mul2(Plus(a[2], a[3])), t), Sum3(a[3], Mul2(Plus(a[3], a[0])), t)]
  {
    hide Mul2, Product, Sum3, Sum4, Plus;
    MixedByte(a[0], a[1], a[2], a[3]);
    MixedByte(a[1], a[2], a[3], a[0]);
    MixedByte(a[2], a[3], a[0], a[1]);
    MixedByte(a[3], a[0], a[1], a[2]);
    SumTurns(a[0], a[1], a[2], a[3]);
    SumTurns(a[1], a[2], a[3], a[0]);
    SumTurns(a[2], a[3], a[0], a[1]);
    SumTurns(a[0], Product(2, a[1]), Product(3, a[2]), a[3]);
    SumTurns(a[0], a[1], Product(2, a[2]), Product(3, a[3]));
    SumTurns(a[1], Product(2, a[2]), Product(3, a[3]), a[0]);
    SumTurns(Product(2, a[3]), Product(3, a[0]), a[1], a[2]);
  }

  /** The first word of the round key after k, as the code computes it. */
  function FirstWord(k: Block, rcon: bv8): Word {
    [Sum3(Sbox(k[13]), k[0], rcon), Plus(Sbox(k[14]), k[1]), Plus(Sbox(k[15]), k[2]), Plus(Sbox(k[12]), k[3])]
  }

  /** Byte i of a round key whose first word is w: each byte is the sum of its place in the
      previous round key and the byte four places before. */
  function ChainByte(k: Block, w: Word, i: nat): bv8
    requires i < BLOCK_SIZE
  {
    if i < 4 then w[i] else Plus(k[i], ChainByte(k, w, i - 4))
  }

  /** The round key after k whose first word is w0. */
  function Chained(k: Block, w0: Word): Block {
    var w1 := PlusWord(k[4..8], w0);
    var w2 := PlusWord(k[8..12], w1);
    FourWords(w0, w1, w2, PlusWord(k[12..16], w2))
  }

  function Expanded(k: Block, rcon: bv8): Block {
    Chained(k, FirstWord(k, rcon))
  }

  lemma {:induction false} ChainedByte(k: Block, w0: Word, i: nat)
    requires i < BLOCK_SIZE
    ensures Chained(k, w0)[i] == ChainByte(k, w0, i)
  {
    hide Plus;
    if i >= 4 {
      ChainedByte(k, w0, i - 4);
      ChainedStep(k, w0, i);
    }
  }

  lemma ChainedStep(k: Block, w0: Word, i: nat)
    requires 4 <= i < BLOCK_SIZE
    ensures Chained(k, w0)[i] == Plus(k[i], Chained(k, w0)[i - 4])
  {
    hide Plus, PlusWord;
    var w1 := PlusWord(k[4..8], w0);
    var w2 := PlusWord(k[8..12], w1);
    if {
      case i < 8 => PlusWordAt(k[4..8], w0, i - 4);
      case 8 <= i < 12 => PlusWordAt(k[8..12], w1, i - 8);
      case 12 <= i => PlusWordAt(k[12..16], w2, i - 12);
    }
  }

  lemma PlusWordAt(v: Word, w: Word, j: nat)
    requires j < 4
    ensures PlusWord(v, w)[j] == Plus(v[j], w[j])
  {
    hide Plus;
  }

  lemma FirstRoundKey(key: Block)
    ensures RoundKey(key, 0) == key
  {}

  lemma KeyByte(a: bv8, b: bv8, c: bv8)
    ensures Plus(a, Plus(b, c)) == Sum3(b, a, c)
    ensures Plus(a, Plus(b, 0)) == Plus(b, a)
  {}

  lemma StepWord(x: Word, y: Word, rcon: bv8)
    ensures PlusWord(x, PlusWord(SubWord(RotWord(y)), [rcon, 0, 0, 0]))
         == [Sum3(Sbox(y[1]), x[0], rcon), Plus(Sbox(y[2]), x[1]), Plus(Sbox(y[3]), x[2]), Plus(Sbox(y[0]), x[3])]
  {
    hide Sbox, Plus, Sum3;
    KeyByte(x[0], Sbox(y[1]), rcon);
    KeyByte(x[1], Sbox(y[2]), 0);
    KeyByte(x[2], Sbox(y[3]), 0);
    KeyByte(x[3], Sbox(y[0]), 0);
  }

  lemma KeyWordAtBlock(key: Block, i: nat)
    requires i >= 1
    ensures KeyWord(key, 4 * i) == PlusWord(KeyWord(key, 4 * i - 4),
      PlusWord(SubWord(RotWord(KeyWord(key, 4 * i - 1))), [Rcon(i), 0, 0, 0]))
  {
    hide PlusWord, SubWord, RotWord, Rcon;
    assert 4 * i % 4 == 0 && 4 * i / 4 == i;
  }

  lemma WordsOfRoundKey(key: Block, r: nat)
    ensures RoundKey(key, r)[0..4] == KeyWord(key, 4 * r) && RoundKey(key, r)[12..16] == KeyWord(key, 4 * r + 3)
  {
    hide KeyWord;
  }

  lemma FirstWordIsKeyWord(key: Block, i: nat)
    requires i >= 1
    ensures KeyWord(key, 4 * i) == FirstWord(RoundKey(key, i - 1), Rcon(i))
  {
    hide Sbox, Plus, Sum3, Rcon, PlusWord, SubWord, RotWord, KeyWord, RoundKey;
    var k := RoundKey(key, i - 1);
    KeyWordAtBlock(key, i);
    WordsOfRoundKey(key, i - 1);
    StepWord(k[0..4], k[12..16], Rcon(i));
  }

  lemma OtherWord(key: Block, i: nat, j: nat)
    requires i >= 1 && 1 <= j < 4
    ensures KeyWord(key, 4 * i + j) == PlusWord(KeyWord(key, 4 * (i - 1) + j), KeyWord(key, 4 * i + j - 1))
  {
    hide PlusWord;
    assert (4 * i + j) % 4 == j;
  }

  /** The set_key loop turns each round key into the next one of the key expansion. */
  lemma NextRoundKey(key: Block, i: nat)
    requires i >= 1
    ensures RoundKey(key, i) == Expanded(RoundKey(key, i - 1), Rcon(i))
  {
    hide Sbox, Plus, Sum3, Rcon, FirstWord, KeyWord;
    FirstWordIsKeyWord(key, i);
    OtherWord(key, i, 1);
    OtherWord(key, i, 2);
    OtherWord(key, i, 3);
    var k := RoundKey(key, i - 1);
    assert k[4..8] == KeyWord(key, 4 * (i - 1) + 1);
    assert k[8..12] == KeyWord(key, 4 * (i - 1) + 2);
    assert k[12..16] == KeyWord(key, 4 * (i - 1) + 3);
  }

  lemma RconSteps(i: nat)
    requires i >= 1
    ensures Rcon(1) == 1 && Rcon(i + 1) == Mul2(Rcon(i))
  {}

  class Driver {
    const roundKeys: array2<bv8>

    predicate Valid() {
      roundKeys.Length0 == 11 && roundKeys.Length1 == BLOCK_SIZE
    }

    ghost function Row(r: nat): Block
      requires Valid() && r < 11
      reads roundKeys
    {
      seq(BLOCK_SIZE, i requires 0 <= i < BLOCK_SIZE reads roundKeys => roundKeys[r, i])
    }

    ghost function Keys(): Schedule
      requires Valid()
      reads roundKeys
    {
      seq(11, r requires 0 <= r < 11 reads roundKeys => Row(r))
    }

    constructor ()
      ensures Valid() && fresh(roundKeys)
    {
      roundKeys := new bv8[11, BLOCK_SIZE]((i, j) => 0);
    }

    method AddKey(state: array<bv8>, round: nat)
      requires Valid() && state.Length == BLOCK_SIZE && round < 11
      modifies state
      ensures state[..] == AddRoundKey(old(state[..]), Row(round))
    {
      hide Plus;
      for i := 0 to BLOCK_SIZE
        invariant forall k | 0 <= k < BLOCK_SIZE ::
            state[k] == if k < i then Plus(old(state[k]), roundKeys[round, k]) else old(state[k])
      {
        state[i] := Plus(state[i], roundKeys[round, i]);
      }
    }

    method ByteSub(state: array<bv8>)
      requires state.Length == BLOCK_SIZE
      modifies state
      ensures state[..] == SubBytes(old(state[..]))
    {
      hide Sbox;
      for i := 0 to BLOCK_SIZE
        invariant forall k | 0 <= k < BLOCK_SIZE :: state[k] == if k < i then Sbox(old(state[k])) else old(state[k])
      {
        state[i] := Sbox(state[i]);
      }
    }

    method ShiftRow(state: array<bv8>)
      requires state.Length == BLOCK_SIZE
      modifies state
      ensures state[..] == ShiftRows(old(state[..]))
    {
      ShiftRow1(state);
      ShiftRow2(state);
      ShiftRow3(state);
    }

    method ShiftRow1(state: array<bv8>)
      requires state.Length == BLOCK_SIZE
      modifies state
      ensures state[1] == old(state[5]) && state[5] == old(state[9]) && state[9] == old(state[13]) && state[13] == old(state[1])
      ensures forall k | 0 <= k < BLOCK_SIZE && k !in {1, 5, 9, 13} :: state[k] == old(state[k])
    {
      var buf1 := state[1];
      state[1] := state[5];
      state[5] := state[9];
      state[9] := state[13];
      state[13] := buf1;
    }

    method ShiftRow2(state: array<bv8>)
      requires state.Length == BLOCK_SIZE
      modifies state
      ensures state[2] == old(state[10]) && state[6] == old(state[14]) && state[10] == old(state[2]) && state[14] == old(state[6])
      ensures forall k | 0 <= k < BLOCK_SIZE && k !in {2, 6, 10, 14} :: state[k] == old(state[k])
    {
      var buf1 := state[2];
      var buf2 := state[6];
      state[2] := state[10];
      state[6] := state[14];
      state[10] := buf1;
      state[14] := buf2;
    }

    method ShiftRow3(state: array<bv8>)
      requires state.Length == BLOCK_SIZE
      modifies state
      ensures state[3] == old(state[15]) && state[7] == old(state[3]) && state[11] == old(state[7]) && state[15] == old(state[11])
      ensures forall k | 0 <= k < BLOCK_SIZE && k !in {3, 7, 11, 15} :: state[k] == old(state[k])
    {
      var buf1 := state[15];
      state[15] := state[11];
      state[11] := state[7];
      state[7] := state[3];
      state[3] := buf1;
    }

    /** One turn of the MixColumn loop. */
    method MixOne(state: array<bv8>, i: nat)
      requires state.Length == BLOCK_SIZE && i < 4
      modifies state
      ensures state[4 * i..4 * i + 4] == MixColumn(old(state[4 * i..4 * i + 4]))
      ensures forall k | 0 <= k < BLOCK_SIZE && !(4 * i <= k < 4 * i + 4) :: state[k] == old(state[k])
    {
      hide Plus, Sum3, Sum4, Mul2, Product;
      var buf4 := 4 * i;
      ghost var a := state[buf4..buf4 + 4];
      var buf1 := Sum4(state[buf4], state[buf4 + 1], state[buf4 + 2], state[buf4 + 3]);
      var buf2 := state[buf4];
      var buf3 := Plus(state[buf4], state[buf4 + 1]);
      buf3 := Mul2(buf3);
      state[buf4] := Sum3(state[buf4], buf3, buf1);
      buf3 := Plus(state[buf4 + 1], state[buf4 + 2]);
      buf3 := Mul2(buf3);
      state[buf4 + 1] := Sum3(state[buf4 + 1], buf3, buf1);
      buf3 := Plus(state[buf4 + 2], state[buf4 + 3]);
      buf3 := Mul2(buf3);
      state[buf4 + 2] := Sum3(state[buf4 + 2], buf3, buf1);
      buf3 := Plus(state[buf4 + 3], buf2);
      buf3 := Mul2(buf3);
      state[buf4 + 3] := Sum3(state[buf4 + 3], buf3, buf1);
      MixedColumn(a);
    }

    method MixColumnLoop(state: array<bv8>)
      requires state.Length == BLOCK_SIZE
      modifies state
      ensures state[..] == MixColumns(old(state[..]))
    {
      hide MixColumn;
      ghost var s := state[..];
      for i := 0 to 4
        invariant forall k | 4 * i <= k < BLOCK_SIZE :: state[k] == s[k]
        invariant i > 0 ==> state[0..4] == MixColumn(s[0..4])
        invariant i > 1 ==> state[4..8] == MixColumn(s[4..8])
        invariant i > 2 ==> state[8..12] == MixColumn(s[8..12])
        invariant i > 3 ==> state[12..16] == MixColumn(s[12..16])
      {
        assert state[4 * i..4 * i + 4] == s[4 * i..4 * i + 4];
        MixOne(state, i);
      }
      assert state[..] == state[0..4] + state[4..8] + state[8..12] + state[12..16];
    }
  
    /** encrypt. */
    method Encrypt(state: array<bv8>)
      requires Valid() && state.Length == BLOCK_SIZE
      modifies state
      ensures state[..] == Cipher(Keys(), old(state[..]))
    {
      hide AddRoundKey, SubBytes, ShiftRows, MixColumns;
      ghost var keys, s := Keys(), state[..];
      AddKey(state, 0);
      for round := 1 to 11
        invariant state[..] == Rounds(keys, s, round - 1)
      {
        ByteSub(state);
        ShiftRow(state);
        if round < 10 {
          MixColumnLoop(state);
        }
        AddKey(state, round);
      }
    }

    /** One turn of the set_key loop. */
    method Expand(i: nat, rcon: bv8)
      requires Valid() && 1 <= i < 11
      modifies roundKeys
      ensures Row(i) == Expanded(old(Row(i - 1)), rcon)
      ensures forall r | 0 <= r < 11 && r != i :: Row(r) == old(Row(r))
    {
      hide Sbox, Plus, Sum3, Chained, FirstWord;
      ghost var k, w := Row(i - 1), FirstWord(Row(i - 1), rcon);
      ExpandFirst(i, rcon);
      for j := 4 to BLOCK_SIZE
        invariant OnlyRow(i)
        invariant forall x | 0 <= x < j :: roundKeys[i, x] == ChainByte(k, w, x)
      {
        roundKeys[i, j] := Plus(roundKeys[i - 1, j], roundKeys[i, j - 4]);
      }
      forall x | 0 <= x < BLOCK_SIZE ensures Row(i)[x] == Expanded(k, rcon)[x] {
        ChainedByte(k, w, x);
      }
    }

    method ExpandFirst(i: nat, rcon: bv8)
      requires Valid() && 1 <= i < 11
      modifies roundKeys
      ensures Row(i)[..4] == FirstWord(old(Row(i - 1)), rcon) && OnlyRow(i)
    {
      hide Sbox, Plus, Sum3;
      roundKeys[i, 0] := Sum3(Sbox(roundKeys[i - 1, 13]), roundKeys[i - 1, 0], rcon);
      roundKeys[i, 1] := Plus(Sbox(roundKeys[i - 1, 14]), roundKeys[i - 1, 1]);
      roundKeys[i, 2] := Plus(Sbox(roundKeys[i - 1, 15]), roundKeys[i - 1, 2]);
      roundKeys[i, 3] := Plus(Sbox(roundKeys[i - 1, 12]), roundKeys[i - 1, 3]);
    }

    /** No row but the i-th has changed. */
    twostate predicate OnlyRow(i: nat)
      requires Valid()
      reads roundKeys
    {
      forall r, k | 0 <= r < 11 && 0 <= k < BLOCK_SIZE && r != i :: roundKeys[r, k] == old(roundKeys[r, k])
    }

    /** set_key. */
    method SetKey(key: array<bv8>)
      requires Valid() && key.Length == BLOCK_SIZE
      modifies roundKeys
      ensures forall r | 0 <= r < 11 :: Keys()[r] == RoundKey(key[..], r)
    {
      hide Rcon, RoundKey, Expanded, Mul2;
      RconSteps(1);
      var rcon: bv8 := 0x01;
      for j := 0 to BLOCK_SIZE
        invariant forall k | 0 <= k < j :: roundKeys[0, k] == key[k]
      {
        roundKeys[0, j] := key[j];
      }
      FirstRoundKey(key[..]);
      assert Row(0) == RoundKey(key[..], 0);
      for i := 1 to 11
        invariant rcon == Rcon(i) && forall k | 0 <= k < BLOCK_SIZE :: key[k] == old(key[k])
        invariant forall r | 0 <= r < i :: Row(r) == RoundKey(key[..], r)
      {
        Expand(i, rcon);
        NextRoundKey(key[..], i);
        rcon := Mul2(rcon);
        RconSteps(i);
      }
    }
  }


  // ---------------------------------------------------------------- Encryption loses nothing

  function Mul3(b: bv8): bv8 {
    (b << 1) ^ ((b >> 7) * 0x1b) ^ b
  }

  lemma Mul3IsProduct(b: bv8)
    ensures Product(3, b) == Mul3(b)
  {}

  lemma DoubleLinear(a: bv8, b: bv8)
    ensures Mul2(a ^ b) == Mul2(a) ^ Mul2(b)
  {}

  lemma Mul3IsSum(b: bv8)
    ensures Mul3(b) == Plus(Mul2(b), b)
  {}

  lemma PlusLinear(a: bv8, b: bv8, a': bv8, b': bv8)
    ensures Plus(a ^ a', b ^ b') == Plus(a, b) ^ Plus(a', b')
  {}

  lemma TripleLinear(a: bv8, b: bv8)
    ensures Mul3(a ^ b) == Mul3(a) ^ Mul3(b)
  {
    hide Mul2, Mul3, Plus;
    Mul3IsSum(a);
    Mul3IsSum(b);
    Mul3IsSum(a ^ b);
    DoubleLinear(a, b);
    PlusLinear(Mul2(a), a, Mul2(b), b);
  }

  /** A row of the matrix. */
  function MatrixRow(a: bv8, b: bv8, c: bv8, d: bv8): bv8 {
    Mul2(a) ^ Mul3(b) ^ c ^ d
  }

  lemma RowIsFlat(a: bv8, b: bv8, c: bv8, d: bv8)
    ensures Sum4(Product(2, a), Product(3, b), c, d) == MatrixRow(a, b, c, d)
  {
    hide Product, Mul2, Mul3;
    Mul2IsProduct(a);
    Mul3IsProduct(b);
  }

  lemma Sum4Linear(a: bv8, b: bv8, c: bv8, d: bv8, a': bv8, b': bv8, c': bv8, d': bv8)
    ensures Sum4(a ^ a', b ^ b', c ^ c', d ^ d') == Sum4(a, b, c, d) ^ Sum4(a', b', c', d')
  {}

  lemma RowDifference(a: bv8, b: bv8, c: bv8, d: bv8, a': bv8, b': bv8, c': bv8, d': bv8)
    requires Sum4(Product(2, a), Product(3, b), c, d) == Sum4(Product(2, a'), Product(3, b'), c', d')
    ensures MatrixRow(a ^ a', b ^ b', c ^ c', d ^ d') == 0
  {
    hide Product, Mul2, Mul3, Sum4, MatrixRow, Plus;
    Mul2IsProduct(a);
    Mul2IsProduct(a');
    Mul2IsProduct(a ^ a');
    Mul3IsProduct(b);
    Mul3IsProduct(b');
    Mul3IsProduct(b ^ b');
    DoubleLinear(a, a');
    TripleLinear(b, b');
    Sum4Linear(Mul2(a), Mul3(b), c, d, Mul2(a'), Mul3(b'), c', d');
    RowIsFlat(a ^ a', b ^ b', c ^ c', d ^ d');
  }

  /** The matrix sends no column but 0 to 0. */
  lemma NoKernel(e: bv8, f: bv8, g: bv8, h: bv8)
    requires MatrixRow(e, f, g, h) == 0 && MatrixRow(f, g, h, e) == 0
    requires MatrixRow(g, h, e, f) == 0 && MatrixRow(h, e, f, g) == 0
    ensures e == 0 && f == 0 && g == 0 && h == 0
  {}

  lemma NoDifference(a: bv8, b: bv8)
    requires a ^ b == 0
    ensures a == b
  {}

  lemma RowsInjective(a: bv8, b: bv8, c: bv8, d: bv8, a': bv8, b': bv8, c': bv8, d': bv8)
    requires Sum4(Product(2, a), Product(3, b), c, d) == Sum4(Product(2, a'), Product(3, b'), c', d')
    requires Sum4(Product(2, b), Product(3, c), d, a) == Sum4(Product(2, b'), Product(3, c'), d', a')
    requires Sum4(Product(2, c), Product(3, d), a, b) == Sum4(Product(2, c'), Product(3, d'), a', b')
    requires Sum4(Product(2, d), Product(3, a), b, c) == Sum4(Product(2, d'), Product(3, a'), b', c')
    ensures a == a' && b == b' && c == c' && d == d'
  {
    hide Product, Sum4, MatrixRow;
    RowDifference(a, b, c, d, a', b', c', d');
    RowDifference(b, c, d, a, b', c', d', a');
    RowDifference(c, d, a, b, c', d', a', b');
    RowDifference(d, a, b, c, d', a', b', c');
    NoKernel(a ^ a', b ^ b', c ^ c', d ^ d');
    NoDifference(a, a');
    NoDifference(b, b');
    NoDifference(c, c');
    NoDifference(d, d');
  }

  lemma RowsTurned(a: Word)
    ensures MixColumn(a)[0] == Sum4(Product(2, a[0]), Product(3, a[1]), a[2], a[3])
    ensures MixColumn(a)[1] == Sum4(Product(2, a[1]), Product(3, a[2]), a[3], a[0])
    ensures MixColumn(a)[2] == Sum4(Product(2, a[2]), Product(3, a[3]), a[0], a[1])
    ensures MixColumn(a)[3] == Sum4(Product(2, a[3]), Product(3, a[0]), a[1], a[2])
  {
    hide Product, Sum4;
    SumTurns(a[0], Product(2, a[1]), Product(3, a[2]), a[3]);
    SumTurns(a[0], a[1], Product(2, a[2]), Product(3, a[3]));
    SumTurns(a[1], Product(2, a[2]), Product(3, a[3]), a[0]);
    SumTurns(Product(2, a[3]), Product(3, a[0]), a[1], a[2]);
  }

  lemma MixColumnInjective(a: Word, b: Word)
    requires MixColumn(a) == MixColumn(b)
    ensures a == b
  {
    hide Product, Sum4, MixColumn, MatrixRow;
    RowsTurned(a);
    RowsTurned(b);
    RowsInjective(a[0], a[1], a[2], a[3], b[0], b[1], b[2], b[3]);
  }

  lemma MixColumnsInjective(s: Block, t: Block)
    requires MixColumns(s) == MixColumns(t)
    ensures s == t
  {
    hide MixColumn;
    var m, n := MixColumns(s), MixColumns(t);
    assert m[0..4] == MixColumn(s[0..4]) && m[4..8] == MixColumn(s[4..8]);
    assert m[8..12] == MixColumn(s[8..12]) && m[12..16] == MixColumn(s[12..16]);
    assert n[0..4] == MixColumn(t[0..4]) && n[4..8] == MixColumn(t[4..8]);
    assert n[8..12] == MixColumn(t[8..12]) && n[12..16] == MixColumn(t[12..16]);
    MixColumnInjective(s[0..4], t[0..4]);
    MixColumnInjective(s[4..8], t[4..8]);
    MixColumnInjective(s[8..12], t[8..12]);
    MixColumnInjective(s[12..16], t[12..16]);
    assert s == s[0..4] + s[4..8] + s[8..12] + s[12..16];
    assert t == t[0..4] + t[4..8] + t[8..12] + t[12..16];
  }

  lemma SubBytesInjective(s: Block, t: Block)
    requires SubBytes(s) == SubBytes(t)
    ensures s == t
  {
    hide Sbox;
    forall i | 0 <= i < BLOCK_SIZE ensures s[i] == t[i] {
      assert SubBytes(s)[i] == Sbox(s[i]) && SubBytes(t)[i] == Sbox(t[i]);
      SboxInjective(s[i], t[i]);
    }
  }

  lemma ShiftRowsInjective(s: Block, t: Block)
    requires ShiftRows(s) == ShiftRows(t)
    ensures s == t
  {
    forall i | 0 <= i < BLOCK_SIZE ensures s[i] == t[i] {
      var k := 5 * i % 16;
      assert ShiftRows(s)[13 * i % 16] == s[i] && ShiftRows(t)[13 * i % 16] == t[i];
    }
  }

  lemma AddRoundKeyInjective(s: Block, t: Block, key: Block)
    requires AddRoundKey(s, key) == AddRoundKey(t, key)
    ensures s == t
  {
    hide Plus;
    forall i | 0 <= i < BLOCK_SIZE ensures s[i] == t[i] {
      assert AddRoundKey(s, key)[i] == AddRoundKey(t, key)[i];
      PlusTwice(s[i], key[i]);
      PlusTwice(t[i], key[i]);
    }
  }

  lemma {:induction false} RoundsInjective(keys: Schedule, s: Block, t: Block, r: nat)
    requires r <= 10 && Rounds(keys, s, r) == Rounds(keys, t, r)
    ensures s == t
  {
    hide AddRoundKey, SubBytes, ShiftRows, MixColumns;
    if r == 0 {
      AddRoundKeyInjective(s, t, keys[0]);
    } else {
      var x, y := Rounds(keys, s, r - 1), Rounds(keys, t, r - 1);
      var u, v := ShiftRows(SubBytes(x)), ShiftRows(SubBytes(y));
      if r < 10 {
        AddRoundKeyInjective(MixColumns(u), MixColumns(v), keys[r]);
        MixColumnsInjective(u, v);
      } else {
        AddRoundKeyInjective(u, v, keys[r]);
      }
      ShiftRowsInjective(SubBytes(x), SubBytes(y));
      SubBytesInjective(x, y);
      RoundsInjective(keys, s, t, r - 1);
    }
  }

  /** Under every key schedule, different blocks are encrypted differently. */
  lemma CipherInjective(keys: Schedule, s: Block, t: Block)
    ensures Cipher(keys, s) == Cipher(keys, t) <==> s == t
  {
    if Cipher(keys, s) == Cipher(keys, t) {
      RoundsInjective(keys, s, t, 10);
    }
  }
}
