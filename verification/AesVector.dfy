/** The example of FIPS 197, appendix B: the key expansion and the cipher, round by round. */
module AesVector {
  import opened WordBits
  import opened Aes

  /** The key, and the round keys w[4 * r], ..., w[4 * r + 3]. */
  const KEY_0: Block :=
    [0x2b, 0x7e, 0x15, 0x16, 0x28, 0xae, 0xd2, 0xa6, 0xab, 0xf7, 0x15, 0x88, 0x09, 0xcf, 0x4f, 0x3c]
  const KEY_1: Block :=
    [0xa0, 0xfa, 0xfe, 0x17, 0x88, 0x54, 0x2c, 0xb1, 0x23, 0xa3, 0x39, 0x39, 0x2a, 0x6c, 0x76, 0x05]
  const KEY_2: Block :=
    [0xf2, 0xc2, 0x95, 0xf2, 0x7a, 0x96, 0xb9, 0x43, 0x59, 0x35, 0x80, 0x7a, 0x73, 0x59, 0xf6, 0x7f]
  const KEY_3: Block :=
    [0x3d, 0x80, 0x47, 0x7d, 0x47, 0x16, 0xfe, 0x3e, 0x1e, 0x23, 0x7e, 0x44, 0x6d, 0x7a, 0x88, 0x3b]
  const KEY_4: Block :=
    [0xef, 0x44, 0xa5, 0x41, 0xa8, 0x52, 0x5b, 0x7f, 0xb6, 0x71, 0x25, 0x3b, 0xdb, 0x0b, 0xad, 0x00]
  const KEY_5: Block :=
    [0xd4, 0xd1, 0xc6, 0xf8, 0x7c, 0x83, 0x9d, 0x87, 0xca, 0xf2, 0xb8, 0xbc, 0x11, 0xf9, 0x15, 0xbc]
  const KEY_6: Block :=
    [0x6d, 0x88, 0xa3, 0x7a, 0x11, 0x0b, 0x3e, 0xfd, 0xdb, 0xf9, 0x86, 0x41, 0xca, 0x00, 0x93, 0xfd]
  const KEY_7: Block :=
    [0x4e, 0x54, 0xf7, 0x0e, 0x5f, 0x5f, 0xc9, 0xf3, 0x84, 0xa6, 0x4f, 0xb2, 0x4e, 0xa6, 0xdc, 0x4f]
  const KEY_8: Block :=
    [0xea, 0xd2, 0x73, 0x21, 0xb5, 0x8d, 0xba, 0xd2, 0x31, 0x2b, 0xf5, 0x60, 0x7f, 0x8d, 0x29, 0x2f]
  const KEY_9: Block :=
    [0xac, 0x77, 0x66, 0xf3, 0x19, 0xfa, 0xdc, 0x21, 0x28, 0xd1, 0x29, 0x41, 0x57, 0x5c, 0x00, 0x6e]
  const KEY_10: Block :=
    [0xd0, 0x14, 0xf9, 0xa8, 0xc9, 0xee, 0x25, 0x89, 0xe1, 0x3f, 0x0c, 0xc8, 0xb6, 0x63, 0x0c, 0xa6]

  const PLAIN: Block :=
    [0x32, 0x43, 0xf6, 0xa8, 0x88, 0x5a, 0x30, 0x8d, 0x31, 0x31, 0x98, 0xa2, 0xe0, 0x37, 0x07, 0x34]

  /** The states at the start of round r + 1, and in that round after SubBytes. */
  const STATE_0: Block :=
    [0x19, 0x3d, 0xe3, 0xbe, 0xa0, 0xf4, 0xe2, 0x2b, 0x9a, 0xc6, 0x8d, 0x2a, 0xe9, 0xf8, 0x48, 0x08]
  const SUB_0: Block :=
    [0xd4, 0x27, 0x11, 0xae, 0xe0, 0xbf, 0x98, 0xf1, 0xb8, 0xb4, 0x5d, 0xe5, 0x1e, 0x41, 0x52, 0x30]
  const STATE_1: Block :=
    [0xa4, 0x9c, 0x7f, 0xf2, 0x68, 0x9f, 0x35, 0x2b, 0x6b, 0x5b, 0xea, 0x43, 0x02, 0x6a, 0x50, 0x49]
  const SUB_1: Block :=
    [0x49, 0xde, 0xd2, 0x89, 0x45, 0xdb, 0x96, 0xf1, 0x7f, 0x39, 0x87, 0x1a, 0x77, 0x02, 0x53, 0x3b]
  const STATE_2: Block :=
    [0xaa, 0x8f, 0x5f, 0x03, 0x61, 0xdd, 0xe3, 0xef, 0x82, 0xd2, 0x4a, 0xd2, 0x68, 0x32, 0x46, 0x9a]
  const SUB_2: Block :=
    [0xac, 0x73, 0xcf, 0x7b, 0xef, 0xc1, 0x11, 0xdf, 0x13, 0xb5, 0xd6, 0xb5, 0x45, 0x23, 0x5a, 0xb8]
  const STATE_3: Block :=
    [0x48, 0x6c, 0x4e, 0xee, 0x67, 0x1d, 0x9d, 0x0d, 0x4d, 0xe3, 0xb1, 0x38, 0xd6, 0x5f, 0x58, 0xe7]
  const SUB_3: Block :=
    [0x52, 0x50, 0x2f, 0x28, 0x85, 0xa4, 0x5e, 0xd7, 0xe3, 0x11, 0xc8, 0x07, 0xf6, 0xcf, 0x6a, 0x94]
  const STATE_4: Block :=
    [0xe0, 0x92, 0x7f, 0xe8, 0xc8, 0x63, 0x63, 0xc0, 0xd9, 0xb1, 0x35, 0x50, 0x85, 0xb8, 0xbe, 0x01]
  const SUB_4: Block :=
    [0xe1, 0x4f, 0xd2, 0x9b, 0xe8, 0xfb, 0xfb, 0xba, 0x35, 0xc8, 0x96, 0x53, 0x97, 0x6c, 0xae, 0x7c]
  const STATE_5: Block :=
    [0xf1, 0x00, 0x6f, 0x55, 0xc1, 0x92, 0x4c, 0xef, 0x7c, 0xc8, 0x8b, 0x32, 0x5d, 0xb5, 0xd5, 0x0c]
  const SUB_5: Block :=
    [0xa1, 0x63, 0xa8, 0xfc, 0x78, 0x4f, 0x29, 0xdf, 0x10, 0xe8, 0x3d, 0x23, 0x4c, 0xd5, 0x03, 0xfe]
  const STATE_6: Block :=
    [0x26, 0x0e, 0x2e, 0x17, 0x3d, 0x41, 0xb7, 0x7d, 0xe8, 0x64, 0x72, 0xa9, 0xfd, 0xd2, 0x8b, 0x25]
  const SUB_6: Block :=
    [0xf7, 0xab, 0x31, 0xf0, 0x27, 0x83, 0xa9, 0xff, 0x9b, 0x43, 0x40, 0xd3, 0x54, 0xb5, 0x3d, 0x3f]
  const STATE_7: Block :=
    [0x5a, 0x41, 0x42, 0xb1, 0x19, 0x49, 0xdc, 0x1f, 0xa3, 0xe0, 0x19, 0x65, 0x7a, 0x8c, 0x04, 0x0c]
  const SUB_7: Block :=
    [0xbe, 0x83, 0x2c, 0xc8, 0xd4, 0x3b, 0x86, 0xc0, 0x0a, 0xe1, 0xd4, 0x4d, 0xda, 0x64, 0xf2, 0xfe]
  const STATE_8: Block :=
    [0xea, 0x83, 0x5c, 0xf0, 0x04, 0x45, 0x33, 0x2d, 0x65, 0x5d, 0x98, 0xad, 0x85, 0x96, 0xb0, 0xc5]
  const SUB_8: Block :=
    [0x87, 0xec, 0x4a, 0x8c, 0xf2, 0x6e, 0xc3, 0xd8, 0x4d, 0x4c, 0x46, 0x95, 0x97, 0x90, 0xe7, 0xa6]
  const STATE_9: Block :=
    [0xeb, 0x40, 0xf2, 0x1e, 0x59, 0x2e, 0x38, 0x84, 0x8b, 0xa1, 0x13, 0xe7, 0x1b, 0xc3, 0x42, 0xd2]
  const SUB_9: Block :=
    [0xe9, 0x09, 0x89, 0x72, 0xcb, 0x31, 0x07, 0x5f, 0x3d, 0x32, 0x7d, 0x94, 0xaf, 0x2e, 0x2c, 0xb5]

  const CIPHERTEXT: Block :=
    [0x39, 0x25, 0x84, 0x1d, 0x02, 0xdc, 0x09, 0xfb, 0xdc, 0x11, 0x85, 0x97, 0x19, 0x6a, 0x0b, 0x32]

  predicate FirstHalf(s: Block, t: Block) {
    && Sbox(s[0]) == t[0] && Sbox(s[1]) == t[1] && Sbox(s[2]) == t[2] && Sbox(s[3]) == t[3]
    && Sbox(s[4]) == t[4] && Sbox(s[5]) == t[5] && Sbox(s[6]) == t[6] && Sbox(s[7]) == t[7]
  }

  predicate LastHalf(s: Block, t: Block) {
    && Sbox(s[8]) == t[8] && Sbox(s[9]) == t[9] && Sbox(s[10]) == t[10] && Sbox(s[11]) == t[11]
    && Sbox(s[12]) == t[12] && Sbox(s[13]) == t[13] && Sbox(s[14]) == t[14] && Sbox(s[15]) == t[15]
  }

  predicate SubsTo(s: Block, t: Block) {
    FirstHalf(s, t) && LastHalf(s, t)
  }

  predicate AddsTo(s: Block, key: Block, t: Block) {
    && Plus(s[0], key[0]) == t[0] && Plus(s[1], key[1]) == t[1] && Plus(s[2], key[2]) == t[2]
    && Plus(s[3], key[3]) == t[3] && Plus(s[4], key[4]) == t[4] && Plus(s[5], key[5]) == t[5]
    && Plus(s[6], key[6]) == t[6] && Plus(s[7], key[7]) == t[7] && Plus(s[8], key[8]) == t[8]
    && Plus(s[9], key[9]) == t[9] && Plus(s[10], key[10]) == t[10] && Plus(s[11], key[11]) == t[11]
    && Plus(s[12], key[12]) == t[12] && Plus(s[13], key[13]) == t[13] && Plus(s[14], key[14]) == t[14]
    && Plus(s[15], key[15]) == t[15]
  }

  lemma AddsToIs(s: Block, key: Block, t: Block)
    requires AddsTo(s, key, t)
    ensures AddRoundKey(s, key) == t
  {
    hide Plus;
  }

  lemma SubsToIs(s: Block, t: Block)
    requires SubsTo(s, t)
    ensures SubBytes(s) == t
  {
    hide Sbox;
  }

  lemma First0() ensures FirstHalf(STATE_0, SUB_0) {}
  lemma Last0() ensures LastHalf(STATE_0, SUB_0) {}
  lemma First1() ensures FirstHalf(STATE_1, SUB_1) {}
  lemma Last1() ensures LastHalf(STATE_1, SUB_1) {}
  lemma First2() ensures FirstHalf(STATE_2, SUB_2) {}
  lemma Last2() ensures LastHalf(STATE_2, SUB_2) {}
  lemma First3() ensures FirstHalf(STATE_3, SUB_3) {}
  lemma Last3() ensures LastHalf(STATE_3, SUB_3) {}
  lemma First4() ensures FirstHalf(STATE_4, SUB_4) {}
  lemma Last4() ensures LastHalf(STATE_4, SUB_4) {}
  lemma First5() ensures FirstHalf(STATE_5, SUB_5) {}
  lemma Last5() ensures LastHalf(STATE_5, SUB_5) {}
  lemma First6() ensures FirstHalf(STATE_6, SUB_6) {}
  lemma Last6() ensures LastHalf(STATE_6, SUB_6) {}
  lemma First7() ensures FirstHalf(STATE_7, SUB_7) {}
  lemma Last7() ensures LastHalf(STATE_7, SUB_7) {}
  lemma First8() ensures FirstHalf(STATE_8, SUB_8) {}
  lemma Last8() ensures LastHalf(STATE_8, SUB_8) {}
  lemma First9() ensures FirstHalf(STATE_9, SUB_9) {}
  lemma Last9() ensures LastHalf(STATE_9, SUB_9) {}

  lemma Key1() ensures Expanded(KEY_0, 0x01) == KEY_1 {}
  lemma Key2() ensures Expanded(KEY_1, 0x02) == KEY_2 {}
  lemma Key3() ensures Expanded(KEY_2, 0x04) == KEY_3 {}
  lemma Key4() ensures Expanded(KEY_3, 0x08) == KEY_4 {}
  lemma Key5() ensures Expanded(KEY_4, 0x10) == KEY_5 {}
  lemma Key6() ensures Expanded(KEY_5, 0x20) == KEY_6 {}
  lemma Key7() ensures Expanded(KEY_6, 0x40) == KEY_7 {}
  lemma Key8() ensures Expanded(KEY_7, 0x80) == KEY_8 {}
  lemma Key9() ensures Expanded(KEY_8, 0x1b) == KEY_9 {}
  lemma Key10() ensures Expanded(KEY_9, 0x36) == KEY_10 {}

  lemma Rcons()
    ensures Rcon(1) == 0x01 && Rcon(2) == 0x02 && Rcon(3) == 0x04 && Rcon(4) == 0x08 && Rcon(5) == 0x10
    ensures Rcon(6) == 0x20 && Rcon(7) == 0x40 && Rcon(8) == 0x80 && Rcon(9) == 0x1b && Rcon(10) == 0x36
  {
    assert Rcon(4) == 0x08 && Rcon(8) == 0x80;
  }

  lemma Round0() ensures AddsTo(PLAIN, KEY_0, STATE_0) {}
  lemma Round1() ensures AddsTo(MixColumns(ShiftRows(SUB_0)), KEY_1, STATE_1) {}
  lemma Round2() ensures AddsTo(MixColumns(ShiftRows(SUB_1)), KEY_2, STATE_2) {}
  lemma Round3() ensures AddsTo(MixColumns(ShiftRows(SUB_2)), KEY_3, STATE_3) {}
  lemma Round4() ensures AddsTo(MixColumns(ShiftRows(SUB_3)), KEY_4, STATE_4) {}
  lemma Round5() ensures AddsTo(MixColumns(ShiftRows(SUB_4)), KEY_5, STATE_5) {}
  lemma Round6() ensures AddsTo(MixColumns(ShiftRows(SUB_5)), KEY_6, STATE_6) {}
  lemma Round7() ensures AddsTo(MixColumns(ShiftRows(SUB_6)), KEY_7, STATE_7) {}
  lemma Round8() ensures AddsTo(MixColumns(ShiftRows(SUB_7)), KEY_8, STATE_8) {}
  lemma Round9() ensures AddsTo(MixColumns(ShiftRows(SUB_8)), KEY_9, STATE_9) {}
  lemma Round10() ensures AddsTo(ShiftRows(SUB_9), KEY_10, CIPHERTEXT) {}

  ghost predicate ScheduleOf(keys: Schedule, key: Block) {
    forall r | 0 <= r < 11 :: keys[r] == RoundKey(key, r)
  }

  /** The key expansion gives the round keys of the example. */
  lemma ExpansionOfExample()
    ensures RoundKey(KEY_0, 0) == KEY_0
    ensures RoundKey(KEY_0, 1) == KEY_1 && RoundKey(KEY_0, 2) == KEY_2
    ensures RoundKey(KEY_0, 3) == KEY_3 && RoundKey(KEY_0, 4) == KEY_4
    ensures RoundKey(KEY_0, 5) == KEY_5 && RoundKey(KEY_0, 6) == KEY_6
    ensures RoundKey(KEY_0, 7) == KEY_7 && RoundKey(KEY_0, 8) == KEY_8
    ensures RoundKey(KEY_0, 9) == KEY_9 && RoundKey(KEY_0, 10) == KEY_10
  {
    hide RoundKey, Expanded, Rcon;
    Rcons();
    FirstRoundKey(KEY_0);
    NextRoundKey(KEY_0, 1);
    Key1();
    NextRoundKey(KEY_0, 2);
    Key2();
    NextRoundKey(KEY_0, 3);
    Key3();
    NextRoundKey(KEY_0, 4);
    Key4();
    NextRoundKey(KEY_0, 5);
    Key5();
    NextRoundKey(KEY_0, 6);
    Key6();
    NextRoundKey(KEY_0, 7);
    Key7();
    NextRoundKey(KEY_0, 8);
    Key8();
    NextRoundKey(KEY_0, 9);
    Key9();
    NextRoundKey(KEY_0, 10);
    Key10();
  }

  lemma NextState(keys: Schedule, s: Block, r: nat, state: Block, sub: Block, next: Block)
    requires r < 10 && Rounds(keys, s, r) == state && SubsTo(state, sub)
    requires AddsTo(if r + 1 < 10 then MixColumns(ShiftRows(sub)) else ShiftRows(sub), keys[r + 1], next)
    ensures Rounds(keys, s, r + 1) == next
  {
    hide SubsTo, AddsTo, SubBytes, ShiftRows, MixColumns, AddRoundKey;
    SubsToIs(state, sub);
    AddsToIs(if r + 1 < 10 then MixColumns(ShiftRows(sub)) else ShiftRows(sub), keys[r + 1], next);
  }

  /** The schedule and the cipher together, on the example. */
  lemma CipherOfExample(keys: Schedule)
    requires ScheduleOf(keys, KEY_0)
    ensures Cipher(keys, PLAIN) == CIPHERTEXT
  {
    hide FirstHalf, LastHalf, AddsTo, SubBytes, ShiftRows, MixColumns, AddRoundKey, RoundKey, Rounds;
    ExpansionOfExample();
    Round0();
    AddsToIs(PLAIN, KEY_0, STATE_0);
    FirstState(keys, PLAIN);
    First0();
    Last0();
    Round1();
    NextState(keys, PLAIN, 0, STATE_0, SUB_0, STATE_1);
    First1();
    Last1();
    Round2();
    NextState(keys, PLAIN, 1, STATE_1, SUB_1, STATE_2);
    First2();
    Last2();
    Round3();
    NextState(keys, PLAIN, 2, STATE_2, SUB_2, STATE_3);
    First3();
    Last3();
    Round4();
    NextState(keys, PLAIN, 3, STATE_3, SUB_3, STATE_4);
    First4();
    Last4();
    Round5();
    NextState(keys, PLAIN, 4, STATE_4, SUB_4, STATE_5);
    First5();
    Last5();
    Round6();
    NextState(keys, PLAIN, 5, STATE_5, SUB_5, STATE_6);
    First6();
    Last6();
    Round7();
    NextState(keys, PLAIN, 6, STATE_6, SUB_6, STATE_7);
    First7();
    Last7();
    Round8();
    NextState(keys, PLAIN, 7, STATE_7, SUB_7, STATE_8);
    First8();
    Last8();
    Round9();
    NextState(keys, PLAIN, 8, STATE_8, SUB_8, STATE_9);
    First9();
    Last9();
    Round10();
    NextState(keys, PLAIN, 9, STATE_9, SUB_9, CIPHERTEXT);
  }

  lemma FirstState(keys: Schedule, s: Block)
    ensures Rounds(keys, s, 0) == AddRoundKey(s, keys[0])
  {}
}
