/** The bits of machine words, most significant first.

    Every width is read from the top of a 32-bit word, so that one set of lemmas serves
    bytes, 16-bit and 32-bit registers. */
module WordBits {
  import opened Gf2

  /** The single bit at position i, counted from the top; zero from position 32 on. */
  function BitMask(i: nat): bv32 {
    if i == 0 then 0x8000_0000 else BitMask(i - 1) >> 1
  }

  predicate Overlap(c: bv32, mask: bv32) {
    c & mask != 0
  }

  predicate BitAt(c: bv32, i: nat) {
    Overlap(c, BitMask(i))
  }

  function Top(c: bv32, n: nat): (bits: Bits)
    ensures |bits| == n
  {
    seq(n, i requires 0 <= i < n => BitAt(c, i))
  }

  function Wide8(b: bv8): bv32 {
    (b as bv32) << 24
  }

  function Wide16(c: bv16): bv32 {
    (c as bv32) << 16
  }

  function Bits8(b: bv8): (bits: Bits)
    ensures |bits| == 8
  {
    Top(Wide8(b), 8)
  }

  function Bits16(c: bv16): (bits: Bits)
    ensures |bits| == 16
  {
    Top(Wide16(c), 16)
  }

  function Bits32(c: bv32): (bits: Bits)
    ensures |bits| == 32
  {
    Top(c, 32)
  }

  function MessageBits(m: seq<bv8>): (bits: Bits)
    ensures |bits| == 8 * |m|
  {
    if m == [] then [] else Bits8(m[0]) + MessageBits(m[1..])
  }

  lemma {:induction false} MaskIsOneBit(i: nat)
    ensures BitMask(i) & (BitMask(i) - 1) == 0
  {
    if i > 0 {
      MaskIsOneBit(i - 1);
      ShiftedMask(BitMask(i - 1));
    }
  }

  lemma ShiftedMask(m: bv32)
    requires m & (m - 1) == 0
    ensures (m >> 1) & ((m >> 1) - 1) == 0
  {}

  lemma AndXor(c: bv32, d: bv32, m: bv32)
    requires m & (m - 1) == 0
    ensures ((c ^ d) & m != 0) == ((c & m != 0) != (d & m != 0))
  {}

  lemma TopXor(c: bv32, d: bv32, e: bv32, n: nat)
    requires e == c ^ d
    ensures Top(e, n) == Xor(Top(c, n), Top(d, n))
  {
    forall i | 0 <= i < n ensures Top(e, n)[i] == Xor(Top(c, n), Top(d, n))[i] {
      MaskIsOneBit(i);
      AndXor(c, d, BitMask(i));
    }
  }

  lemma BitOfShift(c: bv32, d: bv32, i: nat)
    requires d == c << 1
    ensures BitAt(d, i) == BitAt(c, i + 1)
  {
    NextMask(i);
    ShiftAnd(c, d, BitMask(i), BitMask(i + 1));
  }

  lemma NextMask(i: nat)
    ensures BitMask(i + 1) == BitMask(i) >> 1
  {}

  lemma ShiftAnd(c: bv32, d: bv32, m: bv32, m': bv32)
    requires d == c << 1 && m' == m >> 1
    ensures Overlap(d, m) == Overlap(c, m')
  {}

  lemma TopShift(c: bv32, d: bv32, n: nat)
    requires d == c << 1
    requires 0 < n && !BitAt(c, n)
    ensures Top(d, n) == Top(c, n)[1..] + [false]
  {
    var shifted := Top(c, n)[1..] + [false];
    forall i | 0 <= i < n ensures Top(d, n)[i] == shifted[i] {
      BitOfShift(c, d, i);
      assert shifted[i] == if i + 1 < n then BitAt(c, i + 1) else false;
    }
  }

  lemma EighthMask(i: nat)
    ensures BitMask(i + 8) == BitMask(i) >> 8
  {
    NextMask(i + 7);
    NextMask(i + 6);
    NextMask(i + 5);
    NextMask(i + 4);
    NextMask(i + 3);
    NextMask(i + 2);
    NextMask(i + 1);
    NextMask(i);
  }

  lemma ShiftAnd8(c: bv32, d: bv32, m: bv32, m': bv32)
    requires d == c << 8 && m' == m >> 8
    ensures Overlap(d, m) == Overlap(c, m')
  {}

  lemma LeadingMasks()
    ensures BitMask(0) == 0x8000_0000 && BitMask(1) == 0x4000_0000
    ensures BitMask(2) == 0x2000_0000 && BitMask(3) == 0x1000_0000
    ensures BitMask(4) == 0x0800_0000 && BitMask(5) == 0x0400_0000
    ensures BitMask(6) == 0x0200_0000 && BitMask(7) == 0x0100_0000
  {
    assert BitMask(3) == 0x1000_0000;
    assert BitMask(5) == 0x0400_0000;
  }

  lemma TopMask(i: nat)
    requires i < 8
    ensures BitMask(i) & 0x00ff_ffff == 0
  {
    LeadingMasks();
  }

  lemma SameTop(c: bv32, d: bv32, m: bv32)
    requires c >> 24 == d >> 24 && m & 0x00ff_ffff == 0
    ensures Overlap(c, m) == Overlap(d, m)
  {}

  /** A word is its top byte followed by the rest. */
  lemma TopSplit(c: bv32, head: bv32, rest: bv32, n: nat)
    requires head >> 24 == c >> 24 && rest == c << 8 && n >= 8
    ensures Top(c, n) == Top(head, 8) + Top(rest, n - 8)
  {
    forall i | 0 <= i < n ensures Top(c, n)[i] == (Top(head, 8) + Top(rest, n - 8))[i] {
      if i < 8 {
        TopMask(i);
        SameTop(c, head, BitMask(i));
      } else {
        EighthMask(i - 8);
        ShiftAnd8(c, rest, BitMask(i - 8), BitMask(i));
      }
    }
  }

  lemma TopZero(n: nat)
    ensures Top(0, n) == Zeros(n)
  {
    assert forall i: nat :: !Overlap(0, BitMask(i));
  }

  lemma Bits16OfByte(b: bv8)
    ensures Bits16((b as bv16) << 8) == Bits8(b) + Zeros(8)
  {
    assert Wide16((b as bv16) << 8) == Wide8(b);
    TopSplit(Wide8(b), Wide8(b), 0, 16);
    TopZero(8);
  }

  lemma Bits16OfBytes(c: bv16)
    ensures Bits16(c) == Bits8((c >> 8) as bv8) + Bits8((c & 0xff) as bv8)
  {
    TopSplit(Wide16(c), Wide8((c >> 8) as bv8), Wide8((c & 0xff) as bv8), 16);
  }

  lemma Bits8Xor(c: bv8, d: bv8, e: bv8)
    requires e == c ^ d
    ensures Bits8(e) == Xor(Bits8(c), Bits8(d))
  {
    assert Wide8(e) == Wide8(c) ^ Wide8(d);
    TopXor(Wide8(c), Wide8(d), Wide8(e), 8);
  }

  lemma Bits16Xor(c: bv16, d: bv16, e: bv16)
    requires e == c ^ d
    ensures Bits16(e) == Xor(Bits16(c), Bits16(d))
  {
    Wide16Xor(c, d, e);
    TopXor(Wide16(c), Wide16(d), Wide16(e), 16);
  }

  lemma Wide16Xor(c: bv16, d: bv16, e: bv16)
    requires e == c ^ d
    ensures Wide16(e) == Wide16(c) ^ Wide16(d)
  {}

  lemma Bits16Double(c: bv16)
    ensures Bits16(c << 1) == Bits16(c)[1..] + [false]
  {
    Wide16Double(c);
    ClearBelow16(c, 16);
    TopShift(Wide16(c), Wide16(c << 1), 16);
  }

  lemma Wide16Double(c: bv16)
    ensures Wide16(c << 1) == Wide16(c) << 1
  {
    WidenDouble(c);
  }

  lemma WidenDouble(c: bv16)
    ensures ((c << 1) as bv32) << 16 == ((c as bv32) << 16) << 1
  {}

  lemma ClearBelow16(c: bv16, n: nat)
    requires n == 16
    ensures !BitAt(Wide16(c), n)
  {
    EighthMask(0);
    EighthMask(8);
    NoOverlap(c, BitMask(16));
  }

  lemma NoOverlap(c: bv16, m: bv32)
    requires m == 0x0000_8000
    ensures !Overlap(Wide16(c), m)
  {}

  lemma Bits32OfByte(b: bv8)
    ensures Bits32(Wide8(b)) == Bits8(b) + Zeros(24)
  {
    TopSplit(Wide8(b), Wide8(b), 0, 32);
    TopZero(24);
  }

  function TopByte(c: bv32): bv8 {
    (c >> 24) as bv8
  }

  lemma ByteThenRest(c: bv32, rest: bv32, n: nat)
    requires rest == c << 8 && n >= 8
    ensures Top(c, n) == Bits8(TopByte(c)) + Top(rest, n - 8)
  {
    TopSplit(c, Wide8(TopByte(c)), rest, n);
  }

  lemma Bits32OfBytes(c: bv32, c1: bv32, c2: bv32, c3: bv32)
    requires c1 == c << 8 && c2 == c1 << 8 && c3 == c2 << 8
    ensures Bits32(c) == Bits8(TopByte(c)) + (Bits8(TopByte(c1)) + (Bits8(TopByte(c2)) + Bits8(TopByte(c3))))
  {
    ByteThenRest(c, c1, 32);
    ByteThenRest(c1, c2, 24);
    ByteThenRest(c2, c3, 16);
    ByteThenRest(c3, c3 << 8, 8);
    assert Top(c3 << 8, 0) == [];
  }

  lemma {:induction false} MaskVanishes(i: nat)
    ensures i >= 32 ==> BitMask(i) == 0
  {
    if i == 32 {
      EighthMask(24);
      EighthMask(16);
      EighthMask(8);
      EighthMask(0);
    } else if i > 32 {
      MaskVanishes(i - 1);
    }
  }

  /** Shifting out a byte: what is left keeps its order and zeros come in below. */
  lemma Bits32Shift8(c: bv32, head: bv32, d: bv32)
    requires head >> 24 == c >> 24 && d == c << 8
    ensures Bits32(c) == Top(head, 8) + Top(d, 24) && Bits32(d) == Top(d, 24) + Zeros(8)
  {
    TopSplit(c, head, d, 32);
    forall i | 0 <= i < 32 ensures Bits32(d)[i] == (Top(d, 24) + Zeros(8))[i] {
      if i >= 24 {
        EighthMask(i);
        ShiftAnd8(c, d, BitMask(i), BitMask(i + 8));
        MaskVanishes(i + 8);
      }
    }
  }

  lemma Bits32ShiftByte(c: bv32)
    ensures Bits32(c) == Bits8(TopByte(c)) + Top(c << 8, 24)
    ensures Bits32(c << 8) == Top(c << 8, 24) + Zeros(8)
  {
    Bits32Shift8(c, Wide8(TopByte(c)), c << 8);
  }

  lemma SameTopByte(c: bv32, d: bv32)
    requires Top(c, 8) == Top(d, 8)
    ensures c >> 24 == d >> 24
  {
    forall i | 0 <= i < 8 ensures BitAt(c, i) == BitAt(d, i) {
      assert Top(c, 8)[i] == Top(d, 8)[i];
    }
    LeadingMasks();
    assert BitAt(c, 0) == BitAt(d, 0) && BitAt(c, 1) == BitAt(d, 1);
    assert BitAt(c, 2) == BitAt(d, 2) && BitAt(c, 3) == BitAt(d, 3);
    assert BitAt(c, 4) == BitAt(d, 4) && BitAt(c, 5) == BitAt(d, 5);
    assert BitAt(c, 6) == BitAt(d, 6) && BitAt(c, 7) == BitAt(d, 7);
    EightBits(c, d);
  }

  lemma EightBits(c: bv32, d: bv32)
    requires Overlap(c, 0x8000_0000) == Overlap(d, 0x8000_0000)
    requires Overlap(c, 0x4000_0000) == Overlap(d, 0x4000_0000)
    requires Overlap(c, 0x2000_0000) == Overlap(d, 0x2000_0000)
    requires Overlap(c, 0x1000_0000) == Overlap(d, 0x1000_0000)
    requires Overlap(c, 0x0800_0000) == Overlap(d, 0x0800_0000)
    requires Overlap(c, 0x0400_0000) == Overlap(d, 0x0400_0000)
    requires Overlap(c, 0x0200_0000) == Overlap(d, 0x0200_0000)
    requires Overlap(c, 0x0100_0000) == Overlap(d, 0x0100_0000)
    ensures c >> 24 == d >> 24
  {}

  lemma Bits8Injective(c: bv8, d: bv8)
    requires Bits8(c) == Bits8(d)
    ensures c == d
  {
    SameTopByte(Wide8(c), Wide8(d));
  }

  lemma Bits16Injective(c: bv16, d: bv16)
    requires Bits16(c) == Bits16(d)
    ensures c == d
  {
    Bits16OfBytes(c);
    Bits16OfBytes(d);
    assert Bits16(c)[..8] == Bits8((c >> 8) as bv8) && Bits16(c)[8..] == Bits8((c & 0xff) as bv8);
    assert Bits16(d)[..8] == Bits8((d >> 8) as bv8) && Bits16(d)[8..] == Bits8((d & 0xff) as bv8);
    Bits8Injective((c >> 8) as bv8, (d >> 8) as bv8);
    Bits8Injective((c & 0xff) as bv8, (d & 0xff) as bv8);
  }

  lemma Bits32Injective(c: bv32, d: bv32)
    requires Bits32(c) == Bits32(d)
    ensures c == d
  {
    Bits32Shift8(c, c, c << 8);
    Bits32Shift8(d, d, d << 8);
    assert Top(c, 8) == Bits32(c)[..8] && Top(d, 8) == Bits32(d)[..8];
    SameTopByte(c, d);
    LowBytesAgree(c << 8, d << 8);
  }

  lemma LowBytesAgree(c: bv32, d: bv32)
    requires Top(c, 24) == Top(d, 24)
    ensures c >> 8 == d >> 8
  {
    TopSplit(c, c, c << 8, 24);
    TopSplit(d, d, d << 8, 24);
    assert Top(c, 8) == Top(c, 24)[..8] && Top(d, 8) == Top(d, 24)[..8];
    SameTopByte(c, d);
    var c', d' := c << 8, d << 8;
    assert Top(c', 16) == Top(c, 24)[8..] && Top(d', 16) == Top(d, 24)[8..];
    TopSplit(c', c', c' << 8, 16);
    TopSplit(d', d', d' << 8, 16);
    assert Top(c', 8) == Top(c', 16)[..8] && Top(d', 8) == Top(d', 16)[..8];
    SameTopByte(c', d');
    assert Top(c' << 8, 8) == Top(c', 16)[8..] && Top(d' << 8, 8) == Top(d', 16)[8..];
    SameTopByte(c' << 8, d' << 8);
  }

  lemma TopBit32(c: bv32)
    ensures Bits32(c)[0] == (c & 0x8000_0000 != 0)
  {}

  lemma Bits32Double(c: bv32)
    ensures Bits32(c << 1) == Bits32(c)[1..] + [false]
  {
    MaskVanishes(32);
    TopShift(c, c << 1, 32);
  }

  lemma Bits32Xor(c: bv32, d: bv32, e: bv32)
    requires e == c ^ d
    ensures Bits32(e) == Xor(Bits32(c), Bits32(d))
  {
    TopXor(c, d, e, 32);
  }

  lemma {:induction false} MessageBitsConcat(a: seq<bv8>, b: seq<bv8>)
    ensures MessageBits(a + b) == MessageBits(a) + MessageBits(b)
  {
    if a == [] {
      assert a + b == b;
    } else {
      assert (a + b)[1..] == a[1..] + b;
      MessageBitsConcat(a[1..], b);
    }
  }

  lemma {:induction false} MessageBitsInjective(a: seq<bv8>, b: seq<bv8>)
    requires |a| == |b| && MessageBits(a) == MessageBits(b)
    ensures a == b
  {
    if a != [] {
      assert Bits8(a[0]) == MessageBits(a)[..8] && Bits8(b[0]) == MessageBits(b)[..8];
      assert MessageBits(a[1..]) == MessageBits(a)[8..] && MessageBits(b[1..]) == MessageBits(b)[8..];
      Bits8Injective(a[0], b[0]);
      MessageBitsInjective(a[1..], b[1..]);
    }
  }

  // Numbers that fit a byte or a 16-bit word survive the trip through it.

  lemma NextByte(b: bv8)
    requires b as int < 0xff
    ensures b < 0xff && (b + 1) as int == b as int + 1
  {}

  /** The byte holding the number n. */
  function Byte(n: nat): (b: bv8)
    requires n < 0x100
  {
    if n == 0 then 0 else Byte(n - 1) + 1
  }

  lemma {:induction false} ByteHolds(n: nat)
    requires n < 0x100
    ensures Byte(n) as int == n
  {
    if n > 0 {
      ByteHolds(n - 1);
      NextByte(Byte(n - 1));
    }
  }

  lemma JoinedValue(high: bv8, low: bv8)
    ensures (((high as bv16) << 8) | (low as bv16)) as int == 256 * (high as int) + low as int
  {}

  function JoinedWord(high: bv8, low: bv8): (w: bv16)
    ensures w as int == 256 * (high as int) + low as int
  {
    JoinedValue(high, low);
    ((high as bv16) << 8) | (low as bv16)
  }

  lemma WordOfInt(x: bv16)
    ensures (x as int) as bv16 == x
  {}

  lemma SameNumberSameWord(n: nat, w: bv16)
    requires n < 0x1_0000 && n == w as int
    ensures n as bv16 == w
  {
    WordOfInt(w);
    SameWord(n, w as int, w);
  }

  lemma SameWord(n: nat, m: nat, w: bv16)
    requires n < 0x1_0000 && n == m && w == m as bv16
    ensures n as bv16 == w
  {}

  lemma WordOfNat(n: nat)
    requires n < 0x1_0000
    ensures (n as bv16) as int == n
  {
    ByteHolds(n / 256);
    ByteHolds(n % 256);
    SameNumberSameWord(n, JoinedWord(Byte(n / 256), Byte(n % 256)));
  }

  // Bytes as elements of a field of characteristic 2.

  const BLOCK_SIZE: nat := 16

  type Block = b: seq<bv8> | |b| == BLOCK_SIZE witness [0, 0, 0, 0, 0, 0, 0, 0, 0, 0, 0, 0, 0, 0, 0, 0]

  /** Addition of bytes, bit by bit. */
  function Plus(a: bv8, b: bv8): bv8 { a ^ b }

  lemma PlusZero(a: bv8)
    ensures Plus(a, 0) == Plus(0, a) == a
  {}

  lemma PlusTwice(a: bv8, b: bv8)
    ensures Plus(Plus(a, b), b) == a
  {}
}
