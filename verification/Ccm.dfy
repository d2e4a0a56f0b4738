/** utils/src/ccm-star.c: CCM*, after RFC 3610, over a block cipher whose key is set. */
module Ccm {
  import opened Common
  import opened WordBits

  const NONCE_LENGTH: nat := 13
  const ENCRYPTION_FLAGS: bv8 := 1

  type Nonce = b: seq<bv8> | |b| == NONCE_LENGTH witness [0, 0, 0, 0, 0, 0, 0, 0, 0, 0, 0, 0, 0]
  type Cipher = Block -> Block

  // ---------------------------------------------------------------- RFC 3610

  function Padded(chunk: seq<bv8>): (r: Block)
    requires |chunk| <= BLOCK_SIZE
  {
    chunk + seq(BLOCK_SIZE - |chunk|, _ => 0)
  }

  /** s cut into blocks, the last one filled up with zeros. */
  function Blocks(s: seq<bv8>): seq<Block>
    decreases |s|
  {
    if s == [] then []
    else if |s| <= BLOCK_SIZE then [Padded(s)]
    else [s[..BLOCK_SIZE]] + Blocks(s[BLOCK_SIZE..])
  }

  function Added(x: Block, y: Block): Block {
    seq(BLOCK_SIZE, i requires 0 <= i < BLOCK_SIZE => Plus(x[i], y[i]))
  }

  /** CBC-MAC, from the state x on. */
  function CbcMac(cipher: Cipher, x: Block, blocks: seq<Block>): Block
    decreases |blocks|
  {
    if blocks == [] then x else CbcMac(cipher, cipher(Added(x, blocks[0])), blocks[1..])
  }

  const ZERO: Block := Padded([])

  /** The flags of B_0 as CCM_STAR_AUTH_FLAGS computes them, cut to a byte: for a length of 0
      or 1 the unsigned subtraction wraps. */
  function AuthFlags(adata: bool, micLen: nat): bv8
    requires micLen <= 16
  {
    (if adata then 0x40 else 0) | (if micLen < 2 then 0xF8 else Byte((micLen - 2) / 2) << 3) | 1
  }

  /** A block with the nonce in it: B_0, and the counter blocks A_i. */
  function NonceBlock(flags: bv8, nonce: Nonce, counter: bv8): Block {
    [flags] + nonce + [0, counter]
  }

  /** l(a) in two bytes, then a; nothing at all when a is empty. */
  function WithLength(a: seq<bv8>): (r: seq<bv8>)
    requires |a| < 0x100
  {
    if a == [] then [] else [0, Byte(|a|)] + a
  }

  /** The blocks B_0, B_1, ... of section 2.2. */
  function AuthBlocks(nonce: Nonce, m: seq<bv8>, a: seq<bv8>, micLen: nat): seq<Block>
    requires |m| < 0x100 && |a| < 0x100 && micLen <= 16
  {
    [NonceBlock(AuthFlags(a != [], micLen), nonce, Byte(|m|))] + Blocks(WithLength(a)) + Blocks(m)
  }

  /** S_i of section 2.3. */
  function KeyStream(cipher: Cipher, nonce: Nonce, counter: nat): Block
    requires counter < 0x100
  {
    cipher(NonceBlock(ENCRYPTION_FLAGS, nonce, Byte(counter)))
  }

  /** The first bytes of the CBC-MAC, encrypted with S_0. */
  function Mic(cipher: Cipher, nonce: Nonce, m: seq<bv8>, a: seq<bv8>, micLen: nat): (r: seq<bv8>)
    requires |m| < 0x100 && |a| < 0x100 && micLen <= 16
    ensures |r| == micLen
  {
    Added(CbcMac(cipher, ZERO, AuthBlocks(nonce, m, a, micLen)), KeyStream(cipher, nonce, 0))[..micLen]
  }

  /** Section 2.3: byte i is xored with its own byte of the key stream S_1, S_2, ... */
  function Ctr(cipher: Cipher, nonce: Nonce, m: seq<bv8>): (r: seq<bv8>)
    requires |m| <= 240
    ensures |r| == |m|
  {
    seq(|m|, i requires 0 <= i < |m| => Plus(m[i], KeyStream(cipher, nonce, 1 + i / BLOCK_SIZE)[i % BLOCK_SIZE]))
  }

  // ---------------------------------------------------------------- The loops

  /** x with x[at + i] xored with y[pos + i], until either reaches its end. */
  function Xored(x: seq<bv8>, at: nat, xEnd: nat, y: seq<bv8>, pos: nat, yEnd: nat): (r: seq<bv8>)
    requires yEnd <= |y|
    ensures |r| == |x|
  {
    seq(|x|, k requires 0 <= k < |x| =>
      if at <= k < xEnd && pos + k - at < yEnd then Plus(x[k], y[pos + k - at]) else x[k])
  }

  /** A pointer and a length: some bytes of a buffer.  Callers pass header, payload and MIC as
      parts of one frame. */
  datatype Region = Region(mem: array<bv8>, at: nat, len: nat) {
    predicate Fits() {
      at + len <= mem.Length
    }

    function Bytes(): (r: seq<bv8>)
      requires Fits()
      reads mem
      ensures |r| == len
    {
      mem[at..at + len]
    }

    predicate Apart(other: Region) {
      mem == other.mem ==> at + len <= other.at || other.at + other.len <= at
    }
  }

  /** All of mem, with other bytes in one place. */
  function Put(mem: seq<bv8>, at: nat, bytes: seq<bv8>): (r: seq<bv8>)
    requires at + |bytes| <= |mem|
    ensures |r| == |mem|
  {
    mem[..at] + bytes + mem[at + |bytes|..]
  }

  lemma PutKeeps(mem: seq<bv8>, at: nat, bytes: seq<bv8>, i: nat, j: nat)
    requires at + |bytes| <= |mem| && i <= j <= |mem|
    ensures j <= at || at + |bytes| <= i ==> Put(mem, at, bytes)[i..j] == mem[i..j]
    ensures i == at && j == at + |bytes| ==> Put(mem, at, bytes)[i..j] == bytes
  {
    var r := Put(mem, at, bytes);
    if j <= at || at + |bytes| <= i {
      assert forall k | i <= k < j :: r[k] == mem[k];
    }
  }

  lemma PutsCommute(mem: seq<bv8>, at: nat, x: seq<bv8>, bt: nat, y: seq<bv8>)
    requires at + |x| <= |mem| && bt + |y| <= |mem| && (at + |x| <= bt || bt + |y| <= at)
    ensures Put(Put(mem, at, x), bt, y) == Put(Put(mem, bt, y), at, x)
  {
    var r, t := Put(Put(mem, at, x), bt, y), Put(Put(mem, bt, y), at, x);
    forall k | 0 <= k < |mem| ensures r[k] == t[k] {}
  }

  /** The four inner loops of ctr_step and mic. */
  method XorBytes(into: array<bv8>, at: nat, intoEnd: nat, from: array<bv8>, pos: nat, fromEnd: nat)
    requires into != from && at <= intoEnd <= into.Length && pos <= fromEnd <= from.Length
    modifies into
    ensures into[..] == Xored(old(into[..]), at, intoEnd, from[..], pos, fromEnd)
  {
    hide Plus;
    var i := 0;
    while pos + i < fromEnd && at + i < intoEnd
      invariant 0 <= i && pos + i <= fromEnd && at + i <= intoEnd
      invariant forall k | 0 <= k < into.Length ::
          into[k] == if at <= k < at + i then Plus(old(into[k]), from[pos + k - at]) else old(into[k])
    {
      into[at + i] := Plus(into[at + i], from[pos + i]);
      i := i + 1;
    }
  }

  method SetIv(iv: array<bv8>, flags: bv8, nonce: array<bv8>, counter: bv8)
    requires iv.Length == BLOCK_SIZE && nonce.Length == NONCE_LENGTH && iv != nonce
    modifies iv
    ensures iv[..] == NonceBlock(flags, nonce[..], counter)
  {
    iv[0] := flags;
    for i := 0 to NONCE_LENGTH
      invariant iv[0] == flags && iv[1..i + 1] == nonce[..i]
    {
      iv[1 + i] := nonce[i];
    }
    iv[14] := 0;
    iv[15] := counter;
  }

  /** AES_128.encrypt, in place. */
  method Encrypt(cipher: Cipher, block: array<bv8>)
    requires block.Length == BLOCK_SIZE
    modifies block
    ensures block[..] == cipher(old(block[..]))
  {
    var out := cipher(block[..]);
    for i := 0 to BLOCK_SIZE
      invariant block[..i] == out[..i]
    {
      block[i] := out[i];
    }
  }

  // ---------------------------------------------------------------- The MIC

  /** What a loop of mic does to the state x, from byte pos of s on. */
  function MacFrom(cipher: Cipher, x: Block, s: seq<bv8>, pos: nat): Block
    decreases |s| - pos
  {
    if pos >= |s| then x
    else MacFrom(cipher, cipher(Added(x, Padded(s[pos..Min(|s|, pos + BLOCK_SIZE)]))), s, pos + BLOCK_SIZE)
  }

  lemma {:induction false} MacFromIsCbcMac(cipher: Cipher, x: Block, s: seq<bv8>, pos: nat)
    requires pos <= |s|
    ensures MacFrom(cipher, x, s, pos) == CbcMac(cipher, x, Blocks(s[pos..]))
    decreases |s| - pos
  {
    if pos < |s| {
      var y := cipher(Added(x, Padded(s[pos..Min(|s|, pos + BLOCK_SIZE)])));
      if pos + BLOCK_SIZE < |s| {
        assert s[pos..][..BLOCK_SIZE] == s[pos..pos + BLOCK_SIZE] == Padded(s[pos..pos + BLOCK_SIZE]);
        assert s[pos..][BLOCK_SIZE..] == s[pos + BLOCK_SIZE..];
        MacFromIsCbcMac(cipher, y, s, pos + BLOCK_SIZE);
      } else {
        assert s[pos..] == s[pos..Min(|s|, pos + BLOCK_SIZE)];
      }
    }
  }

  lemma ChunkAdded(x: Block, s: seq<bv8>, at: nat, len: nat, pos: nat)
    requires at + len <= |s| && pos < len
    ensures Xored(x, 0, BLOCK_SIZE, s, at + pos, at + len)
         == Added(x, Padded(s[at..at + len][pos..Min(len, pos + BLOCK_SIZE)]))
  {
    hide Plus;
    var chunk := s[at..at + len][pos..Min(len, pos + BLOCK_SIZE)];
    var y, z := Xored(x, 0, BLOCK_SIZE, s, at + pos, at + len), Added(x, Padded(chunk));
    forall k | 0 <= k < BLOCK_SIZE ensures y[k] == z[k] {
      if pos + k < len {
        assert Padded(chunk)[k] == chunk[k] == s[at..at + len][pos + k] == s[at + pos + k];
      } else {
        assert Padded(chunk)[k] == 0;
        PlusZero(x[k]);
      }
    }
  }

  /** One round of such a loop. */
  method MacChunk(cipher: Cipher, x: array<bv8>, s: Region, pos: nat)
    requires x.Length == BLOCK_SIZE && x != s.mem && s.Fits() && pos < s.len
    modifies x
    ensures x[..] == cipher(Added(old(x[..]), Padded(s.Bytes()[pos..Min(s.len, pos + BLOCK_SIZE)])))
  {
    hide Plus, Added, Padded, Xored;
    ChunkAdded(x[..], s.mem[..], s.at, s.len, pos);
    assert s.mem[..][s.at..s.at + s.len] == s.Bytes();
    XorBytes(x, 0, BLOCK_SIZE, s.mem, s.at + pos, s.at + s.len);
    Encrypt(cipher, x);
  }

  /** The loop of mic over the message, or over what is left of a.  The 8-bit pos reaches
      len only if some value start + 16 * k below 256 does. */
  method MacLoop(cipher: Cipher, x: array<bv8>, start: nat, s: Region)
    requires x.Length == BLOCK_SIZE && x != s.mem && s.Fits()
    requires (start == 0 && s.len <= 240) || (start == 14 && s.len <= 254)
    modifies x
    ensures x[..] == MacFrom(cipher, old(x[..]), s.Bytes(), start)
  {
    hide Plus, Added, Padded, Xored;
    var pos := start;
    ghost var k := 0;
    while pos < s.len
      invariant pos == start + 16 * k < 0x100
      invariant MacFrom(cipher, x[..], s.Bytes(), pos) == MacFrom(cipher, old(x[..]), s.Bytes(), start)
      decreases s.len - pos
    {
      MacChunk(cipher, x, s, pos);
      pos := (pos + BLOCK_SIZE) % 0x100;
      k := k + 1;
    }
  }

  lemma WithLengthAt(a: seq<bv8>, k: nat)
    requires 0 < |a| < 0x100 && k < |a| + 2
    ensures |WithLength(a)| == |a| + 2
    ensures WithLength(a)[k] == if k == 0 then 0 else if k == 1 then Byte(|a|) else a[k - 2]
  {
    hide Byte;
  }

  lemma {:induction false} MacFromShifted(cipher: Cipher, x: Block, s: seq<bv8>, w: seq<bv8>, pos: nat, shift: nat)
    requires |w| == |s| + shift && forall i | 0 <= i < |s| :: w[i + shift] == s[i]
    ensures MacFrom(cipher, x, w, pos + shift) == MacFrom(cipher, x, s, pos)
    decreases |s| - pos
  {
    if pos < |s| {
      var end := Min(|s|, pos + BLOCK_SIZE);
      assert w[pos + shift..end + shift] == s[pos..end];
      MacFromShifted(cipher, cipher(Added(x, Padded(s[pos..end]))), s, w, pos + BLOCK_SIZE, shift);
    }
  }

  /** The block of mic that starts with the length of a. */
  method AddLengthBlock(x: array<bv8>, a: Region)
    requires x.Length == BLOCK_SIZE && x != a.mem && a.Fits() && 0 < a.len < 0x100
    modifies x
    ensures var w := WithLength(a.Bytes());
      |w| == a.len + 2 && x[..] == Added(old(x[..]), Padded(w[0..Min(|w|, BLOCK_SIZE)]))
  {
    hide Byte, WithLength, Padded, Added, Xored, Plus;
    LengthAdded(x[..], a.mem[..], a.at, a.len);
    assert a.mem[..][a.at..a.at + a.len] == a.Bytes();
    x[1] := Plus(x[1], Byte(a.len));
    assert x[..] == old(x[..])[1 := Plus(old(x[1]), Byte(a.len))];
    XorBytes(x, 2, BLOCK_SIZE, a.mem, a.at, a.at + a.len);
  }

  lemma LengthAdded(x: Block, a: seq<bv8>, at: nat, len: nat)
    requires at + len <= |a| && 0 < len < 0x100
    ensures var w := WithLength(a[at..at + len]);
      && |w| == len + 2
      && Xored(x[1 := Plus(x[1], Byte(len))], 2, BLOCK_SIZE, a, at, at + len)
           == Added(x, Padded(w[0..Min(|w|, BLOCK_SIZE)]))
  {
    hide Byte, Plus;
    var w := WithLength(a[at..at + len]);
    var y := Xored(x[1 := Plus(x[1], Byte(len))], 2, BLOCK_SIZE, a, at, at + len);
    var z := Added(x, Padded(w[0..Min(|w|, BLOCK_SIZE)]));
    forall k | 0 <= k < BLOCK_SIZE ensures y[k] == z[k] {
      PlusZero(x[k]);
      if k < |w| {
        WithLengthAt(a[at..at + len], k);
        assert z[k] == Plus(x[k], w[k]);
      }
    }
  }

  /** The part of mic that authenticates a. */
  method MacA(cipher: Cipher, x: array<bv8>, a: Region)
    requires x.Length == BLOCK_SIZE && x != a.mem && a.Fits() && a.len <= 254
    modifies x
    ensures x[..] == MacFrom(cipher, old(x[..]), WithLength(a.Bytes()), 0)
  {
    hide Byte;
    if a.len != 0 {
      AddLengthBlock(x, a);
      Encrypt(cipher, x);
      ghost var w := WithLength(a.Bytes());
      MacFromShifted(cipher, x[..], a.Bytes(), w, 14, 2);
      MacLoop(cipher, x, 14, a);
    }
  }

  method CtrStep(cipher: Cipher, nonce: array<bv8>, pos: nat, m: Region, counter: nat)
    requires nonce.Length == NONCE_LENGTH && m.mem != nonce && m.Fits() && pos <= m.len && counter < 0x100
    modifies m.mem
    ensures m.mem[..]
         == Xored(old(m.mem[..]), m.at + pos, m.at + m.len, KeyStream(cipher, nonce[..], counter), 0, BLOCK_SIZE)
  {
    var a := new bv8[BLOCK_SIZE];
    SetIv(a, ENCRYPTION_FLAGS, nonce, Byte(counter));
    Encrypt(cipher, a);
    XorBytes(m.mem, m.at + pos, m.at + m.len, a, 0, BLOCK_SIZE);
  }

  lemma {:induction false} CbcMacJoin(cipher: Cipher, x: Block, a: seq<Block>, b: seq<Block>)
    ensures CbcMac(cipher, x, a + b) == CbcMac(cipher, CbcMac(cipher, x, a), b)
    decreases |a|
  {
    if a == [] {
      assert a + b == b;
    } else {
      assert (a + b)[1..] == a[1..] + b;
      CbcMacJoin(cipher, cipher(Added(x, a[0])), a[1..], b);
    }
  }

  lemma AddedZero(x: Block)
    ensures Added(ZERO, x) == x
  {
    hide Plus;
    forall i | 0 <= i < BLOCK_SIZE ensures Added(ZERO, x)[i] == x[i] {
      PlusZero(x[i]);
    }
  }

  /** The loops compute the CBC-MAC of the formatted and padded blocks. */
  lemma MacOfAuthBlocks(cipher: Cipher, nonce: Nonce, m: seq<bv8>, a: seq<bv8>, micLen: nat)
    requires |m| < 0x100 && |a| < 0x100 && micLen <= 16
    ensures CbcMac(cipher, ZERO, AuthBlocks(nonce, m, a, micLen))
      == var x := cipher(NonceBlock(AuthFlags(a != [], micLen), nonce, Byte(|m|)));
         MacFrom(cipher, MacFrom(cipher, x, WithLength(a), 0), m, 0)
  {
    hide AuthFlags, NonceBlock, Byte, WithLength, MacFrom;
    var b0 := NonceBlock(AuthFlags(a != [], micLen), nonce, Byte(|m|));
    var x, w := cipher(b0), WithLength(a);
    AddedZero(b0);
    assert [b0][1..] == [];
    assert CbcMac(cipher, ZERO, [b0]) == x;
    CbcMacJoin(cipher, ZERO, [b0], Blocks(w));
    CbcMacJoin(cipher, ZERO, [b0] + Blocks(w), Blocks(m));
    assert w[0..] == w && m[0..] == m;
    MacFromIsCbcMac(cipher, x, w, 0);
    MacFromIsCbcMac(cipher, MacFrom(cipher, x, w, 0), m, 0);
  }

  lemma XoredBlock(x: Block, y: Block)
    ensures Xored(x, 0, BLOCK_SIZE, y, 0, BLOCK_SIZE) == Added(x, y)
  {
    hide Plus;
  }

  /** mic, up to its last encryption. */
  method ComputeMac(cipher: Cipher, nonce: array<bv8>, m: Region, a: Region, micLen: nat) returns (x: array<bv8>)
    requires nonce.Length == NONCE_LENGTH && micLen <= BLOCK_SIZE
    requires m.Fits() && m.len <= 240 && a.Fits() && a.len <= 254
    ensures fresh(x) && x.Length == BLOCK_SIZE
    ensures x[..] == CbcMac(cipher, ZERO, AuthBlocks(nonce[..], m.Bytes(), a.Bytes(), micLen))
  {
    hide AuthFlags, NonceBlock, Byte, WithLength, MacFrom, CbcMac, Plus;
    x := new bv8[BLOCK_SIZE];
    assert (a.len != 0) == (a.Bytes() != []);
    SetIv(x, AuthFlags(a.len != 0, micLen), nonce, Byte(m.len));
    Encrypt(cipher, x);
    MacA(cipher, x, a);
    if m.len != 0 {
      MacLoop(cipher, x, 0, m);
    } else {
      MacOfNothing(cipher, x[..], m.Bytes());
    }
    MacOfAuthBlocks(cipher, nonce[..], m.Bytes(), a.Bytes(), micLen);
  }

  /** mic.  The result may lie anywhere, as it is written last. */
  method ComputeMic(cipher: Cipher, nonce: array<bv8>, m: Region, a: Region, result: Region)
    requires nonce.Length == NONCE_LENGTH
    requires m.Fits() && m.len <= 240 && a.Fits() && a.len <= 254 && result.Fits() && result.len <= BLOCK_SIZE
    modifies result.mem
    ensures result.mem[..]
         == Put(old(result.mem[..]), result.at, old(Mic(cipher, nonce[..], m.Bytes(), a.Bytes(), result.len)))
  {
    hide AuthBlocks, CbcMac, Xored, Added, Plus;
    var micLen := result.len;
    var x := ComputeMac(cipher, nonce, m, a, micLen);
    XoredBlock(x[..], KeyStream(cipher, nonce[..], 0));
    CtrStep(cipher, nonce, 0, Region(x, 0, BLOCK_SIZE), 0);
    ghost var mic := Mic(cipher, nonce[..], m.Bytes(), a.Bytes(), micLen);
    assert x[..micLen] == x[..][..micLen] == mic;
    CopyIn(x, result);
  }

  /** memcpy of the first bytes of a block. */
  method CopyIn(x: array<bv8>, result: Region)
    requires x.Length == BLOCK_SIZE && x != result.mem && result.Fits() && result.len <= BLOCK_SIZE
    modifies result.mem
    ensures result.mem[..] == Put(old(result.mem[..]), result.at, x[..result.len])
  {
    for i := 0 to result.len
      invariant forall k | 0 <= k < result.mem.Length ::
          result.mem[k] == if result.at <= k < result.at + i then x[k - result.at] else old(result.mem[k])
    {
      result.mem[result.at + i] := x[i];
    }
  }

  lemma MacOfNothing(cipher: Cipher, x: Block, s: seq<bv8>)
    requires s == []
    ensures MacFrom(cipher, x, s, 0) == x
  {}

  // ---------------------------------------------------------------- The counter mode

  lemma CtrStepIsCtr(cipher: Cipher, nonce: Nonce, mem: seq<bv8>, now: seq<bv8>, at: nat, len: nat, c: nat, k: nat)
    requires at + len <= |mem| == |now| && len <= 240 && 16 * c < len && k < |mem|
    requires now[k] == if at <= k < at + Min(16 * c, len) then Ctr(cipher, nonce, mem[at..at + len])[k - at] else mem[k]
    ensures Xored(now, at + 16 * c, at + len, KeyStream(cipher, nonce, c + 1), 0, BLOCK_SIZE)[k]
         == if at <= k < at + Min(16 * c + 16, len) then Ctr(cipher, nonce, mem[at..at + len])[k - at] else mem[k]
  {
    hide Plus, KeyStream;
    var i := k - at;
    if 16 * c <= i < 16 * c + 16 {
      assert i / BLOCK_SIZE == c && i % BLOCK_SIZE == i - 16 * c;
    }
  }

  /** ctr: one round for every 16 bytes or part of them. */
  method ComputeCtr(cipher: Cipher, nonce: array<bv8>, m: Region) returns (ghost rounds: nat)
    requires nonce.Length == NONCE_LENGTH && m.mem != nonce && m.Fits() && m.len <= 240
    modifies m.mem
    ensures m.mem[..] == Put(old(m.mem[..]), m.at, Ctr(cipher, nonce[..], old(m.Bytes())))
    ensures rounds == (m.len + 15) / 16
  {
    hide Plus, KeyStream, Xored, Ctr;
    rounds := 0;
    var pos, counter := 0, 1;
    ghost var before := m.mem[..];
    assert before[m.at..m.at + m.len] == m.Bytes();
    while pos < m.len
      invariant pos == 16 * rounds && counter == rounds + 1 && pos < m.len + 16 && counter < 0x100
      invariant forall k | 0 <= k < m.mem.Length ::
          m.mem[k] == if m.at <= k < m.at + Min(pos, m.len) then Ctr(cipher, nonce[..], old(m.Bytes()))[k - m.at]
            else before[k]
      decreases m.len - pos
    {
      ghost var now := m.mem[..];
      CtrStep(cipher, nonce, pos, m, counter);
      forall k | 0 <= k < m.mem.Length
        ensures m.mem[k] == if m.at <= k < m.at + Min(pos + 16, m.len)
          then Ctr(cipher, nonce[..], old(m.Bytes()))[k - m.at] else before[k]
      {
        CtrStepIsCtr(cipher, nonce[..], before, now, m.at, m.len, rounds, k);
      }
      counter := (counter + 1) % 0x100;
      pos := (pos + BLOCK_SIZE) % 0x100;
      rounds := rounds + 1;
    }
  }

  // ---------------------------------------------------------------- Authenticated encryption

  function Forward(cipher: Cipher, nonce: Nonce, m: seq<bv8>, a: seq<bv8>, micLen: nat): (seq<bv8>, seq<bv8>)
    requires |m| <= 240 && |a| <= 254 && micLen <= 16
  {
    (Ctr(cipher, nonce, m), Mic(cipher, nonce, m, a, micLen))
  }

  function Backward(cipher: Cipher, nonce: Nonce, c: seq<bv8>, a: seq<bv8>, micLen: nat): (seq<bv8>, seq<bv8>)
    requires |c| <= 240 && |a| <= 254 && micLen <= 16
  {
    var m := Ctr(cipher, nonce, c);
    (m, Mic(cipher, nonce, m, a, micLen))
  }

  /** What a buffer holds after a call that has put text at m and mic at result. */
  function Both(mem: seq<bv8>, m: Region, text: seq<bv8>, result: Region, mic: seq<bv8>): seq<bv8>
    requires m.at + |text| <= |mem| && result.at + |mic| <= |mem|
  {
    Put(Put(mem, m.at, text), result.at, mic)
  }

  /** aead, forward: first the MIC, then the message. */
  method Encipher(cipher: Cipher, nonce: array<bv8>, m: Region, a: Region, result: Region)
    requires nonce.Length == NONCE_LENGTH && nonce != m.mem && nonce != result.mem
    requires m.Fits() && m.len <= 240 && a.Fits() && a.len <= 254 && result.Fits() && result.len <= BLOCK_SIZE
    requires m.Apart(result)
    modifies m.mem, result.mem
    ensures var (text, mic) := old(Forward(cipher, nonce[..], m.Bytes(), a.Bytes(), result.len));
      if m.mem == result.mem then m.mem[..] == Both(old(m.mem[..]), m, text, result, mic)
      else m.mem[..] == Put(old(m.mem[..]), m.at, text) && result.mem[..] == Put(old(result.mem[..]), result.at, mic)
  {
    hide Mic, Ctr, Put;
    ghost var before := m.mem[..];
    ghost var text, mic := Ctr(cipher, nonce[..], m.Bytes()), Mic(cipher, nonce[..], m.Bytes(), a.Bytes(), result.len);
    assert m.Bytes() == before[m.at..m.at + m.len];
    ComputeMic(cipher, nonce, m, a, result);
    if m.mem == result.mem {
      PutKeeps(before, result.at, mic, m.at, m.at + m.len);
      PutsCommute(before, m.at, text, result.at, mic);
    }
    assert m.Bytes() == m.mem[..][m.at..m.at + m.len];
    ghost var rounds := ComputeCtr(cipher, nonce, m);
  }

  /** aead, backward: first the message, then the MIC. */
  method Decipher(cipher: Cipher, nonce: array<bv8>, m: Region, a: Region, result: Region)
    requires nonce.Length == NONCE_LENGTH && nonce != m.mem && nonce != result.mem
    requires m.Fits() && m.len <= 240 && a.Fits() && a.len <= 254 && result.Fits() && result.len <= BLOCK_SIZE
    requires m.Apart(a)
    modifies m.mem, result.mem
    ensures var (text, mic) := old(Backward(cipher, nonce[..], m.Bytes(), a.Bytes(), result.len));
      if m.mem == result.mem then m.mem[..] == Both(old(m.mem[..]), m, text, result, mic)
      else m.mem[..] == Put(old(m.mem[..]), m.at, text) && result.mem[..] == Put(old(result.mem[..]), result.at, mic)
  {
    hide Mic, Ctr, Put;
    ghost var before := m.mem[..];
    ghost var text := Ctr(cipher, nonce[..], m.Bytes());
    assert a.Bytes() == a.mem[..][a.at..a.at + a.len];
    ghost var rounds := ComputeCtr(cipher, nonce, m);
    PutKeeps(before, m.at, text, m.at, m.at + m.len);
    if a.mem == m.mem {
      PutKeeps(before, m.at, text, a.at, a.at + a.len);
    }
    assert m.Bytes() == m.mem[..][m.at..m.at + m.len] && a.Bytes() == a.mem[..][a.at..a.at + a.len];
    ComputeMic(cipher, nonce, m, a, result);
  }

  /** aead: m is transformed in place, and the MIC is put into result.  The message, a and the
      result may be parts of one buffer, as long as what is written first does not overlap what
      is read afterwards. */
  method Aead(cipher: Cipher, nonce: array<bv8>, m: Region, a: Region, result: Region, forward: bool)
    requires nonce.Length == NONCE_LENGTH && nonce != m.mem && nonce != result.mem
    requires m.Fits() && m.len <= 240 && a.Fits() && a.len <= 254 && result.Fits() && result.len <= BLOCK_SIZE
    requires if forward then m.Apart(result) else m.Apart(a)
    modifies m.mem, result.mem
    ensures var (text, mic) := if forward then old(Forward(cipher, nonce[..], m.Bytes(), a.Bytes(), result.len))
        else old(Backward(cipher, nonce[..], m.Bytes(), a.Bytes(), result.len));
      if m.mem == result.mem then m.mem[..] == Both(old(m.mem[..]), m, text, result, mic)
      else m.mem[..] == Put(old(m.mem[..]), m.at, text) && result.mem[..] == Put(old(result.mem[..]), result.at, mic)
  {
    hide Mic, Ctr, Put;
    if forward {
      Encipher(cipher, nonce, m, a, result);
    } else {
      Decipher(cipher, nonce, m, a, result);
    }
  }

  lemma CtrTwice(cipher: Cipher, nonce: Nonce, m: seq<bv8>)
    requires |m| <= 240
    ensures Ctr(cipher, nonce, Ctr(cipher, nonce, m)) == m
  {
    hide Plus, KeyStream;
    forall i | 0 <= i < |m| ensures Ctr(cipher, nonce, Ctr(cipher, nonce, m))[i] == m[i] {
      PlusTwice(m[i], KeyStream(cipher, nonce, 1 + i / BLOCK_SIZE)[i % BLOCK_SIZE]);
    }
  }

  /** Decrypting what was encrypted under the same key, nonce and a gives m and the same MIC. */
  lemma AeadRoundTrip(cipher: Cipher, nonce: Nonce, m: seq<bv8>, a: seq<bv8>, micLen: nat)
    requires |m| <= 240 && |a| <= 254 && micLen <= 16
    ensures var (c, mic) := Forward(cipher, nonce, m, a, micLen);
      |c| == |m| && Backward(cipher, nonce, c, a, micLen) == (m, mic)
  {
    hide Ctr, Mic;
    CtrTwice(cipher, nonce, m);
  }

  // ---------------------------------------------------------------- The formatting is unambiguous

  /** The MIC lengths that CCM* allows for an authenticated message. */
  predicate MicLenOk(micLen: nat) {
    4 <= micLen <= 16 && micLen % 2 == 0
  }

  /** The fields of section 2.2: 64 * Adata + 8 * M' + L', with M' = (M - 2) / 2 and L' = 1. */
  lemma AuthFlagsFields(adata: bool, micLen: nat)
    requires MicLenOk(micLen)
    ensures AuthFlags(adata, micLen) as int == (if adata then 64 else 0) + 8 * ((micLen - 2) / 2) + 1
  {
    SmallBytes();
    var n := (micLen - 2) / 2;
    assert n == 1 || n == 2 || n == 3 || n == 4 || n == 5 || n == 6 || n == 7;
  }

  lemma SmallBytes()
    ensures Byte(1) == 1 && Byte(2) == 2 && Byte(3) == 3 && Byte(4) == 4
    ensures Byte(5) == 5 && Byte(6) == 6 && Byte(7) == 7
  {
    assert Byte(0) == 0;
    assert Byte(1) == Byte(0) + 1;
    assert Byte(2) == Byte(1) + 1;
    assert Byte(3) == Byte(2) + 1;
    assert Byte(4) == Byte(3) + 1;
    assert Byte(5) == Byte(4) + 1;
    assert Byte(6) == Byte(5) + 1;
    assert Byte(7) == Byte(6) + 1;
  }

  lemma SameByte(m: nat, n: nat)
    requires m < 0x100 && n < 0x100 && Byte(m) == Byte(n)
    ensures m == n
  {
    ByteHolds(m);
    ByteHolds(n);
  }

  lemma {:induction false} BlocksInjective(s: seq<bv8>, t: seq<bv8>)
    requires |s| == |t| && Blocks(s) == Blocks(t)
    ensures s == t
    decreases |s|
  {
    if s != [] {
      var b, c := Blocks(s)[0], Blocks(t)[0];
      var n := Min(|s|, BLOCK_SIZE);
      assert b[..n] == s[..n] && c[..n] == t[..n];
      if |s| > BLOCK_SIZE {
        assert Blocks(s[BLOCK_SIZE..]) == Blocks(s)[1..] && Blocks(t[BLOCK_SIZE..]) == Blocks(t)[1..];
        BlocksInjective(s[BLOCK_SIZE..], t[BLOCK_SIZE..]);
        assert s == s[..n] + s[BLOCK_SIZE..] && t == t[..n] + t[BLOCK_SIZE..];
      } else {
        assert s == s[..n] && t == t[..n];
      }
    }
  }

  lemma {:induction false} BlocksCount(s: seq<bv8>)
    ensures |Blocks(s)| == (|s| + 15) / 16
    decreases |s|
  {
    if |s| > BLOCK_SIZE {
      BlocksCount(s[BLOCK_SIZE..]);
    }
  }

  lemma HeadsEqual(n: Nonce, m: seq<bv8>, a: seq<bv8>, l: nat, n': Nonce, m': seq<bv8>, a': seq<bv8>, l': nat)
    requires |m| < 0x100 && |a| < 0x100 && MicLenOk(l) && |m'| < 0x100 && |a'| < 0x100 && MicLenOk(l')
    requires NonceBlock(AuthFlags(a != [], l), n, Byte(|m|)) == NonceBlock(AuthFlags(a' != [], l'), n', Byte(|m'|))
    ensures l == l' && n == n' && |m| == |m'| && (a == [] <==> a' == [])
  {
    hide Byte, AuthFlags;
    var x := NonceBlock(AuthFlags(a != [], l), n, Byte(|m|));
    var y := NonceBlock(AuthFlags(a' != [], l'), n', Byte(|m'|));
    assert x[0] == y[0] && x[15] == y[15];
    assert x[1..14] == n && y[1..14] == n';
    AuthFlagsFields(a != [], l);
    AuthFlagsFields(a' != [], l');
    SameByte(|m|, |m'|);
  }

  lemma FirstTwoBytes(a: seq<bv8>)
    requires 0 < |a| < 0x100
    ensures Blocks(WithLength(a)) != [] && Blocks(WithLength(a))[0][1] == Byte(|a|)
  {
    hide Byte;
    var w := WithLength(a);
    assert w[1] == Byte(|a|);
  }

  lemma LengthsEqual(a: seq<bv8>, rest: seq<Block>, a': seq<bv8>, rest': seq<Block>)
    requires |a| < 0x100 && |a'| < 0x100 && (a == [] <==> a' == [])
    requires Blocks(WithLength(a)) + rest <= Blocks(WithLength(a')) + rest'
    ensures |a| == |a'| && |WithLength(a)| == |WithLength(a')|
  {
    hide Byte, Blocks;
    if a != [] {
      FirstTwoBytes(a);
      FirstTwoBytes(a');
      assert (Blocks(WithLength(a)) + rest)[0] == (Blocks(WithLength(a')) + rest')[0];
      SameByte(|a|, |a'|);
    }
  }

  /** No formatted message is the beginning of another: this is what the security of CBC-MAC
      rests on.  In particular the blocks determine the nonce, m, a and the MIC length. */
  lemma FormattingIsPrefixFree(n: Nonce, m: seq<bv8>, a: seq<bv8>, l: nat, n': Nonce, m': seq<bv8>, a': seq<bv8>, l': nat)
    requires |m| < 0x100 && |a| < 0x100 && MicLenOk(l) && |m'| < 0x100 && |a'| < 0x100 && MicLenOk(l')
    requires AuthBlocks(n, m, a, l) <= AuthBlocks(n', m', a', l')
    ensures n == n' && m == m' && a == a' && l == l'
  {
    hide Byte, AuthFlags, WithLength, NonceBlock, Blocks;
    var x, y := AuthBlocks(n, m, a, l), AuthBlocks(n', m', a', l');
    assert x[0] == y[0];
    HeadsEqual(n, m, a, l, n', m', a', l');
    var w, w' := Blocks(WithLength(a)), Blocks(WithLength(a'));
    var v, v' := Blocks(m), Blocks(m');
    assert x[1..] == w + v && y[1..] == w' + v' && x[1..] <= y[1..];
    LengthsEqual(a, v, a', v');
    BlocksCount(WithLength(a));
    BlocksCount(WithLength(a'));
    BlocksCount(m);
    BlocksCount(m');
    assert w + v == w' + v';
    assert (w + v)[..|w|] == (w' + v')[..|w|] && (w + v)[|w|..] == (w' + v')[|w|..];
    assert w == w' && v == v';
    BlocksInjective(m, m');
    BlocksInjective(WithLength(a), WithLength(a'));
    SameWithLength(a, a');
  }

  lemma SameWithLength(a: seq<bv8>, a': seq<bv8>)
    requires |a| == |a'| < 0x100 && WithLength(a) == WithLength(a')
    ensures a == a'
  {
    hide Byte;
    if a != [] {
      assert WithLength(a)[2..] == a && WithLength(a')[2..] == a';
    }
  }

  // ---------------------------------------------------------------- How far the 8-bit counters carry

  /** pos after k rounds of a loop that starts at start. */
  function PosAfter(start: nat, k: nat): nat {
    if k == 0 then start else (PosAfter(start, k - 1) + BLOCK_SIZE) % 0x100
  }

  lemma {:induction false} PosIs(start: nat, k: nat) returns (c: nat)
    requires start < 16
    ensures c < 16 && PosAfter(start, k) == start + 16 * c && (k < 16 ==> c == k)
  {
    c := 0;
    if k > 0 {
      var before := PosIs(start, k - 1);
      c := if before == 15 then 0 else before + 1;
    }
  }

  /** The message loops end exactly for messages of at most 240 bytes. */
  lemma MessageLoopEnds(mLen: nat)
    requires mLen < 0x100
    ensures (exists k: nat :: PosAfter(0, k) >= mLen) <==> mLen <= 240
  {
    hide PosAfter;
    forall k: nat ensures PosAfter(0, k) <= 240 {
      var c := PosIs(0, k);
    }
    var c := PosIs(0, 15);
    assert PosAfter(0, 15) == 240;
  }

  /** The loop over a ends exactly for at most 254 bytes. */
  lemma AdataLoopEnds(aLen: nat)
    requires aLen < 0x100
    ensures (exists k: nat :: PosAfter(14, k) >= aLen) <==> aLen <= 254
  {
    hide PosAfter;
    forall k: nat ensures PosAfter(14, k) <= 254 {
      var c := PosIs(14, k);
    }
    var c := PosIs(14, 15);
    assert PosAfter(14, 15) == 254;
  }
}
