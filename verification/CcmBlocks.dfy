/** The blocks of utils/src/ccm-star.c, byte by byte: what is authenticated, and which blocks
    the key stream is made of. */
module CcmBlocks {
  import opened Common
  import opened WordBits
  import opened Ccm

  // ---------------------------------------------------------------- The key stream

  /** Byte k of the message is encrypted with byte k % 16 of the cipher's value on the counter
      block 1 + k / 16. */
  lemma CtrBytes(cipher: Cipher, nonce: Nonce, m: seq<bv8>, k: nat)
    requires |m| <= 240 && k < |m|
    ensures 1 + k / 16 < 0x100
    ensures Ctr(cipher, nonce, m)[k] == m[k] ^ cipher([1] + nonce + [0, Byte(1 + k / 16)])[k % 16]
  {
    hide Byte;
  }

  /** The MIC is the beginning of the CBC-MAC, encrypted with the cipher's value on the counter
      block 0. */
  lemma MicBytes(cipher: Cipher, nonce: Nonce, m: seq<bv8>, a: seq<bv8>, micLen: nat, k: nat)
    requires |m| < 0x100 && |a| < 0x100 && k < micLen <= 16
    ensures Mic(cipher, nonce, m, a, micLen)[k]
         == CbcMac(cipher, ZERO, AuthBlocks(nonce, m, a, micLen))[k] ^ cipher([1] + nonce + [0, 0])[k]
  {
    hide CbcMac, AuthBlocks, Byte;
    ByteZero();
  }

  /** What aead leaves, byte by byte: the MIC is always that of the plain message, under its own
      counter block, and the message goes through the counter blocks from 1 on, either way. */
  lemma ForwardBytes(cipher: Cipher, nonce: Nonce, m: seq<bv8>, a: seq<bv8>, micLen: nat)
    requires |m| <= 240 && |a| <= 254 && micLen <= 16
    ensures var (c, mic) := Forward(cipher, nonce, m, a, micLen);
      && |c| == |m| && |mic| == micLen
      && (forall k | 0 <= k < |m| :: c[k] == m[k] ^ cipher([1] + nonce + [0, Byte(1 + k / 16)])[k % 16])
      && (forall k | 0 <= k < micLen ::
            mic[k] == CbcMac(cipher, ZERO, AuthBlocks(nonce, m, a, micLen))[k] ^ cipher([1] + nonce + [0, 0])[k])
  {
    hide CbcMac, AuthBlocks, Byte, Ctr, Mic;
    var (c, mic) := Forward(cipher, nonce, m, a, micLen);
    forall k | 0 <= k < |m| ensures c[k] == m[k] ^ cipher([1] + nonce + [0, Byte(1 + k / 16)])[k % 16] {
      CtrBytes(cipher, nonce, m, k);
    }
    forall k | 0 <= k < micLen
      ensures mic[k] == CbcMac(cipher, ZERO, AuthBlocks(nonce, m, a, micLen))[k] ^ cipher([1] + nonce + [0, 0])[k]
    {
      MicBytes(cipher, nonce, m, a, micLen, k);
    }
  }

  lemma BackwardBytes(cipher: Cipher, nonce: Nonce, c: seq<bv8>, a: seq<bv8>, micLen: nat)
    requires |c| <= 240 && |a| <= 254 && micLen <= 16
    ensures var (m, mic) := Backward(cipher, nonce, c, a, micLen);
      && |m| == |c| && |mic| == micLen
      && (forall k | 0 <= k < |c| :: m[k] == c[k] ^ cipher([1] + nonce + [0, Byte(1 + k / 16)])[k % 16])
      && (forall k | 0 <= k < micLen ::
            mic[k] == CbcMac(cipher, ZERO, AuthBlocks(nonce, m, a, micLen))[k] ^ cipher([1] + nonce + [0, 0])[k])
  {
    hide CbcMac, AuthBlocks, Byte, Ctr, Mic;
    var (m, mic) := Backward(cipher, nonce, c, a, micLen);
    forall k | 0 <= k < |c| ensures m[k] == c[k] ^ cipher([1] + nonce + [0, Byte(1 + k / 16)])[k % 16] {
      CtrBytes(cipher, nonce, c, k);
    }
    forall k | 0 <= k < micLen
      ensures mic[k] == CbcMac(cipher, ZERO, AuthBlocks(nonce, m, a, micLen))[k] ^ cipher([1] + nonce + [0, 0])[k]
    {
      MicBytes(cipher, nonce, m, a, micLen, k);
    }
  }

  lemma ByteZero()
    ensures Byte(0) == 0
  {}

  lemma CountersDiffer(nonce: Nonce, i: nat, j: nat)
    requires i < j < 0x100
    ensures [1] + nonce + [0, Byte(i)] != [1] + nonce + [0, Byte(j)]
  {
    hide Byte;
    var x, y := [1] + nonce + [0, Byte(i)], [1] + nonce + [0, Byte(j)];
    if x == y {
      assert x[15] == y[15];
      SameByte(i, j);
    }
  }

  /** A field of zeros for the MIC length gives B_0 the flags of the counter blocks. */
  lemma FlagsOfCounters(adata: bool, micLen: nat)
    requires micLen <= 16
    ensures AuthFlags(adata, micLen) == 1 <==> !adata && 2 <= micLen <= 3
  {
    SmallBytes();
    ByteZero();
    var n := (micLen - 2) / 2;
    assert micLen < 2 || n == 0 || n == 1 || n == 2 || n == 3 || n == 4 || n == 5 || n == 6 || n == 7;
  }

  /** B_0 is one of the counter blocks in use exactly when the MIC has 2 or 3 bytes, there is
      nothing to authenticate besides the message, and the message has at most one byte. */
  lemma FirstBlockIsCounterIff(nonce: Nonce, m: seq<bv8>, a: seq<bv8>, micLen: nat)
    requires |m| <= 240 && |a| < 0x100 && micLen <= 16
    ensures (exists i: nat :: i <= (|m| + 15) / 16 && AuthBlocks(nonce, m, a, micLen)[0] == [1] + nonce + [0, Byte(i)])
       <==> (a == [] && 2 <= micLen <= 3 && |m| <= 1)
  {
    hide Byte, AuthFlags;
    var b := AuthBlocks(nonce, m, a, micLen)[0];
    assert b == [AuthFlags(a != [], micLen)] + nonce + [0, Byte(|m|)];
    FlagsOfCounters(a != [], micLen);
    if i: nat :| i <= (|m| + 15) / 16 && b == [1] + nonce + [0, Byte(i)] {
      assert b[0] == ([1] + nonce + [0, Byte(i)])[0] == 1 && b[15] == ([1] + nonce + [0, Byte(i)])[15];
      SameByte(i, |m|);
    }
    if a == [] && 2 <= micLen <= 3 && |m| <= 1 {
      assert |m| <= (|m| + 15) / 16 && b == [1] + nonce + [0, Byte(|m|)];
    }
  }

  // ---------------------------------------------------------------- What is authenticated

  /** Byte k of s is byte k % 16 of block k / 16, and zeros fill the last block. */
  lemma {:induction false} BlocksBytes(s: seq<bv8>, k: nat)
    requires k < 16 * ((|s| + 15) / 16)
    ensures |Blocks(s)| == (|s| + 15) / 16
    ensures Blocks(s)[k / 16][k % 16] == if k < |s| then s[k] else 0
    decreases |s|
  {
    BlocksCount(s);
    if |s| > BLOCK_SIZE && k >= BLOCK_SIZE {
      BlocksBytes(s[BLOCK_SIZE..], k - BLOCK_SIZE);
    }
  }

  /** The blocks in front of those of m: B_0, then l(a) and a with zeros behind them, or
      nothing at all. */
  lemma AuthHead(nonce: Nonce, m: seq<bv8>, a: seq<bv8>, micLen: nat)
    requires |m| < 0x100 && |a| < 0x100 && micLen <= 16
    ensures var n, x := if a == [] then 0 else (|a| + 17) / 16, AuthBlocks(nonce, m, a, micLen);
      && |x| == 1 + n + (|m| + 15) / 16
      && x[0] == [AuthFlags(a != [], micLen)] + nonce + [0, Byte(|m|)]
      && x[1 + n..] == Blocks(m)
      && forall k | 0 <= k < 16 * n ::
           x[1 + k / 16][k % 16]
             == if k == 0 then 0 else if k == 1 then Byte(|a|) else if k < |a| + 2 then a[k - 2] else 0
  {
    hide Byte, AuthFlags, Blocks;
    var n, x, w := if a == [] then 0 else (|a| + 17) / 16, AuthBlocks(nonce, m, a, micLen), WithLength(a);
    BlocksCount(w);
    BlocksCount(m);
    assert x[1..1 + n] == Blocks(w);
    forall k | 0 <= k < 16 * n
      ensures x[1 + k / 16][k % 16]
           == if k == 0 then 0 else if k == 1 then Byte(|a|) else if k < |a| + 2 then a[k - 2] else 0
    {
      BlocksBytes(w, k);
      assert x[1..1 + n][k / 16] == x[1 + k / 16];
    }
  }

  /** The CBC-MAC from its other end: the last block is added to the MAC of those before it. */
  lemma MacOfLast(cipher: Cipher, x: Block, blocks: seq<Block>, last: Block) returns (y: Block)
    ensures CbcMac(cipher, x, blocks + [last]) == cipher(y)
    ensures forall i | 0 <= i < 16 :: y[i] == CbcMac(cipher, x, blocks)[i] ^ last[i]
  {
    CbcMacJoin(cipher, x, blocks, [last]);
    y := Added(CbcMac(cipher, x, blocks), last);
    assert [last][1..] == [];
  }
}
