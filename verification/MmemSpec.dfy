/** What utils/src/mmem.c does, as functions on values: blocks of one memory, packed from
    its start, and compacted on every free.  T stands for the handles, struct mmem. */
module MmemSpec {
  import opened Common
  import opened Buffers
  import opened LinkedList

  datatype Block = Block(size: nat, ptr: nat)

  /** handles in list order, with the two fields of each. */
  datatype State<T(==)> = State(handles: seq<T>, blocks: seq<Block>, memory: seq<bv8>, avail: nat)

  /** From from on, block after block, up to upto: no gap and no overlap. */
  predicate Tiled(blocks: seq<Block>, from: nat, upto: nat)
    decreases |blocks|
  {
    if blocks == [] then from == upto
    else blocks[0].ptr == from && Tiled(blocks[1..], from + blocks[0].size, upto)
  }

  function Top<T>(s: State<T>): int { |s.memory| - s.avail }

  ghost predicate Valid<T>(s: State<T>) {
    && Distinct(s.handles) && |s.blocks| == |s.handles|
    && s.avail <= |s.memory| && Tiled(s.blocks, 0, Top(s))
  }

  lemma {:induction false} TiledBounds(blocks: seq<Block>, from: nat, upto: nat)
    requires Tiled(blocks, from, upto)
    ensures from <= upto
    ensures forall i | 0 <= i < |blocks| :: from <= blocks[i].ptr && blocks[i].ptr + blocks[i].size <= upto
    decreases |blocks|
  {
    if blocks != [] {
      TiledBounds(blocks[1..], from + blocks[0].size, upto);
    }
  }

  /** The bytes of the i-th block, read through its pointer. */
  function Content<T>(s: State<T>, i: nat): seq<bv8>
    requires i < |s.blocks| && s.blocks[i].ptr + s.blocks[i].size <= |s.memory|
  {
    s.memory[s.blocks[i].ptr..s.blocks[i].ptr + s.blocks[i].size]
  }

  // ---------------------------------------------------------------- The operations

  /** mmem_alloc when there is enough memory.  list_add takes the handle out of the list
      first, should it be on it. */
  function Allocated<T(==)>(s: State<T>, h: T, size: nat): State<T>
    requires |s.handles| == |s.blocks| && s.avail <= |s.memory| && size <= s.avail
  {
    State(Without(s.handles, h) + [h], WithoutBlock(s, h) + [Block(size, Top(s))], s.memory, s.avail - size)
  }

  function WithoutBlock<T(==)>(s: State<T>, h: T): seq<Block>
    requires |s.handles| == |s.blocks|
  {
    if h in s.handles then
      var k := IndexOf(s.handles, h);
      s.blocks[..k] + s.blocks[k + 1..]
    else s.blocks
  }

  function Alloc<T(==)>(s: State<T>, h: T, size: nat): (r: (State<T>, bool))
    requires |s.handles| == |s.blocks| && s.avail <= |s.memory|
  {
    if s.avail < size then (s, false) else (Allocated(s, h, size), true)
  }

  /** The pointers of all the blocks, size bytes lower. */
  function Lowered(blocks: seq<Block>, size: nat): (r: seq<Block>)
    requires forall i | 0 <= i < |blocks| :: size <= blocks[i].ptr
    ensures |r| == |blocks|
  {
    seq(|blocks|, i requires 0 <= i < |blocks| => Block(blocks[i].size, blocks[i].ptr - size))
  }

  ghost predicate Freeable<T>(s: State<T>, k: nat) {
    && k < |s.handles| == |s.blocks| && s.avail <= |s.memory|
    && (forall i | k < i < |s.blocks| :: s.blocks[k].size <= s.blocks[i].ptr)
    && (k + 1 < |s.blocks| ==> s.blocks[k].ptr <= s.blocks[k + 1].ptr <= Top(s))
  }

  /** mmem_free of the k-th handle on the list. */
  function Freed<T>(s: State<T>, k: nat): State<T>
    requires Freeable(s, k)
  {
    var b := s.blocks[k];
    State(s.handles[..k] + s.handles[k + 1..],
          s.blocks[..k] + Lowered(s.blocks[k + 1..], b.size),
          if k + 1 == |s.blocks| then s.memory
          else Moved(s.memory, b.ptr, s.blocks[k + 1].ptr, Top(s) - s.blocks[k + 1].ptr),
          s.avail + b.size)
  }

  // ---------------------------------------------------------------- Tiling

  lemma {:induction false} TiledSplit(a: seq<Block>, b: seq<Block>, from: nat, upto: nat) returns (mid: nat)
    requires Tiled(a + b, from, upto)
    ensures Tiled(a, from, mid) && Tiled(b, mid, upto)
    decreases |a|
  {
    if a == [] {
      assert a + b == b;
      mid := from;
    } else {
      assert (a + b)[1..] == a[1..] + b;
      mid := TiledSplit(a[1..], b, from + a[0].size, upto);
    }
  }

  lemma {:induction false} TiledJoin(a: seq<Block>, b: seq<Block>, from: nat, mid: nat, upto: nat)
    requires Tiled(a, from, mid) && Tiled(b, mid, upto)
    ensures Tiled(a + b, from, upto)
    decreases |a|
  {
    if a == [] {
      assert a + b == b;
    } else {
      assert (a + b)[1..] == a[1..] + b;
      TiledJoin(a[1..], b, from + a[0].size, mid, upto);
    }
  }

  lemma {:induction false} TiledLowered(b: seq<Block>, from: nat, upto: nat, size: nat)
    requires Tiled(b, from, upto) && size <= from
    requires forall i | 0 <= i < |b| :: size <= b[i].ptr
    ensures from <= upto && Tiled(Lowered(b, size), from - size, upto - size)
    decreases |b|
  {
    TiledBounds(b, from, upto);
    if b != [] {
      TiledLowered(b[1..], from + b[0].size, upto, size);
      assert Lowered(b, size)[1..] == Lowered(b[1..], size);
    }
  }

  lemma TiledAround(blocks: seq<Block>, k: nat, upto: nat)
    requires Tiled(blocks, 0, upto) && k < |blocks|
    ensures var b := blocks[k];
      && b.ptr + b.size <= upto
      && Tiled(blocks[..k], 0, b.ptr) && Tiled(blocks[k + 1..], b.ptr + b.size, upto)
  {
    assert blocks == blocks[..k] + ([blocks[k]] + blocks[k + 1..]);
    var mid := TiledSplit(blocks[..k], [blocks[k]] + blocks[k + 1..], 0, upto);
    assert ([blocks[k]] + blocks[k + 1..])[1..] == blocks[k + 1..];
    TiledBounds(blocks, 0, upto);
  }

  // ---------------------------------------------------------------- What the operations keep

  /** The memory that the blocks take up. */
  function Used(blocks: seq<Block>): nat {
    if blocks == [] then 0 else blocks[0].size + Used(blocks[1..])
  }

  lemma {:induction false} UsedJoin(a: seq<Block>, b: seq<Block>)
    ensures Used(a + b) == Used(a) + Used(b)
  {
    if a == [] {
      assert a + b == b;
    } else {
      assert (a + b)[1..] == a[1..] + b;
      UsedJoin(a[1..], b);
    }
  }

  lemma {:induction false} TiledUsed(blocks: seq<Block>, from: nat, upto: nat)
    requires Tiled(blocks, from, upto)
    ensures upto == from + Used(blocks)
    decreases |blocks|
  {
    if blocks != [] {
      TiledUsed(blocks[1..], from + blocks[0].size, upto);
    }
  }

  /** No byte is lost: the blocks and what is still available make up the memory. */
  lemma NothingIsLost<T>(s: State<T>)
    requires Valid(s)
    ensures Used(s.blocks) + s.avail == |s.memory|
  {
    TiledUsed(s.blocks, 0, Top(s));
  }

  lemma UsedWithout<T>(s: State<T>, h: T)
    requires Valid(s)
    ensures Used(WithoutBlock(s, h))
         == Used(s.blocks) - if h in s.handles then s.blocks[IndexOf(s.handles, h)].size else 0
  {
    if h in s.handles {
      var k := IndexOf(s.handles, h);
      assert s.blocks == s.blocks[..k] + ([s.blocks[k]] + s.blocks[k + 1..]);
      UsedJoin(s.blocks[..k], [s.blocks[k]] + s.blocks[k + 1..]);
      UsedJoin([s.blocks[k]], s.blocks[k + 1..]);
      UsedJoin(s.blocks[..k], s.blocks[k + 1..]);
      assert Used([s.blocks[k]]) == s.blocks[k].size;
    }
  }

  lemma DistinctAppend<T>(q: seq<T>, h: T)
    requires Distinct(q) && h !in q
    ensures Distinct(q + [h])
  {}

  /** Allocating for a handle keeps the blocks packed exactly when the handle is not in use,
      or its block is empty. */
  lemma AllocKeepsIff<T>(s: State<T>, h: T, size: nat)
    requires Valid(s) && size <= s.avail
    ensures Valid(Allocated(s, h, size))
       <==> h !in s.handles || s.blocks[IndexOf(s.handles, h)].size == 0
  {
    var t, w := Allocated(s, h, size), WithoutBlock(s, h);
    var b := Block(size, Top(s));
    DistinctWithout(s.handles, h);
    DistinctAppend(Without(s.handles, h), h);
    UsedWithout(s, h);
    UsedJoin(w, [b]);
    assert Used([b]) == size;
    NothingIsLost(s);
    if h in s.handles {
      var k := IndexOf(s.handles, h);
      WithoutAt(s.handles, k);
      if s.blocks[k].size == 0 {
        TiledAround(s.blocks, k, Top(s));
        TiledJoin(s.blocks[..k], s.blocks[k + 1..], 0, s.blocks[k].ptr, Top(s));
        TiledOneMore(w, size, Top(s));
      } else if Tiled(t.blocks, 0, Top(t)) {
        TiledUsed(t.blocks, 0, Top(t));
      }
    } else {
      WithoutAbsent(s.handles, h);
      TiledOneMore(w, size, Top(s));
    }
  }

  lemma TiledOneMore(blocks: seq<Block>, size: nat, upto: nat)
    requires Tiled(blocks, 0, upto)
    ensures Tiled(blocks + [Block(size, upto)], 0, upto + size)
  {
    assert Tiled([Block(size, upto)], upto, upto + size);
    TiledJoin(blocks, [Block(size, upto)], 0, upto, upto + size);
  }

  lemma FreeIsPossible<T>(s: State<T>, k: nat)
    requires Valid(s) && k < |s.handles|
    ensures Freeable(s, k)
    ensures k + 1 < |s.blocks| ==> s.blocks[k + 1].ptr == s.blocks[k].ptr + s.blocks[k].size
  {
    TiledAround(s.blocks, k, Top(s));
    TiledBounds(s.blocks[k + 1..], s.blocks[k].ptr + s.blocks[k].size, Top(s));
    forall i | k < i < |s.blocks| ensures s.blocks[k].size <= s.blocks[i].ptr {
      assert s.blocks[i] == s.blocks[k + 1..][i - k - 1];
    }
  }

  lemma FreeKeeps<T>(s: State<T>, k: nat)
    requires Valid(s) && k < |s.handles|
    ensures Freeable(s, k) && Valid(Freed(s, k))
  {
    hide Tiled, Moved, Distinct;
    FreeIsPossible(s, k);
    DistinctHalves(s.handles, k);
    var b := s.blocks[k];
    var after := s.blocks[k + 1..];
    TiledAround(s.blocks, k, Top(s));
    TiledLowered(after, b.ptr + b.size, Top(s), b.size);
    TiledJoin(s.blocks[..k], Lowered(after, b.size), 0, b.ptr, Top(s) - b.size);
  }

  lemma MovedBelow(m: seq<bv8>, dst: nat, src: nat, n: nat, i: nat, j: nat)
    requires dst <= src && src + n <= |m| && i <= j <= dst
    ensures Moved(m, dst, src, n)[i..j] == m[i..j]
  {}

  lemma SliceOfSlice(m: seq<bv8>, a: nat, b: nat, i: nat, j: nat)
    requires a <= i <= j <= b <= |m|
    ensures m[a..b][i - a..j - a] == m[i..j]
  {
    var x, y := m[a..b][i - a..j - a], m[i..j];
    forall k | 0 <= k < j - i ensures x[k] == y[k] {
      assert x[k] == m[a..b][i - a + k] == m[i + k];
    }
  }

  lemma MovedAbove(m: seq<bv8>, dst: nat, src: nat, n: nat, i: nat, j: nat)
    requires dst <= src && src + n <= |m| && src <= i <= j <= src + n
    ensures Moved(m, dst, src, n)[dst + i - src..dst + j - src] == m[i..j]
  {
    var r := Moved(m, dst, src, n);
    assert r[dst..dst + n] == m[src..src + n];
    SliceOfSlice(r, dst, dst + n, dst + i - src, dst + j - src);
    SliceOfSlice(m, src, src + n, i, j);
  }

  lemma BlocksAround(blocks: seq<Block>, k: nat, i: nat, upto: nat)
    requires Tiled(blocks, 0, upto) && k < |blocks| && i < |blocks| && i != k
    ensures blocks[i].ptr + blocks[i].size <= upto
    ensures i < k ==> blocks[i].ptr + blocks[i].size <= blocks[k].ptr
    ensures i > k ==> blocks[k].ptr + blocks[k].size <= blocks[i].ptr
  {
    var b := blocks[k];
    TiledAround(blocks, k, upto);
    TiledBounds(blocks, 0, upto);
    if i < k {
      TiledBounds(blocks[..k], 0, b.ptr);
      assert blocks[..k][i] == blocks[i];
    } else {
      TiledBounds(blocks[k + 1..], b.ptr + b.size, upto);
      assert blocks[k + 1..][i - k - 1] == blocks[i];
    }
  }

  lemma FreedBlock<T>(s: State<T>, k: nat, i: nat)
    requires Freeable(s, k) && i < |s.blocks| && i != k
    ensures var j := if i < k then i else i - 1;
      && j < |Freed(s, k).blocks|
      && Freed(s, k).handles[j] == s.handles[i]
      && Freed(s, k).blocks[j] == if i < k then s.blocks[i] else Block(s.blocks[i].size, s.blocks[i].ptr - s.blocks[k].size)
  {
    hide Moved;
    if i > k {
      assert s.blocks[k + 1..][i - k - 1] == s.blocks[i];
    }
  }

  /** Freeing one block leaves the bytes of every other block as they were, read through the
      updated pointers. */
  lemma FreeKeepsContents<T>(s: State<T>, k: nat, i: nat)
    requires Valid(s) && k < |s.handles| && i < |s.handles| && i != k
    ensures Freeable(s, k)
    ensures var t, j := Freed(s, k), if i < k then i else i - 1;
      && j < |t.blocks| == |t.handles| && t.handles[j] == s.handles[i]
      && s.blocks[i].ptr + s.blocks[i].size <= |s.memory|
      && t.blocks[j].ptr + t.blocks[j].size <= |t.memory|
      && Content(t, j) == Content(s, i)
  {
    hide Tiled, Moved, Distinct, Lowered;
    FreeIsPossible(s, k);
    FreedBlock(s, k, i);
    BlocksAround(s.blocks, k, i, Top(s));
    var x, b := s.blocks[i], s.blocks[k];
    if k + 1 < |s.blocks| {
      var src := s.blocks[k + 1].ptr;
      if i < k {
        MovedBelow(s.memory, b.ptr, src, Top(s) - src, x.ptr, x.ptr + x.size);
      } else {
        MovedAbove(s.memory, b.ptr, src, Top(s) - src, x.ptr, x.ptr + x.size);
      }
    }
  }
}
