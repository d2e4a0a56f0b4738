/** utils/src/mmem.c itself: the memory is compacted in place, and the list of handles
    walked, on every free. */
module Mmem {
  import opened Common
  import opened Buffers
  import opened LinkedList
  import opened MmemSpec

  /** Pointers into the memory are offsets from its start.  blocks are the fields of the
      handles on the list. */
  class Allocator {
    const memory: array<bv8>
    var avail: nat
    const list: List<Block>
    ghost var blocks: seq<Block>

    ghost predicate Tied()
      reads `blocks, list`items, list.items`val
    {
      && |blocks| == |list.items|
      && forall i {:trigger list.items[i].val} | 0 <= i < |blocks| :: list.items[i].val == blocks[i]
    }

    ghost predicate Linked()
      reads this, list, list.items
    {
      list.Valid() && Tied() && avail <= memory.Length
    }

    ghost function Abs(): State<Item<Block>>
      reads this, memory, list`items
    {
      State(list.items, blocks, memory[..], avail)
    }

    /** mmem_init; size is MMEM_SIZE. */
    constructor (size: nat)
      ensures Linked() && MmemSpec.Valid(Abs())
      ensures memory.Length == avail == size && list.items == [] && fresh(memory) && fresh(list)
    {
      memory := new bv8[size](_ => 0);
      avail := size;
      list := new List<Block>();
      blocks := [];
    }

    method Alloc(m: Item<Block>, size: nat) returns (ok: bool)
      requires Linked()
      modifies this, list, list.items`next, m
      ensures Linked()
      ensures (Abs(), ok) == MmemSpec.Alloc(old(Abs()), m, size)
    {
      if avail < size {
        return false;
      }
      AddHandle(m);
      FillIn(m, size);
      avail := avail - size;
      return true;
    }

    method FillIn(m: Item<Block>, size: nat)
      requires Linked() && Last(list.items) == m && m !in list.items[..|list.items| - 1]
      modifies `blocks, m`val
      ensures Linked() && blocks == old(blocks[..|blocks| - 1]) + [Block(size, memory.Length - avail)]
    {
      m.val := m.val.(ptr := memory.Length - avail);
      m.val := m.val.(size := size);
      blocks := blocks[..|blocks| - 1] + [m.val];
    }

    method AddHandle(m: Item<Block>)
      requires Linked()
      modifies `blocks, list, list.items`next, m`next
      ensures Linked() && list.items == Without(old(list.items), m) + [m] && m !in list.items[..|list.items| - 1]
      ensures blocks == WithoutBlock(old(Abs()), m) + [m.val]
    {
      list.Add(m);
      DistinctWithout(old(list.items), m);
      blocks := WithoutBlock(old(Abs()), m) + [m.val];
      forall i | 0 <= i < |list.items| - 1
        ensures |blocks| == |list.items| && list.items[i].val == blocks[i]
      {
        var j := PlaceBefore(old(Abs()), m, i);
        assert old(list.items[j].val) == old(blocks[j]);
      }
      SameLength(old(Abs()), m);
    }

    lemma SameLength(s: State<Item<Block>>, m: Item<Block>)
      requires |s.handles| == |s.blocks|
      ensures |WithoutBlock(s, m)| == |Without(s.handles, m)|
    {
      if m in s.handles {
        WithoutAt(s.handles, IndexOf(s.handles, m));
      } else {
        WithoutAbsent(s.handles, m);
      }
    }

    lemma PlaceBefore(s: State<Item<Block>>, m: Item<Block>, i: nat) returns (j: nat)
      requires |s.handles| == |s.blocks| && i < |Without(s.handles, m)|
      ensures |WithoutBlock(s, m)| == |Without(s.handles, m)|
      ensures j < |s.handles| && Without(s.handles, m)[i] == s.handles[j] && WithoutBlock(s, m)[i] == s.blocks[j]
    {
      hide Without, IndexOf;
      j := i;
      if m in s.handles {
        var k := IndexOf(s.handles, m);
        WithoutAt(s.handles, k);
        Skipped(s.handles, k, i);
        Skipped(s.blocks, k, i);
        j := if i < k then i else i + 1;
      } else {
        WithoutAbsent(s.handles, m);
      }
    }

    static lemma Skipped<T>(s: seq<T>, k: nat, i: nat)
      requires k < |s| && i < |s| - 1
      ensures (s[..k] + s[k + 1..])[i] == s[if i < k then i else i + 1]
    {}

    method Memmove(dst: nat, src: nat, n: nat)
      requires dst <= src && src + n <= memory.Length
      modifies memory
      ensures memory[..] == Moved(old(memory[..]), dst, src, n)
    {
      var i := 0;
      assert memory[..] == Moved(memory[..], dst, src, 0);
      while i < n
        invariant 0 <= i <= n
        invariant memory[..] == Moved(old(memory[..]), dst, src, i)
      {
        MovedStep(old(memory[..]), dst, src, i);
        memory[dst + i] := memory[..][src + i];
        i := i + 1;
      }
    }

    /** The loop of mmem_free: every block behind the k-th one moves down. */
    method LowerPointers(m: Item<Block>, ghost k: nat)
      requires Linked() && k < |list.items| && m == list.items[k]
      requires forall i | k < i < |blocks| :: m.val.size <= blocks[i].ptr
      modifies `blocks, list.items`val
      ensures Linked() && blocks == old(blocks[..k + 1] + Lowered(blocks[k + 1..], m.val.size))
      ensures m.val == old(m.val)
    {
      assert list.items[k].next == Succ(list.items, k);
      var n := m.next;
      ghost var size, j := m.val.size, k + 1;
      while n != null
        invariant k < j <= |list.items| && n == (if j < |list.items| then list.items[j] else null)
        invariant list.Valid() && Tied() && m.val == old(m.val)
        invariant blocks == old(blocks[..k + 1] + Lowered(blocks[k + 1..j], size) + blocks[j..])
        decreases |list.items| - j
      {
        LowerOne(n, m, j);
        LoweredMore(old(blocks), k, j, size);
        assert list.items[j].next == Succ(list.items, j);
        n := n.next;
        j := j + 1;
      }
      assert old(blocks[k + 1..j]) == old(blocks[k + 1..]);
    }

    lemma LoweredMore(was: seq<Block>, k: nat, j: nat, size: nat)
      requires k < j < |was| && forall i | k < i < |was| :: size <= was[i].ptr
      ensures var now := was[..k + 1] + Lowered(was[k + 1..j], size) + was[j..];
        && now[j] == was[j]
        && now[j := Block(was[j].size, was[j].ptr - size)]
           == was[..k + 1] + Lowered(was[k + 1..j + 1], size) + was[j + 1..]
    {}

    method LowerOne(n: Item<Block>, m: Item<Block>, ghost j: nat)
      requires list.Valid() && Tied() && j < |blocks| && n == list.items[j] && n != m && m in list.items
      requires m.val.size <= blocks[j].ptr
      modifies `blocks, n`val
      ensures Tied() && blocks == old(blocks)[j := Block(old(blocks)[j].size, old(blocks)[j].ptr - m.val.size)]
    {
      assert n.val == blocks[j];
      n.val := n.val.(ptr := n.val.ptr - m.val.size);
      blocks := blocks[j := Block(blocks[j].size, blocks[j].ptr - m.val.size)];
    }

    /** The first half of mmem_free: the blocks behind the k-th one move down over it. */
    method Compact(m: Item<Block>, ghost k: nat)
      requires Linked() && Freeable(Abs(), k) && m == list.items[k]
      modifies memory, `blocks, list.items`val
      ensures Linked() && m.val == old(m.val)
      ensures memory[..] == Freed(old(Abs()), k).memory
      ensures blocks == old(blocks[..k + 1] + Lowered(blocks[k + 1..], m.val.size))
    {
      hide Moved, Lowered;
      assert list.items[k].next == Succ(list.items, k) && m.val == blocks[k];
      if m.next != null {
        assert m.next.val == blocks[k + 1];
        Memmove(m.val.ptr, m.next.val.ptr, memory.Length - avail - m.next.val.ptr);
        LowerPointers(m, k);
      } else {
        assert blocks == blocks[..k + 1] + Lowered(blocks[k + 1..], m.val.size);
      }
    }

    method Free(m: Item<Block>)
      requires Linked() && MmemSpec.Valid(Abs()) && m in list.items
      modifies this, memory, list, list.items
      ensures Linked() && Freeable(old(Abs()), IndexOf(old(list.items), m))
      ensures Abs() == Freed(old(Abs()), IndexOf(old(list.items), m))
    {
      hide MmemSpec.Tiled, Moved, Lowered, Distinct;
      ghost var k := IndexOf(list.items, m);
      FreeKeeps(Abs(), k);
      assert Freed(Abs(), k).avail == avail + blocks[k].size;
      assert m.val == blocks[k];
      Compact(m, k);
      TakeOut(m, k);
      avail := avail + m.val.size;
    }

    method TakeOut(m: Item<Block>, ghost k: nat)
      requires list.Valid() && Tied() && k < |list.items| && list.items[k] == m
      modifies `blocks, list, list.items`next
      ensures list.Valid() && Tied()
      ensures list.items == old(list.items[..k] + list.items[k + 1..])
      ensures blocks == old(blocks[..k] + blocks[k + 1..])
    {
      list.Remove(m);
      WithoutAt(old(list.items), k);
      blocks := blocks[..k] + blocks[k + 1..];
    }
  }
}
