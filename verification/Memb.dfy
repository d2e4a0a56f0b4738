/** utils/src/memb.c: a pool of blocks of one size, with a count for every block. */
module Memb {
  // ---------------------------------------------------------------- Counts, as values

  function NumFree(count: seq<nat>): (r: nat)
    ensures r <= |count|
  {
    if count == [] then 0 else (if count[0] == 0 then 1 else 0) + NumFree(count[1..])
  }

  /** n free blocks, and at least one, start at i. */
  ghost predicate FreeRun(count: seq<nat>, i: int, n: int) {
    && 0 <= i < |count| && count[i] == 0 && i + n <= |count|
    && forall k | i <= k < i + n :: count[k] == 0
  }

  /** The counts of the n blocks from i on, one higher. */
  function Taken(count: seq<nat>, i: nat, n: int): (r: seq<nat>)
    ensures |r| == |count|
  {
    seq(|count|, k requires 0 <= k < |count| => if i <= k < i + n then count[k] + 1 else count[k])
  }

  /** The counts of the n blocks from i on, one lower where they are not 0. */
  function Released(count: seq<nat>, i: nat, n: int): (r: seq<nat>)
    ensures |r| == |count|
  {
    seq(|count|, k requires 0 <= k < |count| =>
      if i <= k < i + n && count[k] > 0 then count[k] - 1 else count[k])
  }

  /** memb_freem undoes memb_allocm, and memb_free undoes memb_alloc. */
  lemma ReleasedTaken(count: seq<nat>, i: nat, n: int)
    ensures Released(Taken(count, i, n), i, n) == count
  {}

  lemma {:induction false} NumFreeJoin(a: seq<nat>, b: seq<nat>)
    ensures NumFree(a + b) == NumFree(a) + NumFree(b)
  {
    if a == [] {
      assert a + b == b;
    } else {
      assert (a + b)[1..] == a[1..] + b;
      NumFreeJoin(a[1..], b);
    }
  }

  lemma {:induction false} NumFreeAll(a: seq<nat>)
    ensures (forall k | 0 <= k < |a| :: a[k] == 0) ==> NumFree(a) == |a|
    ensures (forall k | 0 <= k < |a| :: a[k] != 0) ==> NumFree(a) == 0
  {
    if a != [] {
      NumFreeAll(a[1..]);
    }
  }

  lemma NumFreeMiddle(a: seq<nat>, b: seq<nat>, b': seq<nat>, c: seq<nat>)
    requires forall k | 0 <= k < |b| :: b[k] == 0
    requires forall k | 0 <= k < |b'| :: b'[k] != 0
    ensures NumFree(a + b' + c) == NumFree(a + b + c) - |b|
  {
    NumFreeJoin(a + b, c);
    NumFreeJoin(a, b);
    NumFreeJoin(a + b', c);
    NumFreeJoin(a, b');
    NumFreeAll(b);
    NumFreeAll(b');
  }

  /** Taking n free blocks leaves n fewer of them. */
  lemma TakenNumFree(count: seq<nat>, i: nat, n: nat)
    requires FreeRun(count, i, n)
    ensures NumFree(Taken(count, i, n)) == NumFree(count) - n
  {
    var t := Taken(count, i, n);
    var a, b, b', c := count[..i], count[i..i + n], t[i..i + n], count[i + n..];
    assert count == a + b + c;
    assert t == a + b' + c;
    NumFreeMiddle(a, b, b', c);
  }

  // ---------------------------------------------------------------- The pool

  const NULL: nat := 0

  /** mem is the address of the first block. */
  class Pool {
    const size: nat
    const mem: nat
    const count: array<nat>

    ghost predicate Valid()
    {
      size > 0 && mem > 0
    }

    function Address(i: nat): nat { mem + i * size }

    /** memb_init of a pool of num blocks. */
    constructor (size: nat, mem: nat, num: nat)
      requires size > 0 && mem > 0
      ensures Valid() && this.size == size && this.mem == mem
      ensures fresh(count) && count[..] == seq(num, _ => 0)
    {
      this.size := size;
      this.mem := mem;
      count := new nat[num](_ => 0);
    }

    /** memb_alloc: the lowest free block, or NULL. */
    method Alloc() returns (ptr: nat, ghost at: int)
      requires Valid()
      modifies count
      ensures ptr == NULL ==> 0 !in old(count[..]) && count[..] == old(count[..])
      ensures ptr != NULL ==>
        && FreeRun(old(count[..]), at, 1) && 0 !in old(count[..at])
        && ptr == Address(at) && count[..] == Taken(old(count[..]), at, 1)
    {
      at := -1;
      for i := 0 to count.Length
        invariant 0 !in count[..i] && count[..] == old(count[..])
      {
        if count[i] == 0 {
          count[i] := count[i] + 1;
          at := i;
          return Address(i), at;
        }
      }
      assert count[..count.Length] == count[..];
      return NULL, at;
    }

    /** memb_allocm: the lowest run of n free blocks, or NULL if there is none.  After a run
        that is too short the search goes on behind the block that ended it. */
    method AllocMany(n: int) returns (ptr: nat, ghost at: int)
      requires Valid()
      modifies count
      ensures ptr == NULL ==>
        (forall k :: !FreeRun(old(count[..]), k, n)) && count[..] == old(count[..])
      ensures ptr != NULL ==>
        && FreeRun(old(count[..]), at, n) && (forall k | k < at :: !FreeRun(old(count[..]), k, n))
        && ptr == Address(at) && count[..] == Taken(old(count[..]), at, n)
    {
      ghost var c := count[..];
      at := -1;
      var i := 0;
      while i < count.Length
        invariant 0 <= i <= count.Length + 1 && count[..] == c
        invariant forall k | k < i :: !FreeRun(c, k, n)
        decreases count.Length - i
      {
        if count[i] == 0 {
          var j := ScanFree(i, n);
          if j < n {
            ShortRun(c, i, j, n);
            i := i + j;
          } else {
            at := i;
            Mark(i, n);
            return Address(i), at;
          }
        }
        i := i + 1;
      }
      return NULL, at;
    }

    lemma ShortRun(c: seq<nat>, i: nat, j: nat, n: int)
      requires i + j <= |c| && j < n && (i + j < |c| ==> c[i + j] != 0)
      requires forall k | k < i :: !FreeRun(c, k, n)
      ensures forall k | k <= i + j :: !FreeRun(c, k, n)
    {
      forall k | i <= k <= i + j ensures !FreeRun(c, k, n) {
        if i + j < |c| && k + n <= |c| && k != i + j {
          assert k <= i + j < k + n;
        }
      }
    }

    /** The inner loop: how many blocks are free from i on, up to n of them. */
    method ScanFree(i: nat, n: int) returns (j: nat)
      requires i < count.Length && count[i] == 0
      ensures i + j <= count.Length && (j <= n || j == 0)
      ensures forall k | i <= k < i + j :: count[k] == 0
      ensures j < n && i + j < count.Length ==> count[i + j] != 0
    {
      j := 0;
      while j + i < count.Length && j < n
        invariant i + j <= count.Length && (j <= n || j == 0)
        invariant forall k | i <= k < i + j :: count[k] == 0
      {
        if count[i + j] == 0 {
          j := j + 1;
          continue;
        } else {
          break;
        }
      }
    }

    method Mark(i: nat, n: int)
      requires i + n <= count.Length
      modifies count
      ensures count[..] == Taken(old(count[..]), i, n)
    {
      var j := 0;
      while j < n
        invariant 0 <= j && (j <= n || j == 0)
        invariant forall k | 0 <= k < count.Length ::
            count[k] == if i <= k < i + j then old(count[k]) + 1 else old(count[k])
      {
        count[i + j] := count[i + j] + 1;
        j := j + 1;
      }
    }

    /** The search of memb_free and memb_freem for the block at an address. */
    method Find(ptr: nat) returns (i: nat)
      requires Valid()
      ensures i <= count.Length && (i < count.Length ==> ptr == Address(i))
      ensures i == count.Length ==> forall k: nat | k < count.Length :: ptr != Address(k)
    {
      i := 0;
      var ptr2 := mem;
      while i < count.Length
        invariant i <= count.Length && ptr2 == Address(i)
        invariant forall k: nat | k < i :: ptr != Address(k)
      {
        if ptr2 == ptr {
          return;
        }
        AddressStep(i);
        ptr2 := ptr2 + size;
        i := i + 1;
      }
    }

    lemma AddressStep(i: nat)
      ensures Address(i + 1) == Address(i) + size
    {}

    /** memb_free: the new count of the block, or -1. */
    method Free(ptr: nat) returns (left: int, ghost at: nat)
      requires Valid()
      modifies count
      ensures at <= count.Length && (at < count.Length <==> exists k: nat :: k < count.Length && ptr == Address(k))
      ensures at < count.Length ==>
        ptr == Address(at) && count[..] == Released(old(count[..]), at, 1) && left == count[at]
      ensures at == count.Length ==> left == -1 && count[..] == old(count[..])
    {
      var i := Find(ptr);
      at := i;
      if i < count.Length {
        if count[i] > 0 {
          count[i] := count[i] - 1;
        }
        return count[i], at;
      }
      return -1, at;
    }

    /** memb_freem. */
    method FreeMany(ptr: nat, n: int) returns (left: int, ghost at: nat)
      requires Valid()
      modifies count
      ensures at <= count.Length && (at < count.Length <==> exists k: nat :: k < count.Length && ptr == Address(k))
      ensures at < count.Length ==>
        ptr == Address(at) && count[..] == Released(old(count[..]), at, n) && left == count[at]
      ensures at == count.Length ==> left == -1 && count[..] == old(count[..])
    {
      var i := Find(ptr);
      at := i;
      if i < count.Length {
        var j := 0;
        while i + j < count.Length && j < n
          invariant 0 <= j && i + j <= count.Length && (j <= n || j == 0)
          invariant forall k | 0 <= k < count.Length ::
              count[k] == if i <= k < i + j && old(count[k]) > 0 then old(count[k]) - 1 else old(count[k])
        {
          if count[i + j] > 0 {
            count[i + j] := count[i + j] - 1;
          }
          j := j + 1;
        }
        return count[i], at;
      }
      return -1, at;
    }

    /** memb_inmemb: true exactly for the addresses within one of the blocks. */
    method InMemb(ptr: nat) returns (inside: bool)
      requires Valid()
      ensures inside <==> exists i: nat :: i < count.Length && Address(i) <= ptr < Address(i + 1)
    {
      inside := ptr >= mem && ptr < mem + count.Length * size;
      if inside {
        BlockAt(ptr, count.Length);
      } else {
        forall i: nat | i < count.Length && Address(i) <= ptr ensures Address(i + 1) <= ptr {
          AddressGrows(0, i);
          AddressGrows(i + 1, count.Length);
        }
      }
    }

    lemma {:induction false} BlockAt(ptr: nat, n: nat)
      requires Valid() && mem <= ptr < Address(n)
      ensures exists i: nat :: i < n && Address(i) <= ptr < Address(i + 1)
    {
      if n > 0 && ptr < Address(n - 1) {
        BlockAt(ptr, n - 1);
      } else {
        assert n > 0;
        assert Address(n - 1 + 1) == Address(n);
      }
    }

    lemma AddressGrows(i: nat, j: nat)
      requires i <= j
      ensures Address(i) <= Address(j)
    {
      assert j * size == i * size + (j - i) * size;
    }

    /** memb_numfree. */
    method CountFree() returns (numFree: nat)
      ensures numFree == NumFree(count[..])
    {
      numFree := 0;
      for i := 0 to count.Length
        invariant numFree == NumFree(count[..i])
      {
        assert count[..i + 1] == count[..i] + [count[i]];
        NumFreeJoin(count[..i], [count[i]]);
        assert NumFree([count[i]]) == (if count[i] == 0 then 1 else 0) + NumFree([count[i]][1..]);
        if count[i] == 0 {
          numFree := numFree + 1;
        }
      }
      assert count[..count.Length] == count[..];
    }

    /** Different blocks have different addresses. */
    lemma AddressInjective(i: nat, j: nat)
      requires Valid() && Address(i) == Address(j)
      ensures i == j
    {
      assert (i - j) * size == 0;
    }
  }
}
