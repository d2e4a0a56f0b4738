/** utils/src/ringbufindex.c: a ring of indices for one producer and one consumer. */
module RingBufIndex {
  import opened Buffers

  // ---------------------------------------------------------------- The ring on numbers

  /** The elements between get and put in a ring of n. */
  function Between(put: nat, get: nat, n: nat): nat
    requires put < n && get < n
  {
    if put >= get then put - get else n + put - get
  }

  // ---------------------------------------------------------------- The masked bytes

  predicate IsMask(mask: bv8) {
    mask & (mask + 1) == 0
  }

  lemma MaskedNext(p: bv8, mask: bv8)
    requires IsMask(mask) && p <= mask
    ensures MaskedUp(p, mask) == if p == mask then 0 else Sum(p, 1)
  {}

  function Minus(a: bv8, b: bv8): bv8 { a - b }

  function Sum(a: bv8, b: bv8): bv8 { a + b }

  /** The expression that every operation starts from: the elements in the ring. */
  function Masked(p: bv8, g: bv8, mask: bv8): bv8 { (p - g) & mask }

  function MaskedUp(p: bv8, mask: bv8): bv8 { (p + 1) & mask }

  lemma NoBorrow(p: bv8, g: bv8, mask: bv8)
    requires IsMask(mask) && g <= p <= mask
    ensures Masked(p, g, mask) == Minus(p, g)
  {}

  lemma Borrow(p: bv8, g: bv8, mask: bv8)
    requires IsMask(mask) && p < g <= mask
    ensures p <= Masked(p, g, mask) && Minus(Masked(p, g, mask), p) == Minus(mask, g - 1)
  {}

  /** The number that a byte holds. */
  function Num(b: bv8): nat { b as int }

  lemma NumZero()
    ensures Num(0) == 0
  {}

  lemma NumNext(b: bv8)
    requires b < 0xff
    ensures Num(Sum(b, 1)) == Num(b) + 1
  {}

  lemma NumOrder(p: bv8, g: bv8)
    ensures p <= g <==> Num(p) <= Num(g)
  {}

  lemma NumInjective(p: bv8, g: bv8)
    requires Num(p) == Num(g)
    ensures p == g
  {}

  lemma StepDown(p: bv8, g: bv8)
    requires 0 < g <= p
    ensures Sum(Minus(p, g), 1) == Minus(p, g - 1) && Minus(p, g) < 0xff && Sum(g - 1, 1) == g && g - 1 < 0xff
  {}

  lemma {:induction false} NumDifference(p: bv8, g: bv8)
    requires g <= p
    ensures Num(Minus(p, g)) == Num(p) - Num(g)
    decreases g
  {
    hide Num, Sum;
    NumZero();
    if g > 0 {
      hide Minus;
      NumDifference(p, g - 1);
      StepDown(p, g);
      NumNext(Minus(p, g));
      NumNext(g - 1);
    }
  }

  /** The number of elements is the distance round the ring. */
  lemma MaskedIsBetween(p: bv8, g: bv8, mask: bv8)
    requires IsMask(mask) && p <= mask && g <= mask
    ensures Num(p) <= Num(mask) && Num(g) <= Num(mask)
    ensures Num(Masked(p, g, mask)) == Between(Num(p), Num(g), Num(mask) + 1)
  {
    hide Num, Masked, Minus, Sum;
    NumOrder(p, mask);
    NumOrder(g, mask);
    NumOrder(g, p);
    if p >= g {
      NoBorrow(p, g, mask);
      NumDifference(p, g);
    } else {
      Borrow(p, g, mask);
      NumDifference(Masked(p, g, mask), p);
      NumDifference(mask, g - 1);
      StepDown(g, g);
      NumNext(g - 1);
    }
  }

  lemma Above(p: bv8, mask: bv8)
    requires p < mask
    ensures p < 0xff && Sum(p, 1) <= mask
  {}

  lemma MaskedIsNext(p: bv8, mask: bv8)
    requires IsMask(mask) && p <= mask
    ensures MaskedUp(p, mask) <= mask && Num(p) <= Num(mask)
    ensures Num(MaskedUp(p, mask)) == Next(Num(p), Num(mask) + 1)
  {
    hide Num, MaskedUp, Sum;
    MaskedNext(p, mask);
    NumOrder(p, mask);
    NumOrder(mask, p);
    NumZero();
    if p < mask {
      Above(p, mask);
      NumNext(p);
      NumOrder(Sum(p, 1), mask);
    }
  }

  // ---------------------------------------------------------------- The operations

  class Ring {
    var mask: bv8
    var putPtr: bv8
    var getPtr: bv8

    ghost predicate Valid()
      reads this
    {
      IsMask(mask) && putPtr <= mask && getPtr <= mask
    }

    /** The ring's size and the two indices, as numbers. */
    ghost function Size(): (n: nat)
      reads this
      ensures n > 0
    {
      Num(mask) + 1
    }

    /** ringbufindex_init.  A size of 0 stands for 256. */
    constructor (size: bv8)
      requires size & (size - 1) == 0
      ensures Valid() && Num(putPtr) == Num(getPtr) == 0
      ensures Size() == if size == 0 then 256 else Num(size)
    {
      mask := size - 1;
      putPtr := 0;
      getPtr := 0;
      new;
      SizeNum(size);
      SizeMask(size);
    }

    lemma SizeMask(size: bv8)
      requires size & (size - 1) == 0
      ensures IsMask(size - 1)
    {}

    lemma SizeNum(size: bv8)
      ensures Num(0) == 0
      ensures Num(size - 1) + 1 == if size == 0 then 256 else Num(size)
    {
      if size != 0 {
        StepDown(size, size);
        NumNext(size - 1);
      }
    }

    ghost predicate Bounds()
      reads this
    {
      Num(putPtr) < Size() && Num(getPtr) < Size()
    }

    ghost function Count(): nat
      requires Bounds()
      reads this
    {
      Between(Num(putPtr), Num(getPtr), Size())
    }

    /** ringbufindex_elements. */
    method Elements() returns (n: bv8)
      requires Valid()
      ensures Bounds() && Num(n) == Count()
    {
      hide Num, Masked, MaskedUp, IsMask;
      MaskedIsBetween(putPtr, getPtr, mask);
      n := Masked(putPtr, getPtr, mask);
    }

    /** ringbufindex_full. */
    method Full() returns (full: bool)
      requires Valid()
      ensures Bounds() && full == (Count() == Size() - 1)
    {
      hide Num, Masked, MaskedUp, IsMask;
      MaskedIsBetween(putPtr, getPtr, mask);
      full := Masked(putPtr, getPtr, mask) == mask;
      if Count() == Size() - 1 {
        NumInjective(Masked(putPtr, getPtr, mask), mask);
      }
    }

    /** ringbufindex_empty. */
    method Empty() returns (empty: bool)
      requires Valid()
      ensures Bounds() && empty == (Count() == 0)
    {
      hide Num, Masked, MaskedUp, IsMask;
      var n := Elements();
      empty := n == 0;
      NumZero();
      if Num(n) == 0 {
        NumInjective(n, 0);
      }
    }

    /** ringbufindex_put. */
    method Put() returns (ok: bool)
      requires Valid()
      modifies `putPtr
      ensures Valid() && old(Bounds()) && ok == (old(Count()) < Size() - 1)
      ensures Num(putPtr) == if ok then Next(old(Num(putPtr)), Size()) else old(Num(putPtr))
    {
      hide Num, Masked, MaskedUp, IsMask;
      var full := Full();
      if full {
        return false;
      }
      MaskedIsNext(putPtr, mask);
      putPtr := MaskedUp(putPtr, mask);
      return true;
    }

    /** ringbufindex_peek_put: where the next element goes, or -1. */
    method PeekPut() returns (index: int)
      requires Valid()
      ensures Bounds() && index == if Count() < Size() - 1 then Num(putPtr) else -1
    {
      var full := Full();
      if full {
        return -1;
      }
      return Num(putPtr);
    }

    /** ringbufindex_get: the index of the element removed, or -1. */
    method Get() returns (index: int)
      requires Valid()
      modifies `getPtr
      ensures Valid() && old(Bounds()) && index == if old(Count()) > 0 then old(Num(getPtr)) else -1
      ensures Num(getPtr) == if index >= 0 then Next(old(Num(getPtr)), Size()) else old(Num(getPtr))
    {
      hide Num, Masked, MaskedUp, IsMask;
      var empty := Empty();
      if !empty {
        index := Num(getPtr);
        MaskedIsNext(getPtr, mask);
        getPtr := MaskedUp(getPtr, mask);
      } else {
        return -1;
      }
    }

    /** ringbufindex_peek_get. */
    method PeekGet() returns (index: int)
      requires Valid()
      ensures Bounds() && index == if Count() > 0 then Num(getPtr) else -1
    {
      var empty := Empty();
      if !empty {
        return Num(getPtr);
      } else {
        return -1;
      }
    }
  }
}
