/** utils/src/list.c: singly linked lists whose links are inside the items. */
module LinkedList {
  import opened Common

  /** The item's link, and whatever else the structure holds. */
  class Item<P> {
    var next: Item?<P>
    var val: P

    constructor (val: P)
      ensures next == null && this.val == val
    {
      next := null;
      this.val := val;
    }
  }

  /** s without its first x. */
  function Without<T(==)>(s: seq<T>, x: T): (r: seq<T>) {
    if s == [] then []
    else if s[0] == x then s[1..]
    else [s[0]] + Without(s[1..], x)
  }

  lemma {:induction false} WithoutAt<T>(s: seq<T>, k: nat)
    requires k < |s| && s[k] !in s[..k]
    ensures Without(s, s[k]) == s[..k] + s[k + 1..]
  {
    if k > 0 {
      assert s[0] in s[..k];
      assert s[1..][..k - 1] == s[..k][1..];
      WithoutAt(s[1..], k - 1);
      assert s[..k] == [s[0]] + s[1..][..k - 1];
    }
  }

  lemma {:induction false} WithoutAbsent<T>(s: seq<T>, x: T)
    requires x !in s
    ensures Without(s, x) == s
  {
    if s != [] {
      WithoutAbsent(s[1..], x);
      assert s == [s[0]] + s[1..];
    }
  }

  lemma DistinctHalves<T>(s: seq<T>, k: nat)
    requires Distinct(s) && k < |s|
    ensures Distinct(s[..k] + s[k + 1..]) && s[k] !in s[..k] + s[k + 1..]
  {}

  lemma MembersOfHalves<T>(s: seq<T>, k: nat)
    requires Distinct(s) && k < |s|
    ensures forall y :: y in s[..k] + s[k + 1..] <==> y in s && y != s[k]
    ensures var r := s[..k] + s[k + 1..]; forall i | 0 <= i < |r| :: r[i] in s
  {
    assert s == s[..k] + [s[k]] + s[k + 1..];
    DistinctHalves(s, k);
  }

  lemma DistinctWithout<T>(s: seq<T>, x: T)
    requires Distinct(s)
    ensures Distinct(Without(s, x)) && x !in Without(s, x)
    ensures forall y :: y in Without(s, x) <==> y in s && y != x
    ensures forall i | 0 <= i < |Without(s, x)| :: Without(s, x)[i] in s
  {
    if x in s {
      var k := IndexOf(s, x);
      WithoutAt(s, k);
      DistinctHalves(s, k);
      MembersOfHalves(s, k);
    } else {
      WithoutAbsent(s, x);
    }
  }

  lemma DistinctInsert<T>(s: seq<T>, k: nat, x: T)
    requires Distinct(s) && k <= |s| && x !in s
    ensures Distinct(s[..k] + [x] + s[k..])
  {}

  function Succ<P>(s: seq<Item<P>>, i: nat): Item?<P> {
    if i + 1 < |s| then s[i + 1] else null
  }

  lemma NeighboursAfterRemove<P>(s: seq<Item<P>>, k: nat, i: nat) returns (j: nat)
    requires Distinct(s) && k < |s| && i < |s| - 1
    ensures j < |s| && j != k && (s[..k] + s[k + 1..])[i] == s[j] != s[k]
    ensures Succ(s[..k] + s[k + 1..], i) == if j + 1 == k then Succ(s, k) else Succ(s, j)
  {
    j := if i < k then i else i + 1;
  }

  lemma NeighboursAfterInsert<P>(s: seq<Item<P>>, k: nat, x: Item<P>, i: nat) returns (j: nat)
    requires Distinct(s) && k <= |s| && i <= |s| && i != k && x !in s
    ensures j < |s| && (s[..k] + [x] + s[k..])[i] == s[j] != x
    ensures Succ(s[..k] + [x] + s[k..], i) == if j + 1 == k then x else Succ(s, j)
  {
    j := if i < k then i else i - 1;
  }

  function First<P>(s: seq<Item<P>>): Item?<P> {
    if s == [] then null else s[0]
  }

  function Last<P>(s: seq<Item<P>>): Item?<P> {
    if s == [] then null else s[|s| - 1]
  }

  /** The cell that holds the head pointer.  items is what a walk along the links meets. */
  class List<P> {
    var head: Item?<P>
    ghost var items: seq<Item<P>>

    ghost predicate Valid()
      reads this, items`next
    {
      && Distinct(items) && head == First(items)
      && forall i {:trigger items[i].next} | 0 <= i < |items| :: items[i].next == Succ(items, i)
    }

    constructor ()
      ensures Valid() && items == []
    {
      head := null;
      items := [];
    }

    method Init()
      modifies this
      ensures Valid() && items == []
    {
      head := null;
      items := [];
    }

    method Tail() returns (l: Item?<P>)
      requires Valid()
      ensures l == Last(items)
    {
      if head == null {
        return null;
      }
      l := head;
      ghost var k := 0;
      while l.next != null
        invariant k < |items| && l == items[k]
        decreases |items| - k
      {
        l := l.next;
        k := k + 1;
      }
    }

    method Length() returns (n: nat)
      requires Valid()
      ensures n == |items|
    {
      n := 0;
      var l := head;
      while l != null
        invariant n <= |items| && l == if n < |items| then items[n] else null
        decreases |items| - n
      {
        assert items[n].next == Succ(items, n);
        l := l.next;
        n := n + 1;
      }
    }

    /** The item is taken out wherever it is; if it is not there, nothing happens. */
    method Remove(item: Item<P>)
      requires Valid()
      modifies `head, `items, items`next
      ensures Valid() && items == Without(old(items), item) 
      ensures forall i | 0 <= i < |items| :: items[i] in old(items)
      ensures item in old(items) ==> item.next == null
    {
      DistinctWithout(items, item);
      var r: Item?<P> := null;
      var l := head;
      ghost var k := 0;
      while l != null
        invariant 0 <= k <= |items| && l == (if k < |items| then items[k] else null)
        invariant r == if k == 0 then null else items[k - 1]
        invariant item !in items[..k]
        decreases |items| - k
      {
        assert items[k].next == Succ(items, k);
        if l == item {
          Unlink(r, l, k);
          return;
        }
        assert items[..k + 1] == items[..k] + [items[k]];
        r := l;
        l := l.next;
        k := k + 1;
      }
      WithoutAbsent(items, item);
    }

    method Unlink(r: Item?<P>, l: Item<P>, ghost k: nat)
      requires Valid() && k < |items| && l == items[k]
      requires r == if k == 0 then null else items[k - 1]
      modifies `head, `items, items`next
      ensures Valid() && items == Without(old(items), l) && l.next == null
    {
      assert items[k].next == Succ(items, k);
      if r == null {
        head := l.next;
      } else {
        r.next := l.next;
      }
      l.next := null;
      WithoutAt(items, k);
      DistinctHalves(items, k);
      items := items[..k] + items[k + 1..];
      forall i | 0 <= i < |items| ensures items[i].next == Succ(items, i) {
        var j := NeighboursAfterRemove(old(items), k, i);
        assert old(items[j].next) == Succ(old(items), j);
      }
    }

    method Add(item: Item<P>)
      requires Valid()
      modifies `head, `items, items`next, item`next
      ensures Valid() && items == Without(old(items), item) + [item]
    {
      DistinctWithout(items, item);
      Remove(item);
      item.next := null;
      var l := Tail();
      Append(l, item);
    }

    method Append(l: Item?<P>, item: Item<P>)
      requires Valid() && l == Last(items) && item !in items && item.next == null
      modifies `head, `items, items`next
      ensures Valid() && items == old(items) + [item]
    {
      if l == null {
        head := item;
      } else {
        l.next := item;
      }
      items := items + [item];
    }

    method Push(item: Item<P>)
      requires Valid()
      modifies `head, `items, items`next, item`next
      ensures Valid() && items == [item] + Without(old(items), item)
    {
      DistinctWithout(items, item);
      Remove(item);
      item.next := head;
      head := item;
      items := [item] + items;
    }

    /** Takes off the last item. */
    method Chop() returns (r: Item?<P>)
      requires Valid()
      modifies `head, `items, items`next
      ensures Valid() && r == Last(old(items))
      ensures items == if old(items) == [] then [] else old(items)[..|old(items)| - 1]
    {
      if head == null {
        return null;
      }
      assert items[0].next == Succ(items, 0);
      if head.next == null {
        r := head;
        head := null;
        items := [];
        return;
      }
      var l := head;
      ghost var k := 0;
      assert items[1].next == Succ(items, 1);
      while l.next.next != null
        invariant k + 1 < |items| && l == items[k] && l.next == items[k + 1]
        invariant l.next.next == Succ(items, k + 1)
        decreases |items| - k
      {
        l := l.next;
        k := k + 1;
        assert items[k + 1].next == Succ(items, k + 1);
      }
      r := l.next;
      l.next := null;
      items := items[..k + 1];
    }

    /** Takes off the first item.  Unlike Remove, it leaves that item's link as it was. */
    method Pop() returns (l: Item?<P>)
      requires Valid()
      modifies `head, `items
      ensures Valid() && l == First(old(items))
      ensures items == if old(items) == [] then [] else old(items)[1..]
    {
      l := head;
      if head != null {
        assert items[0].next == Succ(items, 0);
        head := head.next;
        items := items[1..];
      }
    }

    /** The new item goes right after previtem, or to the front.  Only in front is a previous
        occurrence taken out first. */
    method Insert(previtem: Item?<P>, newitem: Item<P>)
      requires Valid()
      requires previtem != null ==> previtem in items && newitem !in items
      modifies `head, `items, items`next, newitem`next
      ensures Valid()
      ensures previtem == null ==> items == [newitem] + Without(old(items), newitem)
      ensures previtem != null ==>
        var k := IndexOf(old(items), previtem);
        items == old(items)[..k + 1] + [newitem] + old(items)[k + 1..]
    {
      if previtem == null {
        Push(newitem);
      } else {
        ghost var k := IndexOf(items, previtem);
        assert items[k].next == Succ(items, k);
        newitem.next := previtem.next;
        previtem.next := newitem;
        DistinctInsert(items, k + 1, newitem);
        items := items[..k + 1] + [newitem] + items[k + 1..];
        forall i | 0 <= i < |items| ensures items[i].next == Succ(items, i) {
          if i != k + 1 {
            var j := NeighboursAfterInsert(old(items), k + 1, newitem, i);
            assert old(items[j].next) == Succ(old(items), j);
          }
        }
      }
    }
  }
}
