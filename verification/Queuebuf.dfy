/** utils/src/queuebuf.c in its default build: snapshots of the packet buffer in two pools of
    utils/src/memb.c. */
module Queuebuf {
  import opened Packetbuf
  import Memb

  /** struct queuebuf_data: the packet is the first len bytes of data. */
  datatype Stored = Stored(data: seq<bv8>, len: nat, attributes: Attributes)

  datatype Snapshot = Snapshot(payload: seq<bv8>, attributes: Attributes)

  predicate Whole(s: Stored) {
    s.len <= |s.data| == PACKETBUF_SIZE
  }

  function ToSnapshot(s: Stored): Snapshot
    requires Whole(s)
  {
    Snapshot(s.data[..s.len], s.attributes)
  }

  // ---------------------------------------------------------------- The pools, as values

  /** Pointers count blocks: the i-th block of a pool is at 1 + i.  live maps the queuebufs in
      use to what was put in them; ptrs are the queuebufs' pointers, ram the data blocks and
      ramUsed their counts. */
  datatype Pools = Pools(live: map<nat, Snapshot>, ptrs: seq<nat>, ramUsed: seq<nat>, ram: seq<Stored>)

  /** The queuebuf p has a data block, marked as used, that holds its snapshot. */
  ghost predicate Holds(s: Pools, p: nat)
    requires 1 <= p <= |s.ptrs| && p in s.live
  {
    var r := s.ptrs[p - 1];
    1 <= r <= |s.ram| == |s.ramUsed| && s.ramUsed[r - 1] == 1 && Whole(s.ram[r - 1]) && ToSnapshot(s.ram[r - 1]) == s.live[p]
  }

  /** No two live queuebufs have the same data block. */
  ghost predicate Unshared(s: Pools)
    requires forall p | p in s.live :: 1 <= p <= |s.ptrs|
  {
    forall p, q | p in s.live && q in s.live && p != q :: s.ptrs[p - 1] != s.ptrs[q - 1]
  }

  ghost predicate Stores(s: Pools) {
    && |s.ram| == |s.ramUsed|
    && (forall k | 0 <= k < |s.ram| :: |s.ram[k].data| == PACKETBUF_SIZE)
    && (forall p | p in s.live :: 1 <= p <= |s.ptrs| && Holds(s, p))
    && Unshared(s)
  }

  /** A queuebuf is marked as used if and only if it is live. */
  ghost predicate Marked(live: set<nat>, used: seq<nat>) {
    forall i | 0 <= i < |used| :: used[i] == if 1 + i in live then 1 else 0
  }

  /** The two pools move in step: the data block in use for a queuebuf is always the one with
      its own number, and a queuebuf that is not in use has no pointer to another one's. */
  ghost predicate Paired(live: set<nat>, ptrs: seq<nat>, ramUsed: seq<nat>) {
    Marked(live, ramUsed) && forall i | 0 <= i < |ptrs| :: ptrs[i] == 0 || ptrs[i] == 1 + i
  }

  /** Both pools give out their lowest free block, and that is the same one, as long as there
      are data blocks. */
  lemma LowestAgree(live: set<nat>, used: seq<nat>, ramUsed: seq<nat>, at: nat, r: nat)
    requires Marked(live, used) && Marked(live, ramUsed)
    requires at < |used| && used[at] == 0 && 0 !in used[..at]
    requires 1 <= r <= |ramUsed| && ramUsed[r - 1] == 0 && 0 !in ramUsed[..r - 1]
    requires forall p | p in live :: 1 <= p <= |used|
    ensures r == 1 + at
  {
    var low := if at < r - 1 then at else r - 1;
    assert low < |used| && low < |ramUsed| && used[low] == ramUsed[low];
    assert forall k | 0 <= k < at :: used[k] == used[..at][k] != 0;
    assert forall k | 0 <= k < r - 1 :: ramUsed[k] == ramUsed[..r - 1][k] != 0;
  }

  lemma PairedNext(live: set<nat>, ptrs: seq<nat>, ramUsed: seq<nat>, p: nat)
    requires Paired(live, ptrs, ramUsed) && 1 <= p <= |ramUsed| && p <= |ptrs| && ramUsed[p - 1] == 0
    ensures Paired(live + {p}, ptrs[p - 1 := p], Memb.Taken(ramUsed, p - 1, 1))
  {
    MarkedNext(live, ramUsed, p - 1);
  }

  /** Freeing a queuebuf that is not in use changes no count of either pool. */
  lemma StaleFree(live: set<nat>, used: seq<nat>, p: nat)
    requires Marked(live, used) && 1 <= p <= |used| && p !in live
    ensures Memb.Released(used, p - 1, 1) == used
  {}

  lemma MarkedNext(live: set<nat>, used: seq<nat>, at: nat)
    requires Marked(live, used) && at < |used| && used[at] == 0
    ensures 1 + at !in live && Marked(live + {1 + at}, Memb.Taken(used, at, 1))
  {}

  lemma MarkedLess(live: set<nat>, used: seq<nat>, p: nat)
    requires Marked(live, used) && 1 <= p <= |used| && p in live
    ensures Marked(live - {p}, Memb.Released(used, p - 1, 1))
  {}

  lemma TakingData(s: Pools, p: nat, at: nat)
    requires Stores(s) && 1 <= p <= |s.ptrs| && p !in s.live && at < |s.ramUsed| && s.ramUsed[at] == 0
    ensures var t := s.(ramUsed := Memb.Taken(s.ramUsed, at, 1), ptrs := s.ptrs[p - 1 := 1 + at]);
      Stores(t) && t.ramUsed[at] == 1 && forall q | q in t.live :: t.ptrs[q - 1] != 1 + at
  {
    var t := s.(ramUsed := Memb.Taken(s.ramUsed, at, 1), ptrs := s.ptrs[p - 1 := 1 + at]);
    forall q | q in s.live ensures t.ptrs[q - 1] != 1 + at && Holds(t, q) {
      assert Holds(s, q);
    }
  }

  lemma TakingNothing(s: Pools, p: nat, x: nat)
    requires Stores(s) && 1 <= p <= |s.ptrs| && p !in s.live
    ensures Stores(s.(ptrs := s.ptrs[p - 1 := x]))
  {
    var t := s.(ptrs := s.ptrs[p - 1 := x]);
    forall q | q in s.live ensures Holds(t, q) {
      assert Holds(s, q);
    }
  }

  lemma Committing(s: Pools, p: nat, r: nat, data: Stored)
    requires Stores(s) && 1 <= p <= |s.ptrs| && p !in s.live && s.ptrs[p - 1] == r
    requires 1 <= r <= |s.ram| && s.ramUsed[r - 1] == 1 && forall q | q in s.live :: s.ptrs[q - 1] != r
    requires Whole(data)
    ensures Stores(s.(live := s.live[p := ToSnapshot(data)], ram := s.ram[r - 1 := data]))
  {
    var t := s.(live := s.live[p := ToSnapshot(data)], ram := s.ram[r - 1 := data]);
    forall q | q in t.live ensures 1 <= q <= |t.ptrs| && Holds(t, q) {
      if q != p {
        assert Holds(s, q);
      }
    }
  }

  lemma Updating(s: Pools, p: nat, data: Stored)
    requires Stores(s) && p in s.live && Whole(data)
    ensures Holds(s, p)
    ensures Stores(s.(live := s.live[p := ToSnapshot(data)], ram := s.ram[s.ptrs[p - 1] - 1 := data]))
  {
    assert Holds(s, p);
    var t := s.(live := s.live[p := ToSnapshot(data)], ram := s.ram[s.ptrs[p - 1] - 1 := data]);
    forall q | q in t.live ensures 1 <= q <= |t.ptrs| && Holds(t, q) {
      if q != p {
        assert Holds(s, q) && s.ptrs[q - 1] != s.ptrs[p - 1];
      }
    }
  }

  lemma Freeing(s: Pools, p: nat)
    requires Stores(s) && p in s.live
    ensures Holds(s, p)
    ensures Stores(s.(live := s.live - {p}, ramUsed := Memb.Released(s.ramUsed, s.ptrs[p - 1] - 1, 1)))
  {
    assert Holds(s, p);
    var t := s.(live := s.live - {p}, ramUsed := Memb.Released(s.ramUsed, s.ptrs[p - 1] - 1, 1));
    forall q | q in t.live ensures 1 <= q <= |t.ptrs| && Holds(t, q) {
      assert Holds(s, q) && s.ptrs[q - 1] != s.ptrs[p - 1];
    }
  }

  // ---------------------------------------------------------------- The code

  class Queue {
    const bufmem: Memb.Pool
    const buframmem: Memb.Pool
    const ramPtr: array<nat>
    const ram: array<Stored>
    ghost var live: map<nat, Snapshot>

    ghost predicate Shape()
    {
      && bufmem.Valid() && buframmem.Valid() && bufmem.size == 1 == buframmem.size && bufmem.mem == 1 == buframmem.mem
      && ramPtr.Length == bufmem.count.Length && ram.Length == buframmem.count.Length
      && bufmem.count != buframmem.count && ramPtr != bufmem.count && ramPtr != buframmem.count
    }

    /** The packet buffer is no part of the pools. */
    ghost predicate Apart(packet: Packet) {
      var arrays: set<object> := {bufmem.count, buframmem.count, ramPtr, ram};
      packet.buf !in arrays
    }

    ghost function Abs(): Pools
      reads this, buframmem.count, ramPtr, ram
    {
      Pools(live, ramPtr[..], buframmem.count[..], ram[..])
    }

    ghost predicate Valid()
      reads this, bufmem.count, buframmem.count, ramPtr, ram
    {
      && Shape() && Marked(live.Keys, bufmem.count[..]) && Stores(Abs())
      && Paired(live.Keys, ramPtr[..], buframmem.count[..])
    }

    /** queuebuf_init, with QUEUEBUF_NUM and QUEUEBUFRAM_NUM. */
    constructor (num: nat, ramNum: nat, attributes: Attributes)
      ensures Valid() && live == map[] && ramPtr.Length == num && ram.Length == ramNum
      ensures fresh(bufmem.count) && fresh(buframmem.count) && fresh(ramPtr) && fresh(ram)
    {
      bufmem := new Memb.Pool(1, 1, num);
      buframmem := new Memb.Pool(1, 1, ramNum);
      ramPtr := new nat[num](_ => 0);
      ram := new Stored[ramNum](_ => Stored(seq(PACKETBUF_SIZE, _ => 0), 0, attributes));
      live := map[];
    }

    /** packetbuf_copyto and packetbuf_attr_copyto into a copy of a data block. */
    method CopyOut(packet: Packet, was: seq<bv8>) returns (s: Stored)
      requires packet.Valid() && |was| == PACKETBUF_SIZE
      ensures Whole(s) && ToSnapshot(s) == Snapshot(packet.Payload(), packet.attributes)
    {
      var to := new bv8[PACKETBUF_SIZE](i requires 0 <= i < PACKETBUF_SIZE => was[i]);
      var len := packet.CopyTo(to);
      assert to[..][..len] == to[..len];
      s := Stored(to[..], len, packet.attributes);
    }

    /** memb_alloc of a data block for the queuebuf p, which is not live yet. */
    method TakeData(p: nat) returns (r: nat)
      requires Shape() && Stores(Abs()) && 1 <= p <= ramPtr.Length && p !in live
      modifies buframmem.count, ramPtr
      ensures Stores(Abs()) && ramPtr[p - 1] == r
      ensures r == Memb.NULL <==> 0 !in old(buframmem.count[..])
      ensures r == Memb.NULL ==> buframmem.count[..] == old(buframmem.count[..])
      ensures r != Memb.NULL ==> 1 <= r <= ram.Length && buframmem.count[r - 1] == 1
      ensures r != Memb.NULL ==> forall q | q in live :: ramPtr[..][q - 1] != r
      ensures r != Memb.NULL ==>
        && old(buframmem.count[..])[r - 1] == 0 && 0 !in old(buframmem.count[..])[..r - 1]
        && buframmem.count[..] == Memb.Taken(old(buframmem.count[..]), r - 1, 1)
      ensures ramPtr[..] == old(ramPtr[..])[p - 1 := r]
    {
      hide Stores, Memb.Taken;
      ghost var at;
      ghost var s := Abs();
      r, at := buframmem.Alloc();
      if r != Memb.NULL {
        TakingData(s, p, at);
      } else {
        TakingNothing(s, p, r);
      }
      ramPtr[p - 1] := r;
      assert Abs() == s.(ramUsed := buframmem.count[..], ptrs := s.ptrs[p - 1 := r]);
    }
  
    /** queuebuf_new_from_packetbuf: NULL exactly when one of the two pools is used up. */
    method NewFromPacketbuf(packet: Packet) returns (p: nat)
      requires Valid() && packet.Valid() && Apart(packet)
      modifies this, bufmem.count, buframmem.count, ramPtr, ram
      ensures Valid()
      ensures p == Memb.NULL <==> old(0 !in bufmem.count[..] || 0 !in buframmem.count[..])
      ensures p == Memb.NULL ==> live == old(live)
      ensures p != Memb.NULL ==>
        p !in old(live) && live == old(live)[p := Snapshot(packet.Payload(), packet.attributes)]
    {
      hide Stores, Marked, Memb.Taken, Memb.Released;
      ghost var at;
      ghost var s, used := Abs(), bufmem.count[..];
      LiveInPool(s);
      p, at := bufmem.Alloc();
      if p != Memb.NULL {
        MarkedNext(live.Keys, used, at);
        assert p == 1 + at;
        var r := TakeData(p);
        if r == Memb.NULL {
          GiveBack(p, used, at);
          return Memb.NULL;
        }
        LowestAgree(s.live.Keys, used, s.ramUsed, at, r);
        PairedNext(s.live.Keys, s.ptrs, s.ramUsed, p);
        StoreSnapshot(p, r, packet);
        assert live.Keys == old(live).Keys + {p};
      }
    }

    /** memb_free of a queuebuf just taken. */
    method GiveBack(p: nat, ghost was: seq<nat>, ghost at: nat)
      requires Shape() && p == 1 + at && at < bufmem.count.Length && bufmem.count[..] == Memb.Taken(was, at, 1)
      modifies bufmem.count
      ensures bufmem.count[..] == was
    {
      assert p == bufmem.Address(at);
      var left;
      ghost var again;
      left, again := bufmem.Free(p);
      bufmem.AddressInjective(at, again);
      Memb.ReleasedTaken(was, at, 1);
    }

    method StoreSnapshot(p: nat, r: nat, packet: Packet)
      requires Shape() && Stores(Abs()) && packet.Valid() && 1 <= p <= ramPtr.Length && p !in live && ramPtr[p - 1] == r
      requires 1 <= r <= ram.Length && buframmem.count[r - 1] == 1 && forall q | q in live :: ramPtr[..][q - 1] != r
      requires Apart(packet)
      modifies `live, ram
      ensures Stores(Abs()) && live == old(live)[p := Snapshot(packet.Payload(), packet.attributes)]
    {
      hide Stores, ToSnapshot;
      ghost var s := Abs();
      BlocksAreWhole(s, r);
      var data := CopyOut(packet, ram[r - 1].data);
      Committing(s, p, r, data);
      Store(p, r, data, packet);
    }

    lemma BlocksAreWhole(s: Pools, r: nat)
      requires Stores(s) && 1 <= r <= |s.ram|
      ensures |s.ram[r - 1].data| == PACKETBUF_SIZE
    {}

    method Store(p: nat, r: nat, data: Stored, packet: Packet)
      requires 1 <= r <= ram.Length && Whole(data) && packet.Valid() && Apart(packet)
      modifies `live, ram
      ensures Abs() == old(Abs()).(live := old(live)[p := ToSnapshot(data)], ram := old(ram[..])[r - 1 := data])
      ensures packet.Payload() == old(packet.Payload())
    {
      hide ToSnapshot;
      ram[r - 1] := data;
      live := live[p := ToSnapshot(data)];
    }

    /** queuebuf_update_from_packetbuf. */
    method UpdateFromPacketbuf(p: nat, packet: Packet)
      requires Valid() && packet.Valid() && Apart(packet) && p in live
      modifies `live, ram
      ensures Valid() && live == old(live)[p := Snapshot(packet.Payload(), packet.attributes)]
    {
      hide Stores, ToSnapshot;
      ghost var s := Abs();
      LiveHolds(s, p);
      var r := ramPtr[p - 1];
      var data := CopyOut(packet, ram[r - 1].data);
      Updating(s, p, data);
      Store(p, r, data, packet);
      assert live.Keys == old(live).Keys;
    }

    lemma LiveInPool(s: Pools)
      requires Stores(s)
      ensures forall p | p in s.live.Keys :: 1 <= p <= |s.ptrs|
    {}

    lemma LiveHolds(s: Pools, p: nat)
      requires Stores(s) && p in s.live
      ensures 1 <= p <= |s.ptrs| && Holds(s, p)
    {}

    /** queuebuf_update_attr_from_packetbuf. */
    method UpdateAttrFromPacketbuf(p: nat, packet: Packet)
      requires Valid() && p in live
      modifies `live, ram
      ensures Valid() && live == old(live)[p := old(live)[p].(attributes := packet.attributes)]
    {
      hide Stores;
      ghost var s := Abs();
      LiveHolds(s, p);
      var r := ramPtr[p - 1];
      var data := ram[r - 1].(attributes := packet.attributes);
      Updating(s, p, data);
      ram[r - 1] := data;
      live := live[p := ToSnapshot(data)];
      assert live.Keys == old(live).Keys;
      assert Abs() == s.(live := live, ram := s.ram[r - 1 := data]);
    }

    /** memb_inmemb of the queuebufs, whose size counts as 1. */
    method InBufmem(p: nat) returns (inside: bool)
      requires Shape()
      ensures inside <==> 1 <= p <= ramPtr.Length
    {
      inside := bufmem.InMemb(p);
      if 1 <= p <= ramPtr.Length {
        assert bufmem.Address(p - 1) == p && bufmem.Address(p - 1 + 1) == p + 1;
      }
    }

    /** queuebuf_free.  An address outside the pool or a queuebuf that is not in use, because it
        has been freed before or was never allocated, does no harm. */
    method Free(p: nat)
      requires Valid()
      modifies this, bufmem.count, buframmem.count
      ensures Valid() && live == old(live) - {p}
    {
      hide Stores, Marked, Memb.Released;
      ghost var s, used := Abs(), bufmem.count[..];
      var inside := InBufmem(p);
      OnlyPoolIsLive(s, p);
      if inside {
        if p in live {
          Freeing(s, p);
          MarkedLess(live.Keys, used, p);
          MarkedLess(live.Keys, s.ramUsed, p);
        } else {
          StaleFree(live.Keys, used, p);
          if p <= ram.Length {
            StaleFree(live.Keys, s.ramUsed, p);
          }
        }
        FreeData(ramPtr[p - 1]);
        FreeQueuebuf(p);
        live := live - {p};
        assert live.Keys == old(live).Keys - {p};
        if p in old(live) {
          assert Abs() == s.(live := s.live - {p}, ramUsed := buframmem.count[..]);
        } else {
          assert live == old(live) && Abs() == s;
        }
      } else {
        assert live - {p} == live;
      }
    }

    lemma OnlyPoolIsLive(s: Pools, p: nat)
      requires Stores(s)
      ensures p in s.live ==> 1 <= p <= |s.ptrs|
    {}

    method FreeData(r: nat)
      requires Shape()
      modifies buframmem.count
      ensures 1 <= r <= buframmem.count.Length ==>
        buframmem.count[..] == Memb.Released(old(buframmem.count[..]), r - 1, 1)
      ensures r == 0 || r > buframmem.count.Length ==> buframmem.count[..] == old(buframmem.count[..])
    {
      var left;
      ghost var again;
      left, again := buframmem.Free(r);
      if 1 <= r <= buframmem.count.Length {
        assert r == buframmem.Address(r - 1);
        buframmem.AddressInjective(r - 1, again);
      } else {
        assert forall k: nat | k < buframmem.count.Length :: buframmem.Address(k) == 1 + k;
      }
    }

    method FreeQueuebuf(p: nat)
      requires Shape() && 1 <= p <= bufmem.count.Length
      modifies bufmem.count
      ensures bufmem.count[..] == Memb.Released(old(bufmem.count[..]), p - 1, 1)
    {
      assert p == bufmem.Address(p - 1);
      var left;
      ghost var again;
      left, again := bufmem.Free(p);
      bufmem.AddressInjective(p - 1, again);
    }

    /** queuebuf_to_packetbuf: the packet buffer gets the header and the data as they were, now
        all as data, and the attributes. */
    method ToPacketbuf(p: nat, packet: Packet)
      requires Valid() && packet.buf.Length == PACKETBUF_SIZE && Apart(packet)
      requires p in live || p == 0 || p > ramPtr.Length
      modifies packet, packet.buf
      ensures Valid() && live == old(live)
      ensures p in live || old(packet.Valid()) ==> packet.Valid()
      ensures p in live ==>
        packet.Header() == [] && packet.Data() == live[p].payload && packet.attributes == live[p].attributes
    {
      hide Stores, Marked;
      ghost var s := Abs();
      var inside := InBufmem(p);
      OnlyPoolIsLive(s, p);
      if inside {
        LiveHolds(s, p);
        var r := ramPtr[p - 1];
        var stored := ram[r - 1];
        var l := packet.CopyFrom(stored.data[..stored.len]);
        packet.AttrCopyFrom(stored.attributes);
      }
      assert Abs() == s && bufmem.count[..] == old(bufmem.count[..]);
    }
  }

  // ---------------------------------------------------------------- Whole runs

  /** What may happen between taking a snapshot and restoring it. */
  datatype Op =
    | CopyFrom(bytes: seq<bv8>) | Compact | HdrAlloc(n: nat) | HdrReduce(n: nat) | FtrAlloc(n: nat) | FtrReduce(n: nat)
    | SetDatalen(n: nat) | SetAttributes(attributes: Attributes)
    | New | Free(p: nat) | Update(p: nat) | UpdateAttr(p: nat) | Restore(p: nat)

  /** The operation frees or updates the queuebuf p. */
  predicate Touches(op: Op, p: nat) {
    (op.Free? || op.Update? || op.UpdateAttr?) && op.p == p
  }

  predicate OnPacket(op: Op) {
    !op.New? && !op.Free? && !op.Update? && !op.UpdateAttr? && !op.Restore?
  }

  /** One operation on the packet buffer alone.  packetbuf_set_datalen may set a length that
      reaches beyond the buffer; then only operations that do not read the data are in the model. */
  method DoPacket(packet: Packet, op: Op)
    requires packet.buf.Length == PACKETBUF_SIZE && OnPacket(op)
    modifies packet, packet.buf
  {
    var valid := packet.Totlen() <= PACKETBUF_SIZE;
    match op {
      case CopyFrom(bytes) => var n := packet.CopyFrom(bytes);
      case SetDatalen(n) => packet.SetDatalen(n);
      case SetAttributes(a) => packet.AttrCopyFrom(a);
      case Compact => if valid { packet.Compact(); }
      case HdrAlloc(n) => if valid { var ok := packet.HdrAlloc(n); }
      case HdrReduce(n) => if valid { var ok := packet.HdrReduce(n); }
      case FtrAlloc(n) => if valid { var ok := packet.FtrAlloc(n); }
      case FtrReduce(n) => if valid { var ok := packet.FtrReduce(n); }
    }
  }

  /** One operation; updates from and to queuebufs that are not in use are left out, and so are
      snapshots of a packet whose length is set beyond the buffer. */
  method Do(queue: Queue, packet: Packet, op: Op)
    requires queue.Valid() && packet.buf.Length == PACKETBUF_SIZE && queue.Apart(packet)
    modifies queue, queue.bufmem.count, queue.buframmem.count, queue.ramPtr, queue.ram, packet, packet.buf
    ensures queue.Valid()
    ensures forall p | p in old(queue.live) && !Touches(op, p) :: p in queue.live && queue.live[p] == old(queue.live)[p]
  {
    hide Stores, Marked;
    ghost var s, used := queue.Abs(), queue.bufmem.count[..];
    if OnPacket(op) {
      DoPacket(packet, op);
      assert queue.Abs() == s && queue.bufmem.count[..] == used;
      return;
    }
    match op {
      case New =>
        if packet.Totlen() <= PACKETBUF_SIZE {
          var p := queue.NewFromPacketbuf(packet);
        }
      case Free(p) => queue.Free(p);
      case Update(p) => DoUpdate(queue, packet, p);
      case UpdateAttr(p) => DoUpdateAttr(queue, packet, p);
      case Restore(p) => DoRestore(queue, packet, p);
    }
  }

  method DoRestore(queue: Queue, packet: Packet, p: nat)
    requires queue.Valid() && packet.buf.Length == PACKETBUF_SIZE && queue.Apart(packet)
    modifies packet, packet.buf
    ensures queue.Valid() && queue.live == old(queue.live)
  {
    if p == 0 || p > queue.ramPtr.Length {
      queue.ToPacketbuf(p, packet);
    } else {
      LiveIfMarked(queue, p);
      if queue.bufmem.count[p - 1] == 1 {
        queue.ToPacketbuf(p, packet);
      }
    }
  }

  lemma LiveIfMarked(queue: Queue, p: nat)
    requires queue.Valid() && 1 <= p <= queue.ramPtr.Length
    ensures queue.bufmem.count[p - 1] == 1 <==> p in queue.live
  {
    assert queue.bufmem.count[..][p - 1] == queue.bufmem.count[p - 1];
  }

  method DoUpdate(queue: Queue, packet: Packet, p: nat)
    requires queue.Valid() && packet.buf.Length == PACKETBUF_SIZE && queue.Apart(packet)
    modifies queue`live, queue.ram
    ensures queue.Valid()
    ensures forall q | q in old(queue.live) && q != p :: q in queue.live && queue.live[q] == old(queue.live)[q]
  {
    if 1 <= p <= queue.ramPtr.Length && packet.Totlen() <= PACKETBUF_SIZE {
      LiveIfMarked(queue, p);
      if queue.bufmem.count[p - 1] == 1 {
        queue.UpdateFromPacketbuf(p, packet);
      }
    }
  }

  method DoUpdateAttr(queue: Queue, packet: Packet, p: nat)
    requires queue.Valid()
    modifies queue`live, queue.ram
    ensures queue.Valid()
    ensures forall q | q in old(queue.live) && q != p :: q in queue.live && queue.live[q] == old(queue.live)[q]
  {
    if 1 <= p <= queue.ramPtr.Length {
      LiveIfMarked(queue, p);
      if queue.bufmem.count[p - 1] == 1 {
        queue.UpdateAttrFromPacketbuf(p, packet);
      }
    }
  }

  /** A queuebuf survives whatever is done to the packet buffer and to all other queuebufs,
      those in use now and those allocated later: restoring it brings back the header, the
      data and the attributes that it was made of. */
  method SnapshotSurvives(queue: Queue, packet: Packet, ops: seq<Op>, p: nat)
    requires queue.Valid() && packet.buf.Length == PACKETBUF_SIZE && queue.Apart(packet)
    requires p in queue.live && forall i | 0 <= i < |ops| :: !Touches(ops[i], p)
    modifies queue, queue.bufmem.count, queue.buframmem.count, queue.ramPtr, queue.ram, packet, packet.buf
    ensures queue.Valid() && packet.Valid()
    ensures packet.Payload() == old(queue.live)[p].payload && packet.attributes == old(queue.live)[p].attributes
  {
    for i := 0 to |ops|
      invariant queue.Valid()
      invariant p in queue.live && queue.live[p] == old(queue.live)[p]
    {
      Do(queue, packet, ops[i]);
    }
    queue.ToPacketbuf(p, packet);
    assert packet.Payload() == packet.Data();
  }
}
