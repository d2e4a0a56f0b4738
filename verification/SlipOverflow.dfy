/** What the SLIP driver does when the ring is full or an escape is illegal, and when it has
    recovered from that. */
module SlipOverflow {
  import opened Buffers
  import opened SlipSpec
  import opened SlipCopy
  import opened SlipRuns

  // ---------------------------------------------------------------- Nothing is stored until an END

  /** Half an escape that is none, or a byte for which there is no cell. */
  predicate Spoils(s: Slip, c: bv8)
    requires Valid(s)
  {
    (s.mode == Escape && c != ESC_END && c != ESC_ESC) || Next(s.nextFree, |s.cells|) == s.begin
  }

  /** Such a byte, and no other, makes the driver stop listening; what it had of the packet
      under way is dropped. */
  lemma SpoilsIff(s: Slip, c: bv8)
    requires Valid(s) && s.mode != Rubbish
    ensures Input(s, c).0.mode == Rubbish <==> Spoils(s, c)
    ensures Spoils(s, c) ==> Input(s, c) == (s.(mode := Rubbish, nextFree := s.pktEnd), false)
  {}

  lemma {:induction false} IgnoresUntilEnd(d: Run, x: seq<bv8>, limit: nat)
    requires Sound(d) && d.phase.Idle? && d.s.mode == Rubbish && END !in x
    ensures RunOf(d, Bytes(x), limit) == d
    decreases |x|
  {
    if x != [] {
      assert x[0] != END;
      assert Bytes(x)[1..] == Bytes(x[1..]);
      IgnoresUntilEnd(d, x[1..], limit);
    }
  }

  lemma OneByte(d: Run, c: bv8, limit: nat)
    requires Sound(d)
    ensures RunOf(d, [Byte(c)], limit) == Step(d, Byte(c), limit)
  {
    assert [Byte(c)][1..] == [];
  }

  /** After a byte that spoils, the driver stores nothing and posts no poll until an END comes;
      then it listens again, with the packet under way gone and the waiting one as it was. */
  lemma ListensAgain(d: Run, c: bv8, x: seq<bv8>, limit: nat)
    requires Sound(d) && d.phase.Idle? && d.s.mode != Rubbish && Spoils(d.s, c) && END !in x
    ensures RunOf(d, [Byte(c)] + Bytes(x), limit) == d.(s := d.s.(mode := Rubbish, nextFree := d.s.pktEnd))
    ensures RunOf(d, [Byte(c)] + Bytes(x) + [Byte(END)], limit)
         == d.(s := d.s.(mode := SlipSpec.Ok, nextFree := d.s.pktEnd))
  {
    SpoilsIff(d.s, c);
    var d1 := d.(s := d.s.(mode := Rubbish, nextFree := d.s.pktEnd));
    OneByte(d, c, limit);
    RunOfJoin(d, [Byte(c)], Bytes(x), limit);
    IgnoresUntilEnd(d1, x, limit);
    RunOfJoin(d, [Byte(c)] + Bytes(x), [Byte(END)], limit);
    OneByte(d1, END, limit);
  }

  // ---------------------------------------------------------------- The packet after that

  /** What is left of a payload when the first byte that was sent for it is lost. */
  function Beheaded(p: seq<bv8>): seq<bv8>
    requires p != []
  {
    (if p[0] == END then [ESC_END] else if p[0] == ESC then [ESC_ESC] else []) + p[1..]
  }

  lemma BeheadedIs(p: seq<bv8>)
    requires p != []
    ensures Encoded(p) != [] && Encoded(Beheaded(p)) == Encoded(p)[1..] && Beheaded(p) != p
  {
    var b := Beheaded(p);
    if p[0] == END || p[0] == ESC {
      assert b[1..] == p[1..];
    } else {
      assert b == p[1..];
    }
  }

  /** A payload and its END arrive at a driver that listens, behind the packet that waits for
      its poll, if there is one. */
  lemma Arrives(d: Run, p: seq<bv8>, limit: nat) returns (e: Run)
    requires Sound(d) && d.phase.Idle? && InOrder(d.s) && d.s.mode == SlipSpec.Ok && p != []
    requires Queue(d.s) == Packet(d.s) && |Queue(d.s)| + |Encoded(p)| + 1 < |d.s.cells|
    ensures e == RunOf(d, Bytes(Encoded(p)) + [Byte(END)], limit) && Sound(e) && e.phase.Idle?
    ensures InOrder(e.s) && e.s.mode == SlipSpec.Ok && e.outputs == d.outputs && |e.s.cells| == |d.s.cells|
    ensures Queue(e.s) == Queue(d.s) + Encoded(p) + [END]
    ensures Packet(e.s) == if Packet(d.s) == [] then Encoded(p) else Packet(d.s)
  {
    hide Input, InOrder, Queue, Packet;
    BeheadedIs(p);
    FeedEncoded(d, p, limit);
    var d1 := RunOf(d, Bytes(Encoded(p)), limit);
    RunOfJoin(d, Bytes(Encoded(p)), [Byte(END)], limit);
    OneByte(d1, END, limit);
    InputAppends(d1.s, END);
    e := Step(d1, Byte(END), limit);
    assert [] + Encoded(p) == Encoded(p);
  }

  /** A poll hands on the first packet and its END. */
  lemma PollHandsOn(d: Run, p: seq<bv8>, limit: nat) returns (e: Run)
    requires Sound(d) && d.phase.Idle? && InOrder(d.s) && Sendable(p, limit)
    requires Packet(d.s) == Encoded(p) && Encoded(p) <= Queue(d.s) && |Encoded(p)| < |Queue(d.s)| && !Greeted(d.s)
    ensures e == RunOf(d, POLL, limit) && Sound(e) && e.phase.Idle? && InOrder(e.s)
    ensures e.outputs == d.outputs + [p] && Queue(e.s) == Queue(d.s)[|Encoded(p)| + 1..]
    ensures Packet(e.s) == FirstPacket(Queue(e.s))
  {
    hide Slice, Delivered, Poll, Greeted, InOrder;
    BeheadedIs(p);
    PollDrops(d.s, limit);
    SliceLength(d.s.cells, d.s.begin, d.s.pktEnd);
    DeliversPayload(d.s, p, limit);
    PollAlone(d, limit);
    e := RunOf(d, POLL, limit);
  }

  lemma PollOfNothing(d: Run, limit: nat)
    requires Sound(d) && d.phase.Idle? && Packet(d.s) == [] && !Greeted(d.s)
    ensures RunOf(d, POLL, limit).outputs == d.outputs
  {
    hide Greeted, Slice;
    SliceLength(d.s.cells, d.s.begin, d.s.pktEnd);
    EmptySlice(d.s.cells, d.s.begin, d.s.pktEnd);
    PollAlone(d, limit);
  }

  lemma ClientInFront(x: seq<bv8>, y: seq<bv8>)
    requires y == x + [END]
    ensures CLIENT <= y ==> CLIENT <= x
  {
    assert y[|x|] == END;
    if |x| < 6 && |y| >= 6 {
      assert y[..6][5] == END;
    } else if |x| >= 6 {
      assert y[..6] == x[..6];
    }
  }

  lemma NoGreeting(s: Slip, x: seq<bv8>)
    requires Valid(s) && Queue(s) == x + [END] && !(CLIENT <= x)
    ensures !Greeted(s)
  {
    ClientInFront(x, Queue(s));
    if Greeted(s) {
      GreetingInQueue(s);
    }
  }

  /** No packet waited: the next payload is handed on. */
  lemma AloneIsWhole(d: Run, p: seq<bv8>, limit: nat) returns (e: Run)
    requires Sound(d) && d.phase.Idle? && InOrder(d.s) && d.s.mode == SlipSpec.Ok && Sendable(p, limit)
    requires Queue(d.s) == Packet(d.s) == [] && |Encoded(p)| + 1 < |d.s.cells|
    ensures e == RunOf(d, Bytes(Encoded(p)) + [Byte(END)] + POLL + POLL, limit)
    ensures e.outputs == d.outputs + [p]
  {
    hide InOrder, Queue, Packet, Greeted, Encoded, Poll;
    var d1 := Arrives(d, p, limit);
    assert [] + Encoded(p) + [END] == Encoded(p) + [END] == Encoded(p) + [END] + [];
    PlainNoGreeting(d1.s, p, [], limit);
    var d2 := PollHandsOn(d1, p, limit);
    assert Queue(d2.s) == [];
    NothingIsNoGreeting(d2.s);
    PollOfNothing(d2, limit);
    e := RunOf(d2, POLL, limit);
    RunOfJoin(d, Bytes(Encoded(p)) + [Byte(END)], POLL, limit);
    RunOfJoin(d, Bytes(Encoded(p)) + [Byte(END)] + POLL, POLL, limit);
  }

  lemma NothingIsNoGreeting(s: Slip)
    requires Valid(s) && Queue(s) == []
    ensures !Greeted(s) && FirstPacket(Queue(s)) == []
  {
    if Greeted(s) {
      GreetingInQueue(s);
    }
  }

  lemma WaitingIsWhole(d: Run, q: seq<bv8>, p: seq<bv8>, limit: nat) returns (e: Run)
    requires Sound(d) && d.phase.Idle? && InOrder(d.s) && d.s.mode == SlipSpec.Ok && Sendable(q, limit) && p != []
    requires Queue(d.s) == Packet(d.s) == Encoded(q) && |Encoded(q)| + |Encoded(p)| + 1 < |d.s.cells|
    requires !(CLIENT <= Encoded(q) + Encoded(p))
    ensures e == RunOf(d, Bytes(Encoded(p)) + [Byte(END)] + POLL, limit) && Sound(e) && e.phase.Idle?
    ensures InOrder(e.s) && e.outputs == d.outputs + [q] && Packet(e.s) == FirstPacket(Queue(e.s))
    ensures Encoded(p) != [] && Queue(e.s) == Encoded(p)[1..] + [END]
  {
    hide InOrder, Queue, Packet, Greeted, Encoded, Poll;
    BeheadedIs(p);
    EncodedShape(q);
    var d1 := Arrives(d, p, limit);
    NoGreeting(d1.s, Encoded(q) + Encoded(p));
    assert Queue(d1.s) == Encoded(q) + (Encoded(p) + [END]);
    e := PollHandsOn(d1, q, limit);
    RunOfJoin(d, Bytes(Encoded(p)) + [Byte(END)], POLL, limit);
  }

  lemma BeheadedIsHandedOn(d: Run, b: seq<bv8>, limit: nat) returns (e: Run)
    requires Sound(d) && d.phase.Idle? && InOrder(d.s) && Packet(d.s) == FirstPacket(Queue(d.s))
    requires Queue(d.s) == Encoded(b) + [END] && (b == [] || Sendable(b, limit))
    ensures e == RunOf(d, POLL, limit) && e.outputs == d.outputs + if b == [] then [] else [b]
  {
    hide InOrder, Queue, Packet, Greeted, Encoded, Poll;
    EncodedShape(b);
    FirstPacketIs(Encoded(b), [END]);
    if b == [] {
      assert Queue(d.s)[0] == END;
      NoGreetingAfterEnd(d.s);
      PollOfNothing(d, limit);
      e := RunOf(d, POLL, limit);
    } else {
      assert Queue(d.s) == Encoded(b) + [END] + [];
      PlainNoGreeting(d.s, b, [], limit);
      e := PollHandsOn(d, b, limit);
    }
  }

  /** A packet waited: it is handed on, but the bytes after it have been stored over its END, and
      the poll drops the first of them in its place. */
  lemma WaitingCostsByte(d: Run, q: seq<bv8>, p: seq<bv8>, limit: nat) returns (e: Run)
    requires Sound(d) && d.phase.Idle? && InOrder(d.s) && d.s.mode == SlipSpec.Ok && Sendable(q, limit) && p != []
    requires Queue(d.s) == Packet(d.s) == Encoded(q) && |Encoded(q)| + |Encoded(p)| + 1 < |d.s.cells|
    requires !(CLIENT <= Encoded(q) + Encoded(p)) && (Beheaded(p) == [] || Sendable(Beheaded(p), limit))
    ensures e == RunOf(d, Bytes(Encoded(p)) + [Byte(END)] + POLL + POLL, limit)
    ensures e.outputs == d.outputs + [q] + if Beheaded(p) == [] then [] else [Beheaded(p)]
  {
    hide InOrder, Queue, Packet, Greeted, Encoded, Poll, Beheaded, FirstPacket;
    BeheadedIs(p);
    var d1 := WaitingIsWhole(d, q, p, limit);
    e := BeheadedIsHandedOn(d1, Beheaded(p), limit);
    RunOfJoin(d, Bytes(Encoded(p)) + [Byte(END)] + POLL, POLL, limit);
  }

  /** The payloads of whole packets, the one that waits and the one that comes. */
  function Expected(q: seq<bv8>, p: seq<bv8>): seq<seq<bv8>> {
    (if q == [] then [] else [q]) + [p]
  }

  /** The driver overflows or meets an illegal escape while packet q waits for its poll, or with
      no packet waiting, for q empty; an END brings it back; then payload p comes, with its END
      and time for two polls.  All payloads are handed on exactly when no packet waited. */
  lemma RecoversIff(d: Run, q: seq<bv8>, c: bv8, x: seq<bv8>, p: seq<bv8>, limit: nat)
    requires Sound(d) && d.phase.Idle? && InOrder(d.s) && d.s.mode != Rubbish
    requires Spoils(d.s, c) && END !in x && Packet(d.s) == Encoded(q)
    requires (q == [] || Sendable(q, limit)) && Sendable(p, limit) && |Encoded(q)| + |Encoded(p)| + 1 < |d.s.cells|
    requires !(CLIENT <= Encoded(q) + Encoded(p)) && (Beheaded(p) == [] || Sendable(Beheaded(p), limit))
    ensures var events := [Byte(c)] + Bytes(x) + [Byte(END)] + (Bytes(Encoded(p)) + [Byte(END)] + POLL + POLL);
      RunOf(d, events, limit).outputs == d.outputs + Expected(q, p) <==> q == []
  {
    hide Encoded, Poll, Greeted, Input;
    ListensAgain(d, c, x, limit);
    var d1 := d.(s := d.s.(mode := SlipSpec.Ok, nextFree := d.s.pktEnd));
    assert InOrder(d1.s) && Queue(d1.s) == Packet(d1.s) == Packet(d.s);
    RunOfJoin(d, [Byte(c)] + Bytes(x) + [Byte(END)], Bytes(Encoded(p)) + [Byte(END)] + POLL + POLL, limit);
    EncodedShape(q);
    if q == [] {
      var e := AloneIsWhole(d1, p, limit);
      assert Expected(q, p) == [p];
    } else {
      var e := WaitingCostsByte(d1, q, p, limit);
      BeheadedIs(p);
      NotExpected(d.outputs, q, p, Beheaded(p));
    }
  }

  lemma NotExpected(out: seq<seq<bv8>>, q: seq<bv8>, p: seq<bv8>, b: seq<bv8>)
    requires q != [] && b != p
    ensures out + [q] + (if b == [] then [] else [b]) != out + Expected(q, p)
  {
    var n := |out|;
    var y, z := out + [q] + (if b == [] then [] else [b]), out + Expected(q, p);
    assert z[n + 1] == p && (b != [] ==> y[n + 1] == b);
  }
}
