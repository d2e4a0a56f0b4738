/** The greeting of a client program, which resets the SLIP driver. */
module SlipGreeting {
  import opened Buffers
  import opened SlipSpec
  import opened SlipCopy
  import opened SlipRuns

  lemma {:induction false} PlainEncoded(p: seq<bv8>)
    requires END !in p && ESC !in p
    ensures Encoded(p) == p
  {
    if p != [] {
      assert p[0] != END && p[0] != ESC;
      PlainEncoded(p[1..]);
    }
  }

  lemma {:induction false} BytesKeepBegin(d: Run, x: seq<bv8>, limit: nat)
    requires Sound(d) && d.phase.Idle?
    ensures var e := RunOf(d, Bytes(x), limit);
      e.s.begin == d.s.begin && e.s.pktEnd < |e.s.cells| && (d.pending ==> e.pending)
    decreases |x|
  {
    if x != [] {
      assert Bytes(x)[1..] == Bytes(x[1..]);
      BytesKeepBegin(Step(d, Byte(x[0]), limit), x[1..], limit);
    }
  }

  lemma QueueStarts(s: Slip, c: bv8, rest: seq<bv8>)
    requires Valid(s) && Queue(s) == [c] + rest
    ensures s.begin != s.nextFree && s.cells[s.begin] == c
  {
    hide Slice;
    SliceLength(s.cells, s.begin, s.nextFree);
    assert Queue(s)[0] == c;
    if s.begin != s.nextFree {
      SliceFirst(s.cells, s.begin, s.nextFree);
      assert Queue(s)[0] == s.cells[s.begin];
    }
  }

  /** The last byte of the greeting posts a poll. */
  lemma LastPosts(d: Run, limit: nat)
    requires Sound(d) && d.phase.Idle? && InOrder(d.s) && d.s.mode == SlipSpec.Ok && HasRoom(d.s)
    requires Queue(d.s) == CLIENT[..5]
    ensures Step(d, Byte(CHAR_T), limit).pending
  {
    hide Slice;
    QueueStarts(d.s, CHAR_C, CLIENT[1..5]);
    SliceLength(d.s.cells, d.s.begin, d.s.nextFree);
    assert Next(d.s.nextFree, |d.s.cells|) != d.s.begin;
  }

  lemma GreetingArrives(d: Run, limit: nat) returns (e: Run)
    requires Sound(d) && d.phase.Idle? && InOrder(d.s) && d.s.mode == SlipSpec.Ok
    requires Queue(d.s) == [] && |d.s.cells| > 6
    ensures e == RunOf(d, Bytes(CLIENT), limit) && Sound(e) && e.phase.Idle? && e.pending
    ensures e.s.begin == d.s.begin && |e.s.cells| == |d.s.cells| && e.outputs == d.outputs && Queue(e.s) == CLIENT
  {
    hide Queue, Input, InOrder, Packet, Step;
    var x := CLIENT[..5];
    PlainEncoded(x);
    FeedEncoded(d, x, limit);
    assert [] + x == x;
    var d5 := RunOf(d, Bytes(x), limit);
    assert Bytes(CLIENT) == Bytes(x) + [Byte(CHAR_T)];
    RunOfJoin(d, Bytes(x), [Byte(CHAR_T)], limit);
    assert [Byte(CHAR_T)][1..] == [];
    LastPosts(d5, limit);
    DataByteGrows(d5, CHAR_T, limit);
    BytesKeepBegin(d, CLIENT, limit);
    e := Step(d5, Byte(CHAR_T), limit);
    assert x + [CHAR_T] == CLIENT;
  }

  /** A greeting that arrives in an empty ring posts a poll.  The poll resets the driver, and hands
      nothing on, exactly when the greeting does not reach the end of the ring. */
  lemma GreetingResetsIff(d: Run, limit: nat)
    requires Sound(d) && d.phase.Idle? && InOrder(d.s) && d.s.mode == SlipSpec.Ok
    requires Queue(d.s) == [] && |d.s.cells| > 6
    ensures RunOf(d, Bytes(CLIENT), limit).pending
    ensures var t := RunOf(d, Bytes(CLIENT) + [PollStep], limit);
      && t.outputs == d.outputs && !t.pending && t.phase.Idle?
      && (d.s.begin + 6 < |d.s.cells| ==> t.s.mode == SlipSpec.Ok && t.s.begin == t.s.pktEnd == t.s.nextFree == 0)
      && (d.s.begin + 6 >= |d.s.cells| ==> Queue(t.s) == CLIENT)
  {
    hide Input, Slice;
    var e := GreetingArrives(d, limit);
    RunOfJoin(d, Bytes(CLIENT), [PollStep], limit);
    assert [PollStep][1..] == [];
    SliceLength(d.s.cells, d.s.begin, d.s.nextFree);
    SliceLength(e.s.cells, e.s.begin, e.s.nextFree);
    GreetedIff(e.s);
    NothingClosed(d, limit);
  }

  lemma GreetedIff(s: Slip)
    requires Valid(s) && Queue(s) == CLIENT
    ensures Greeted(s) <==> s.begin + 6 < |s.cells|
  {
    SliceLength(s.cells, s.begin, s.nextFree);
  }

  lemma NothingClosed(d: Run, limit: nat)
    requires Sound(d) && d.phase.Idle? && InOrder(d.s) && d.s.mode == SlipSpec.Ok
    requires Queue(d.s) == [] && |d.s.cells| > 6
    ensures var e := RunOf(d, Bytes(CLIENT), limit); e.s.begin == e.s.pktEnd
  {
    hide Input, Slice;
    SliceLength(d.s.cells, d.s.begin, d.s.nextFree);
    SliceLength(d.s.cells, d.s.begin, d.s.pktEnd);
    PlainEncoded(CLIENT);
    FeedEncoded(d, CLIENT, limit);
    var e := RunOf(d, Bytes(CLIENT), limit);
    EmptySlice(d.s.cells, d.s.begin, d.s.pktEnd);
    EmptySlice(e.s.cells, e.s.begin, e.s.pktEnd);
  }
}
