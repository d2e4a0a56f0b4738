/** A run of the SLIP driver in which an END arrives while the scan for it is running, although
    there is room and no END is early: the packet is not announced, and is handed on together
    with the next one. */
module SlipLost {
  import opened SlipSpec
  import opened SlipCopy
  import opened SlipRuns
  import opened SlipTiming

  const RING_0: seq<bv8> := [1, END, 2, 0, 0, 0, 0, 0]
  const RING_1: seq<bv8> := [1, END, 2, END, 0, 0, 0, 0]
  const RING_2: seq<bv8> := [1, END, 2, END, 3, 0, 0, 0]
  const RING_3: seq<bv8> := [1, END, 2, END, 3, END, 0, 0]

  /** One packet and the beginning of the next have arrived, and the poll is posted. */
  const BEFORE: Run := Run(Slip(Ok, 0, 3, 1, RING_0), Idle, true, [])

  /** The END of the second packet arrives when the scan is about to end; a poll finds nothing;
      the third packet arrives and is polled. */
  const INSIDE: seq<Event> := [PollStep, PollStep, Byte(END), PollStep]
  const BEHIND: seq<Event> := [PollStep, Byte(3), Byte(END)]

  const FRAMES: seq<Frame> := [Frame(false, [1]), Frame(false, [2]), Frame(false, [3])]

  /** What a run of events comes to, room and timing included. */
  ghost predicate Leads(d: Run, events: seq<Event>, e: Run, limit: nat)
    requires Sound(d)
  {
    RunOf(d, events, limit) == e && AllTimely(d, events, limit) && AllRoom(d, events, limit)
  }

  lemma LeadsNowhere(d: Run, limit: nat)
    requires Sound(d)
    ensures Leads(d, [], d, limit)
  {}

  lemma LeadsOn(d: Run, x: Event, d': Run, events: seq<Event>, e: Run, limit: nat)
    requires Sound(d) && Timely(d, x) && Step(d, x, limit) == d' && Leads(d', events, e, limit)
    ensures Leads(d, [x] + events, e, limit)
  {
    assert ([x] + events)[1..] == events;
  }

  lemma {:induction false} LeadsJoin(d: Run, a: seq<Event>, d': Run, b: seq<Event>, e: Run, limit: nat)
    requires Sound(d) && Leads(d, a, d', limit) && Leads(d', b, e, limit)
    ensures Leads(d, a + b, e, limit)
    decreases |a|
  {
    if a == [] {
      assert a + b == b;
    } else {
      assert a + b == [a[0]] + (a[1..] + b);
      LeadsJoin(Step(d, a[0], limit), a[1..], d', b, e, limit);
      LeadsOn(d, a[0], Step(d, a[0], limit), a[1..] + b, e, limit);
    }
  }

  lemma InsideMisses(limit: nat)
    requires limit >= 2
    ensures Leads(BEFORE, INSIDE, Run(Slip(Ok, 2, 4, 2, RING_1), Idle, true, [[1]]), limit)
    ensures !AllSeen(BEFORE, INSIDE, limit)
  {
    var d1 := Run(Slip(Ok, 0, 3, 2, RING_0), Passing, false, [[1]]);
    var d2 := d1.(phase := Scanning(3));
    var d3 := Run(Slip(Ok, 0, 4, 2, RING_1), Scanning(3), true, [[1]]);
    var d4 := Run(Slip(Ok, 2, 4, 2, RING_1), Idle, true, [[1]]);
    FirstCopied(limit);
    assert Step(BEFORE, PollStep, limit) == d1;
    assert Step(d1, PollStep, limit) == d2;
    assert RING_0[3 := END] == RING_1;
    assert Step(d2, Byte(END), limit) == d3;
    assert FindEnd(RING_1, 2, 3) == 3;
    assert Step(d3, PollStep, limit) == d4;
    LeadsNowhere(d4, limit);
    LeadsOn(d3, PollStep, d4, [], d4, limit);
    assert Waiting(d2) == [2];
    LeadsOn(d2, Byte(END), d3, [PollStep] + [], d4, limit);
    LeadsOn(d1, PollStep, d2, [Byte(END)] + ([PollStep] + []), d4, limit);
    LeadsOn(BEFORE, PollStep, d1, [PollStep] + ([Byte(END)] + ([PollStep] + [])), d4, limit);
    assert INSIDE == [PollStep] + ([PollStep] + ([Byte(END)] + ([PollStep] + [])));
    assert INSIDE[1..][1..] == [Byte(END), PollStep] && InView(d2) == [2];
    assert !AllSeen(d2, [Byte(END), PollStep], limit);
    assert !AllSeen(d1, INSIDE[1..], limit);
  }

  lemma FirstCopied(limit: nat)
    requires limit >= 2
    ensures Delivered(BEFORE.s, limit) == [1] && !Greeted(BEFORE.s)
  {
    var p: seq<bv8> := [1];
    assert p[1..] == [] && Encoded(p) == [1] + [] == [1];
    assert Packet(BEFORE.s) == [1];
    DeliversPayload(BEFORE.s, p, limit);
  }

  /** The poll posted for the second packet finds none, and the next END closes both. */
  lemma BehindMerges(limit: nat)
    ensures Leads(Run(Slip(Ok, 2, 4, 2, RING_1), Idle, true, [[1]]), BEHIND,
      Run(Slip(Ok, 2, 6, 5, RING_3), Idle, true, [[1]]), limit)
  {
    var d4 := Run(Slip(Ok, 2, 4, 2, RING_1), Idle, true, [[1]]);
    var d5 := d4.(pending := false);
    var d6 := Run(Slip(Ok, 2, 5, 2, RING_2), Idle, false, [[1]]);
    var d7 := Run(Slip(Ok, 2, 6, 5, RING_3), Idle, true, [[1]]);
    assert RING_1[2..4] == [2, END] && !Greeted(d4.s);
    assert Step(d4, PollStep, limit) == d5;
    assert RING_1[4 := 3] == RING_2 && RING_2[5 := END] == RING_3;
    assert Step(d5, Byte(3), limit) == d6;
    assert Step(d6, Byte(END), limit) == d7;
    assert Waiting(d5) == [2, END] && Waiting(d6) == [2, END, 3];
    LeadsNowhere(d7, limit);
    LeadsOn(d6, Byte(END), d7, [], d7, limit);
    LeadsOn(d5, Byte(3), d6, [Byte(END)] + [], d7, limit);
    LeadsOn(d4, PollStep, d5, [Byte(3)] + ([Byte(END)] + []), d7, limit);
    assert BEHIND == [PollStep] + ([Byte(3)] + ([Byte(END)] + []));
  }

  lemma MergedPolled(limit: nat)
    requires limit >= 2
    ensures Leads(Run(Slip(Ok, 2, 6, 5, RING_3), Idle, true, [[1]]), POLL,
      Run(Slip(Ok, 6, 6, 6, RING_3), Idle, false, [[1], [2, END, 3]]), limit)
  {
    var d7 := Run(Slip(Ok, 2, 6, 5, RING_3), Idle, true, [[1]]);
    var d8 := Run(Slip(Ok, 2, 6, 6, RING_3), Passing, false, [[1], [2, END, 3]]);
    var d9 := d8.(phase := Scanning(6));
    var d10 := Run(Slip(Ok, 6, 6, 6, RING_3), Idle, false, [[1], [2, END, 3]]);
    MergedCopied(d7.s, limit);
    assert Step(d7, PollStep, limit) == d8;
    assert Step(d8, PollStep, limit) == d9;
    assert FindEnd(RING_3, 6, 6) == 6;
    assert Step(d9, PollStep, limit) == d10;
    LeadsNowhere(d10, limit);
    LeadsOn(d9, PollStep, d10, [], d10, limit);
    LeadsOn(d8, PollStep, d9, [PollStep] + [], d10, limit);
    LeadsOn(d7, PollStep, d8, [PollStep] + ([PollStep] + []), d10, limit);
    assert POLL == [PollStep] + ([PollStep] + ([PollStep] + []));
  }

  lemma MergedCopied(s: Slip, limit: nat)
    requires s == Slip(Ok, 2, 6, 5, RING_3) && limit >= 2
    ensures Delivered(s, limit) == [2, END, 3] && !Greeted(s)
  {
    var x := s.cells[2..5];
    assert x == [2, END, 3] && x[1..] == [END, 3] && x[1..][1..] == [3] && x[1..][1..][1..] == [];
    var none: seq<bv8> := [];
    assert none + [2] == [2] && [2] + [END] == [2, END] && [2, END] + [3] == [2, END, 3];
    assert Copied(x[1..][1..], [2, END], false, limit) == ([2, END, 3], false);
    assert Copied(x[1..], [2], false, limit) == ([2, END, 3], false);
    assert Copied(x, none, false, limit) == ([2, END, 3], false);
  }

  /** Three frames with one END each, room for every byte, no END too early, and no poll left
      over: and yet two of the payloads are handed on as one. */
  lemma MissedEndMerges(limit: nat)
    requires limit >= 2
    ensures var events := INSIDE + BEHIND + POLL;
      && NoneFlushed(FRAMES) && AllSendable(FRAMES, limit) && Holds(BEFORE, FRAMES, Inputs(events))
      && AllRoom(BEFORE, events, limit) && AllTimely(BEFORE, events, limit) && !AllSeen(BEFORE, INSIDE, limit)
      && Settled(RunOf(BEFORE, events, limit))
      && RunOf(BEFORE, events, limit).outputs == [[1], [2, END, 3]]
  {
    var d4 := Run(Slip(Ok, 2, 4, 2, RING_1), Idle, true, [[1]]);
    var d7 := Run(Slip(Ok, 2, 6, 5, RING_3), Idle, true, [[1]]);
    var d10 := Run(Slip(Ok, 6, 6, 6, RING_3), Idle, false, [[1], [2, END, 3]]);
    InsideMisses(limit);
    BehindMerges(limit);
    MergedPolled(limit);
    LeadsJoin(BEFORE, INSIDE, d4, BEHIND, d7, limit);
    LeadsJoin(BEFORE, INSIDE + BEHIND, d7, POLL, d10, limit);
    BeforeHolds();
  }

  lemma StreamIs()
    ensures Stream(FRAMES) == [1, END, 2, END, 3, END]
  {
    var one, two, three: seq<bv8> := [1], [2], [3];
    assert one[1..] == [] && two[1..] == [] && three[1..] == [];
    assert Encoded(one) == [1] && Encoded(two) == [2] && Encoded(three) == [3];
    assert Wire(FRAMES[0]) == [1, END] && Wire(FRAMES[1]) == [2, END] && Wire(FRAMES[2]) == [3, END];
    assert FRAMES[1..] == [FRAMES[1], FRAMES[2]] && FRAMES[1..][1..] == [FRAMES[2]] && FRAMES[1..][1..][1..] == [];
    assert Stream([FRAMES[2]]) == [3, END];
    assert Stream(FRAMES[1..]) == [2, END, 3, END];
  }

  lemma BeforeHolds()
    ensures Holds(BEFORE, FRAMES, Inputs(INSIDE + BEHIND + POLL))
  {
    hide Stream, Inputs;
    InputsAre();
    StreamIs();
    assert Queue(BEFORE.s) == [1, END, 2] && Packet(BEFORE.s) == [1];
    FirstPacketIs([1], [END, 2]);
    assert [1] + [END, 2] == [1, END, 2];
  }

  lemma InsideInputs()
    ensures Inputs(INSIDE) == [END]
  {
    assert INSIDE[1..] == [PollStep, Byte(END), PollStep] && INSIDE[1..][1..] == [Byte(END), PollStep];
    assert INSIDE[1..][1..][1..] == [PollStep] && [PollStep][1..] == [];
    assert Inputs([PollStep]) == [] && Inputs([Byte(END), PollStep]) == [END];
  }

  lemma BehindInputs()
    ensures Inputs(BEHIND) == [3, END] && Inputs(POLL) == []
  {
    assert BEHIND[1..] == [Byte(3), Byte(END)] && BEHIND[1..][1..] == [Byte(END)] && BEHIND[1..][1..][1..] == [];
    assert Inputs([Byte(END)]) == [END] && Inputs(BEHIND[1..]) == [3, END];
    assert POLL[1..] == [PollStep, PollStep] && POLL[1..][1..] == [PollStep];
  }

  lemma InputsAre()
    ensures Inputs(INSIDE + BEHIND + POLL) == [END, 3, END]
  {
    hide Inputs;
    InputsJoin(INSIDE + BEHIND, POLL);
    InputsJoin(INSIDE, BEHIND);
    InsideInputs();
    BehindInputs();
  }

  lemma {:induction false} InputsJoin(a: seq<Event>, b: seq<Event>)
    ensures Inputs(a + b) == Inputs(a) + Inputs(b)
  {
    if a == [] {
      assert a + b == b;
    } else {
      assert (a + b)[1..] == a[1..] + b;
      InputsJoin(a[1..], b);
    }
  }
}
