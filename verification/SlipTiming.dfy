/** What the SLIP driver needs of its timing when the sender puts one END behind every payload,
    and how much of the output buffer its polls write. */
module SlipTiming {
  import opened SlipSpec
  import opened SlipCopy
  import opened SlipRuns

  /** There is room for every byte when it arrives. */
  predicate AllRoom(d: Run, events: seq<Event>, limit: nat)
    requires Sound(d)
    decreases |events|
  {
    events == [] || ((events[0].Byte? ==> HasRoom(d.s)) && AllRoom(Step(d, events[0], limit), events[1..], limit))
  }

  // ---------------------------------------------------------------- Streams without leading ENDs

  /** Such a stream has one END after every payload and no other. */
  lemma {:induction false} OneEndEach(frames: seq<Frame>, limit: nat)
    requires NoneFlushed(frames) && AllSendable(frames, limit)
    ensures NoEmptyPacket(Stream(frames))
  {
    if frames != [] {
      OneEndEach(frames[1..], limit);
      WireOnce(frames[0].payload, Stream(frames[1..]));
    }
  }

  lemma WireOnce(p: seq<bv8>, more: seq<bv8>)
    requires p != [] && NoEmptyPacket(more)
    ensures NoEmptyPacket(Wire(Frame(false, p)) + more)
  {
    var e := Encoded(p);
    EncodedShape(p);
    var x := Wire(Frame(false, p)) + more;
    assert x == e + [END] + more;
    assert forall i | 0 <= i < |e| :: x[i] == e[i] != END;
    forall i | 0 <= i < |x| && x[i] == END ensures i > 0 && x[i - 1] != END {
      if i > |e| {
        assert more[i - |e| - 1] == x[i];
      } else {
        assert x[i - 1] == e[i - 1];
      }
    }
  }

  lemma NextEndIsTimely(d: Run, left: seq<Frame>, rest: seq<bv8>, limit: nat)
    requires Sound(d) && Holds(d, left, rest) && AllSendable(left, limit) && NoneFlushed(left)
    requires rest != [] && HasRoom(d.s)
    ensures Timely(d, Byte(rest[0]))
  {
    hide Stream, Waiting, Packet, InView, HasRoom;
    OneEndEach(left, limit);
    var w := Waiting(d);
    assert (w + rest)[|w|] == rest[0];
    if EndsWith(w, END) {
      assert (w + rest)[|w| - 1] == END;
    }
  }

  lemma {:induction false} RoomIsTimely(d: Run, events: seq<Event>, frames: seq<Frame>, rest: seq<bv8>, limit: nat)
    requires Sound(d) && Holds(d, frames, rest) && AllSendable(frames, limit) && NoneFlushed(frames)
    requires AllRoom(d, events, limit) && AllSeen(d, events, limit) && Inputs(events) <= rest
    ensures AllTimely(d, events, limit)
    decreases |events|
  {
    hide Holds, Step, Waiting, Stream, Encoded, Unseen;
    if events != [] {
      var x := InputOf(events[0]);
      assert Inputs(events) == x + Inputs(events[1..]);
      if events[0].Byte? {
        assert x[0] == rest[0];
        NextEndIsTimely(d, frames, rest, limit);
      }
      var frames' := StepHolds(d, events[0], frames, rest, limit);
      RoomIsTimely(Step(d, events[0], limit), events[1..], frames', rest[|x|..], limit);
    }
  }

  /** For a sender that puts an END after every payload and nowhere else, there is no more to
      it than room in the ring and no END that a scan misses: over every interleaving the polls
      hand on a prefix of the payloads, and all of them once everything has arrived and no poll
      is left over. */
  lemma RoomIsEnough(cells: seq<bv8>, events: seq<Event>, frames: seq<Frame>, limit: nat)
    requires cells != [] && AllSendable(frames, limit) && NoneFlushed(frames)
    requires var d := Started(cells);
      AllRoom(d, events, limit) && AllSeen(d, events, limit) && Inputs(events) <= Stream(frames)
    ensures var e := RunOf(Started(cells), events, limit);
      && e.outputs <= Payloads(frames)
      && (Inputs(events) == Stream(frames) && Settled(e) ==> e.outputs == Payloads(frames))
  {
    hide Holds;
    var d := Started(cells);
    StartHolds(cells, frames);
    RoomIsTimely(d, events, frames, Stream(frames), limit);
    var left := DeliversInOrder(d, events, frames, Stream(frames), limit);
    assert [] + Payloads(frames) == Payloads(frames);
    if Inputs(events) == Stream(frames) {
      DeliversEverything(cells, events, frames, limit);
    }
  }

  // ---------------------------------------------------------------- The buffer of the polls

  /** The event starts a poll that copies a packet. */
  predicate Copies(d: Run, e: Event) {
    e.PollStep? && d.phase.Idle? && d.s.begin != d.s.pktEnd
  }

  /** Every poll of the run writes only within a buffer of limit cells. */
  predicate AllInBuffer(d: Run, events: seq<Event>, limit: nat)
    requires Sound(d)
    decreases |events|
  {
    events == []
    || ((Copies(d, events[0]) ==> PollWrites(d.s, limit) <= limit)
        && AllInBuffer(Step(d, events[0], limit), events[1..], limit))
  }

  /** Over every run, the polls stay within a buffer of limit cells exactly when every payload
      that they hand on has at most limit bytes. */
  lemma {:induction false} InBufferIff(d: Run, events: seq<Event>, frames: seq<Frame>, rest: seq<bv8>, limit: nat)
    requires Sound(d) && Holds(d, frames, rest) && AllSendable(frames, limit)
    requires AllTimely(d, events, limit) && AllSeen(d, events, limit) && Inputs(events) <= rest
    ensures var e := RunOf(d, events, limit);
      d.outputs <= e.outputs
      && (AllInBuffer(d, events, limit)
          <==> forall i | |d.outputs| <= i < |e.outputs| :: |e.outputs[i]| <= limit)
    decreases |events|
  {
    hide Holds, Step, Waiting, Stream, Encoded, PollWrites, Timely, Unseen;
    if events != [] {
      var x := InputOf(events[0]);
      assert Inputs(events) == x + Inputs(events[1..]);
      var frames' := StepHolds(d, events[0], frames, rest, limit);
      var d' := Step(d, events[0], limit);
      InBufferIff(d', events[1..], frames', rest[|x|..], limit);
      StepOutput(d, events[0], frames, rest, limit);
      var e, n, m := RunOf(d', events[1..], limit), |d.outputs|, |d'.outputs|;
      assert e == RunOf(d, events, limit);
      if n < m {
        assert e.outputs[n] == d'.outputs[n];
        assert (forall i | n <= i < |e.outputs| :: |e.outputs[i]| <= limit)
          <==> (|e.outputs[n]| <= limit && forall i | m <= i < |e.outputs| :: |e.outputs[i]| <= limit);
      }
    }
  }

  /** Only the start of a poll with a packet hands something on, and writes the buffer. */
  lemma StepOutput(d: Run, e: Event, left: seq<Frame>, rest: seq<bv8>, limit: nat)
    requires Sound(d) && Holds(d, left, rest) && AllSendable(left, limit)
    ensures !Copies(d, e) ==> Step(d, e, limit).outputs == d.outputs
    ensures Copies(d, e) ==>
      && left != [] && Step(d, e, limit).outputs == d.outputs + [left[0].payload]
      && (PollWrites(d.s, limit) <= limit <==> |left[0].payload| <= limit)
  {
    hide PollWrites, Stream, Encoded, Delivered, Waiting, Packet, Greeted, Input, Scanned;
    if e.PollStep? && d.phase.Idle? {
      var left' := PollStartHolds(d, left, rest, limit);
      if Copies(d, e) {
        WritesFitIff(d.s, left[0].payload, limit);
      }
    }
  }
}
