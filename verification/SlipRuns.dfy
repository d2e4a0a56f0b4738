/** What the SLIP driver delivers, over every run. */
module SlipRuns {
  import opened Buffers
  import opened SlipSpec
  import opened SlipCopy

  // ---------------------------------------------------------------- The ring as a queue

  /** begin, pktEnd and nextFree follow one another round the ring. */
  predicate InOrder(s: Slip)
    requires Valid(s)
  {
    Distance(s.begin, s.pktEnd, |s.cells|) <= Distance(s.begin, s.nextFree, |s.cells|)
  }

  lemma SliceLength(cells: seq<bv8>, i: nat, j: nat)
    requires i < |cells| && j < |cells|
    ensures |Slice(cells, i, j)| == Distance(i, j, |cells|) < |cells|
  {}

  lemma SliceFirst(cells: seq<bv8>, i: nat, j: nat)
    requires i < |cells| && j < |cells| && i != j
    ensures Slice(cells, i, j) == [cells[i]] + Slice(cells, Next(i, |cells|), j)
    ensures Distance(i, j, |cells|) == 1 + Distance(Next(i, |cells|), j, |cells|)
  {}

  lemma SliceAppend(cells: seq<bv8>, i: nat, j: nat, c: bv8)
    requires i < |cells| && j < |cells| && Next(j, |cells|) != i
    ensures Slice(cells[j := c], i, Next(j, |cells|)) == Slice(cells, i, j) + [c]
  {}

  lemma SliceSplit(cells: seq<bv8>, i: nat, j: nat, k: nat)
    requires i < |cells| && j < |cells| && k < |cells|
    requires Distance(i, j, |cells|) <= Distance(i, k, |cells|)
    ensures Slice(cells, i, k) == Slice(cells, i, j) + Slice(cells, j, k)
  {}

  lemma SliceUntouched(cells: seq<bv8>, i: nat, j: nat, k: nat, c: bv8)
    requires i < |cells| && j < |cells| && k < |cells|
    requires Distance(i, j, |cells|) <= Distance(i, k, |cells|)
    ensures Slice(cells[k := c], i, j) == Slice(cells, i, j)
  {}

  /** FindEnd looks for the first END in the queue. */
  lemma {:induction false} FindEndFinds(cells: seq<bv8>, i: nat, stop: nat)
    requires i < |cells| && stop < |cells|
    ensures var f := FindEnd(cells, i, stop);
      && Distance(i, f, |cells|) <= Distance(i, stop, |cells|)
      && END !in Slice(cells, i, f)
      && (f != stop ==> cells[f] == END)
    decreases Distance(i, stop, |cells|)
  {
    if i != stop && cells[i] != END {
      var n := Next(i, |cells|);
      FindEndFinds(cells, n, stop);
      SliceFirst(cells, i, stop);
      var f := FindEnd(cells, n, stop);
      SliceFirst(cells, i, f);
    }
  }

  // ---------------------------------------------------------------- One byte, seen on the queue

  predicate Listening(s: Slip, c: bv8) {
    s.mode != Rubbish && (s.mode == Escape ==> c == ESC_END || c == ESC_ESC)
  }

  predicate HasRoom(s: Slip)
    requires Valid(s)
  {
    |Queue(s)| + 1 < |s.cells|
  }

  /** A byte goes to the end of the queue, except an END right after the first packet's
      last byte or in an empty ring. */
  lemma InputAppends(s: Slip, c: bv8)
    requires Valid(s) && InOrder(s) && Listening(s, c) && HasRoom(s)
    requires c == END ==> Queue(s) != Packet(s)
    ensures var (t, posted) := Input(s, c);
      && InOrder(t) && t.begin == s.begin
      && Queue(t) == Queue(s) + [c]
      && Packet(t) == (if c == END && Packet(s) == [] then Queue(s) else Packet(s))
      && (c == END ==> posted)
      && t.mode == if c == ESC then Escape else if s.mode == Escape then Ok else s.mode
  {
    var n := |s.cells|;
    SliceLength(s.cells, s.begin, s.nextFree);
    SliceLength(s.cells, s.begin, s.pktEnd);
    assert Next(s.nextFree, n) != s.begin;
    SliceAppend(s.cells, s.begin, s.nextFree, c);
    SliceUntouched(s.cells, s.begin, s.pktEnd, s.nextFree, c);
    SliceUntouched(s.cells, s.begin, s.nextFree, s.nextFree, c);
  }

  lemma InputDropsEmpty(s: Slip)
    requires Valid(s) && InOrder(s) && Listening(s, END) && HasRoom(s)
    requires Queue(s) == Packet(s)
    ensures var (t, posted) := Input(s, END);
      && InOrder(t) && t.begin == s.begin && !posted
      && Queue(t) == Queue(s) && Packet(t) == Packet(s)
      && t.mode == if s.mode == Escape then Ok else s.mode
  {
    var n := |s.cells|;
    SliceLength(s.cells, s.begin, s.nextFree);
    SliceLength(s.cells, s.begin, s.pktEnd);
    assert Next(s.nextFree, n) != s.begin;
    SliceUntouched(s.cells, s.begin, s.nextFree, s.nextFree, END);
  }

  // ---------------------------------------------------------------- Streams

  /** Every ESC but one at the very end is followed by its second half. */
  ghost predicate WellEscaped(x: seq<bv8>) {
    forall i | 0 <= i < |x| - 1 && x[i] == ESC :: x[i + 1] == ESC_END || x[i + 1] == ESC_ESC
  }

  predicate EndsWith(x: seq<bv8>, c: bv8) {
    x != [] && x[|x| - 1] == c
  }

  lemma {:induction false} EncodedShape(p: seq<bv8>)
    ensures END !in Encoded(p) && WellEscaped(Encoded(p)) && !EndsWith(Encoded(p), ESC)
    ensures Encoded(p) == [] <==> p == []
  {
    if p != [] {
      EncodedShape(p[1..]);
      assert !EndsWith(Escaped(p[0]), ESC);
    }
  }

  lemma WellEscapedJoin(a: seq<bv8>, b: seq<bv8>)
    requires WellEscaped(a) && WellEscaped(b) && !EndsWith(a, ESC)
    ensures WellEscaped(a + b)
  {}

  lemma WireShape(f: Frame)
    ensures WellEscaped(Wire(f)) && EndsWith(Wire(f), END)
  {
    hide Encoded;
    EncodedShape(f.payload);
    var lead := if f.flush then [END] else [];
    WellEscapedJoin(lead, Encoded(f.payload));
    WellEscapedJoin(lead + Encoded(f.payload), [END]);
  }

  lemma {:induction false} StreamShape(frames: seq<Frame>)
    ensures WellEscaped(Stream(frames)) && !EndsWith(Stream(frames), ESC)
    ensures frames != [] ==> EndsWith(Stream(frames), END)
  {
    if frames != [] {
      hide Encoded;
      StreamShape(frames[1..]);
      WireShape(frames[0]);
      WellEscapedJoin(Wire(frames[0]), Stream(frames[1..]));
    }
  }

  /** Where the first END is, or how long x is. */
  function FirstEnd(x: seq<bv8>): (k: nat)
    ensures k <= |x| && END !in x[..k] && (k < |x| ==> x[k] == END)
    ensures END in x <==> k < |x|
  {
    if x == [] || x[0] == END then 0 else
      var k := 1 + FirstEnd(x[1..]);
      assert x[..k] == [x[0]] + x[1..][..k - 1];
      k
  }

  /** What stands in front of the first END. */
  function FirstPacket(q: seq<bv8>): seq<bv8> {
    if END in q then q[..FirstEnd(q)] else []
  }

  lemma FirstPacketIs(a: seq<bv8>, b: seq<bv8>)
    requires END !in a && b != [] && b[0] == END
    ensures END in a + b && FirstPacket(a + b) == a && FirstEnd(a + b) == |a|
  {
    assert (a + b)[|a|] == END;
    assert !(FirstEnd(a + b) < |a|);
  }

  lemma FirstPacketStays(q: seq<bv8>, c: bv8)
    requires END in q
    ensures FirstPacket(q + [c]) == FirstPacket(q)
  {
    var k := FirstEnd(q);
    assert q + [c] == q[..k] + (q[k..] + [c]);
    FirstPacketIs(q[..k], q[k..] + [c]);
  }

  lemma FirstPacketComes(q: seq<bv8>, c: bv8)
    requires END !in q
    ensures FirstPacket(q + [c]) == (if c == END then q else [])
  {
    if c == END {
      FirstPacketIs(q, [c]);
    }
  }

  /** No END at the front and no two together: every END closes a packet. */
  predicate NoEmptyPacket(x: seq<bv8>) {
    forall i | 0 <= i < |x| && x[i] == END :: i > 0 && x[i - 1] != END
  }

  lemma {:induction false} GreetingIsPayload(plain: seq<bv8>, p: seq<bv8>, rest: seq<bv8>)
    requires END !in plain && ESC !in plain
    requires plain <= Encoded(p) + [END] + rest
    ensures plain <= p
  {
    if plain != [] {
      var x := Encoded(p) + [END] + rest;
      assert plain[0] == x[0];
      if p != [] {
        var y := Encoded(p[1..]) + [END] + rest;
        assert x == Escaped(p[0]) + y;
        assert x[0] == Escaped(p[0])[0];
        assert Escaped(p[0]) == [p[0]];
        assert x[1..] == y;
        assert plain[1..] <= y;
        GreetingIsPayload(plain[1..], p[1..], rest);
        assert plain == [plain[0]] + plain[1..] && p == [p[0]] + p[1..];
      }
    }
  }

  // ---------------------------------------------------------------- Runs

  /** Where the poll handler is: not running; with the packet copied and pkt_end moved on, but
      next_free not yet read; in the scan up to stop.  Bytes may arrive at any time: before
      the first of these points and after the last one the interrupt finds what it would find
      before and after the whole poll. */
  datatype Phase = Idle | Passing | Scanning(stop: nat)

  /** PollStep takes the poll handler to its next point, and starts it if it is not running. */
  datatype Event = Byte(c: bv8) | PollStep

  /** The driver, whether a poll event is posted and not yet handled, and what the polls
      have handed on so far. */
  datatype Run = Run(s: Slip, phase: Phase, pending: bool, outputs: seq<seq<bv8>>)

  predicate Sound(d: Run) {
    Valid(d.s) && (d.phase.Scanning? ==> d.phase.stop < |d.s.cells|)
  }

  /** One event.  A poll that copies nothing hands nothing on. */
  function Step(d: Run, e: Event, limit: nat): (r: Run)
    requires Sound(d)
    ensures Sound(r) && |r.s.cells| == |d.s.cells|
  {
    match e
    case Byte(c) =>
      var (s, posted) := Input(d.s, c);
      d.(s := s, pending := d.pending || posted)
    case PollStep =>
      match d.phase
      case Idle =>
        if Greeted(d.s) then d.(s := Reset(d.s), pending := false)
        else if d.s.begin == d.s.pktEnd then d.(pending := false)
        else
          var out := Delivered(d.s, limit);
          Run(Passed(d.s), Passing, false, if out == [] then d.outputs else d.outputs + [out])
      case Passing => d.(phase := Scanning(d.s.nextFree))
      case Scanning(stop) =>
        var (s, again) := Scanned(d.s, stop);
        d.(s := s, phase := Idle, pending := d.pending || again)
  }

  function RunOf(d: Run, events: seq<Event>, limit: nat): (r: Run)
    requires Sound(d)
    ensures Sound(r) && |r.s.cells| == |d.s.cells|
    decreases |events|
  {
    if events == [] then d else RunOf(Step(d, events[0], limit), events[1..], limit)
  }

  function InputOf(e: Event): seq<bv8> {
    if e.Byte? then [e.c] else []
  }

  function Inputs(events: seq<Event>): seq<bv8> {
    if events == [] then [] else InputOf(events[0]) + Inputs(events[1..])
  }

  /** The bytes not yet copied out: those behind pkt_end while a poll is running. */
  function Waiting(d: Run): seq<bv8>
    requires Sound(d)
  {
    if d.phase.Idle? then Queue(d.s) else Slice(d.s.cells, d.s.pktEnd, d.s.nextFree)
  }

  /** What the scan has in view. */
  function InView(d: Run): seq<bv8>
    requires Sound(d) && d.phase.Scanning?
  {
    Slice(d.s.cells, d.s.pktEnd, d.phase.stop)
  }

  /** There is room for the byte, and no END comes right after the END of a packet that has
      not been copied out yet. */
  predicate Timely(d: Run, e: Event)
    requires Sound(d)
  {
    e.Byte? ==> HasRoom(d.s) && (e.c == END ==> !EndsWith(Waiting(d), END))
  }

  /** The END closes a packet behind the place where a scan that finds nothing will stop. */
  predicate Unseen(d: Run, e: Event)
    requires Sound(d)
  {
    e == Byte(END) && d.phase.Scanning? && Waiting(d) != [] && END !in InView(d)
  }

  predicate AllTimely(d: Run, events: seq<Event>, limit: nat)
    requires Sound(d)
    decreases |events|
  {
    events == [] || (Timely(d, events[0]) && AllTimely(Step(d, events[0], limit), events[1..], limit))
  }

  predicate AllSeen(d: Run, events: seq<Event>, limit: nat)
    requires Sound(d)
    decreases |events|
  {
    events == [] || (!Unseen(d, events[0]) && AllSeen(Step(d, events[0], limit), events[1..], limit))
  }

  /** What every run with room keeps, whatever its timing: the bytes waiting and the bytes to come
      are the stream of some frames, and a packet that is known has an END behind it. */
  ghost predicate Loose(d: Run, left: seq<Frame>, rest: seq<bv8>)
    requires Sound(d)
  {
    var w, k := Waiting(d), Packet(d.s);
    && InOrder(d.s) && d.s.mode != Rubbish
    && w + rest == Stream(left)
    && (d.s.mode == Escape <==> EndsWith(w, ESC))
    && (d.phase.Idle? && k != [] ==> |k| < |w| && k == w[..|k|] && w[|k|] == END)
    && (!d.phase.Idle? ==> k != [])
    && (d.phase.Scanning? ==> InView(d) <= w)
  }

  /** What the right timing keeps besides: every END closes a packet; the first one is known to
      the driver, and a poll is posted; and the scan will find the first END that waits. */
  ghost predicate OnTime(d: Run)
    requires Sound(d)
  {
    var w := Waiting(d);
    && NoEmptyPacket(w)
    && (d.phase.Idle? ==> Packet(d.s) == FirstPacket(w) && (END in w ==> d.pending))
    && (d.phase.Scanning? ==> (END in w ==> END in InView(d)))
  }

  ghost predicate Holds(d: Run, left: seq<Frame>, rest: seq<bv8>)
    requires Sound(d)
  {
    Loose(d, left, rest) && OnTime(d)
  }

  ghost predicate AllSendable(frames: seq<Frame>, limit: nat) {
    forall i | 0 <= i < |frames| :: Sendable(frames[i].payload, limit)
  }

  ghost predicate NoneFlushed(frames: seq<Frame>) {
    forall i | 0 <= i < |frames| :: !frames[i].flush
  }

  function Unflushed(left: seq<Frame>): seq<Frame>
    requires left != []
  {
    [left[0].(flush := false)] + left[1..]
  }

  // ---------------------------------------------------------------- One byte of a run

  lemma NextByteIsLegal(d: Run, left: seq<Frame>, rest: seq<bv8>)
    requires Sound(d) && Loose(d, left, rest) && rest != []
    ensures Listening(d.s, rest[0]) && (d.s.mode == Escape ==> rest[0] != ESC)
  {
    hide Waiting, InView, Stream, InOrder, Packet;
    StreamShape(left);
    var w := Waiting(d);
    if d.s.mode == Escape {
      assert (w + rest)[|w| - 1] == ESC && (w + rest)[|w| - 1 + 1] == rest[0];
    }
  }

  /** While a poll is running, a byte goes behind those that wait, and moves neither begin nor
      pkt_end. */
  lemma InputDuringPoll(s: Slip, c: bv8)
    requires Valid(s) && InOrder(s) && Listening(s, c) && HasRoom(s) && s.begin != s.pktEnd
    requires c == END ==> s.nextFree != s.pktEnd
    ensures var (t, posted) := Input(s, c);
      && InOrder(t) && t.begin == s.begin && t.pktEnd == s.pktEnd
      && t.cells == s.cells[s.nextFree := c] && t.nextFree == Next(s.nextFree, |s.cells|)
      && Slice(t.cells, t.pktEnd, t.nextFree) == Slice(s.cells, s.pktEnd, s.nextFree) + [c]
      && (c == END ==> posted)
      && t.mode == if c == ESC then Escape else if s.mode == Escape then Ok else s.mode
  {
    var n := |s.cells|;
    SliceLength(s.cells, s.begin, s.nextFree);
    SliceLength(s.cells, s.begin, s.pktEnd);
    assert Next(s.nextFree, n) != s.begin && Next(s.nextFree, n) != s.pktEnd;
    SliceAppend(s.cells, s.pktEnd, s.nextFree, c);
  }

  lemma EndDroppedDuringPoll(s: Slip)
    requires Valid(s) && InOrder(s) && Listening(s, END) && HasRoom(s) && s.begin != s.pktEnd
    requires s.nextFree == s.pktEnd
    ensures var (t, posted) := Input(s, END);
      && InOrder(t) && t.begin == s.begin && t.pktEnd == s.pktEnd && t.nextFree == s.nextFree
      && t.cells == s.cells[s.nextFree := END] && !posted
      && t.mode == if s.mode == Escape then Ok else s.mode
  {
    SliceLength(s.cells, s.begin, s.nextFree);
    assert Next(s.nextFree, |s.cells|) != s.begin;
  }

  lemma EmptySlice(cells: seq<bv8>, i: nat, j: nat)
    requires i < |cells| && j < |cells|
    ensures Slice(cells, i, j) == [] <==> i == j
  {
    SliceLength(cells, i, j);
  }

  /** A prefix of a part of the ring stays when a byte is stored behind that part. */
  lemma PrefixStays(cells: seq<bv8>, i: nat, j: nat, k: nat, c: bv8)
    requires i < |cells| && j < |cells| && k < |cells|
    requires Slice(cells, i, j) <= Slice(cells, i, k)
    ensures Slice(cells[k := c], i, j) == Slice(cells, i, j)
  {
    SliceLength(cells, i, j);
    SliceLength(cells, i, k);
    SliceUntouched(cells, i, j, k, c);
  }

  /** A byte that is stored: it waits behind the others. */
  lemma ByteWaits(d: Run, left: seq<Frame>, rest: seq<bv8>, limit: nat)
    requires Sound(d) && Loose(d, left, rest) && rest != [] && HasRoom(d.s)
    requires rest[0] == END ==> Waiting(d) != []
    ensures var e := Step(d, Byte(rest[0]), limit);
      && Loose(e, left, rest[1..]) && e.outputs == d.outputs && e.phase == d.phase
      && Waiting(e) == Waiting(d) + [rest[0]]
      && (d.pending || rest[0] == END ==> e.pending)
      && (d.phase.Idle? ==> Packet(e.s) == if rest[0] == END && Packet(d.s) == [] then Waiting(d) else Packet(d.s))
      && (d.phase.Scanning? ==> InView(e) == InView(d))
  {
    hide Loose, Waiting, Packet, InView, Step, HasRoom, Stream;
    NextByteIsLegal(d, left, rest);
    if d.phase.Idle? {
      ByteWaitsIdle(d, left, rest, limit);
    } else {
      ByteWaitsInPoll(d, left, rest, limit);
    }
  }

  lemma ByteWaitsInPoll(d: Run, left: seq<Frame>, rest: seq<bv8>, limit: nat)
    requires Sound(d) && Loose(d, left, rest) && rest != [] && HasRoom(d.s) && !d.phase.Idle?
    requires Listening(d.s, rest[0]) && (d.s.mode == Escape ==> rest[0] != ESC)
    requires rest[0] == END ==> Waiting(d) != []
    ensures var e := Step(d, Byte(rest[0]), limit);
      && Loose(e, left, rest[1..]) && e.outputs == d.outputs && e.phase == d.phase
      && Waiting(e) == Waiting(d) + [rest[0]]
      && (d.pending || rest[0] == END ==> e.pending)
      && (d.phase.Scanning? ==> InView(e) == InView(d))
  {
    hide Input, Slice, Distance, Stream, InOrder, HasRoom;
    var w, c := Waiting(d), rest[0];
    EmptySlice(d.s.cells, d.s.begin, d.s.pktEnd);
    EmptySlice(d.s.cells, d.s.pktEnd, d.s.nextFree);
    InputDuringPoll(d.s, c);
    var e := Step(d, Byte(c), limit);
    EmptySlice(e.s.cells, e.s.begin, e.s.pktEnd);
    assert (w + [c]) + rest[1..] == w + rest;
    if d.phase.Scanning? {
      PrefixStays(d.s.cells, d.s.pktEnd, d.phase.stop, d.s.nextFree, c);
    }
  }

  lemma ByteWaitsIdle(d: Run, left: seq<Frame>, rest: seq<bv8>, limit: nat)
    requires Sound(d) && Loose(d, left, rest) && rest != [] && HasRoom(d.s) && d.phase.Idle?
    requires Listening(d.s, rest[0]) && (d.s.mode == Escape ==> rest[0] != ESC)
    requires rest[0] == END ==> Waiting(d) != []
    ensures var e := Step(d, Byte(rest[0]), limit);
      && Loose(e, left, rest[1..]) && e.outputs == d.outputs && e.phase == d.phase
      && Waiting(e) == Waiting(d) + [rest[0]]
      && (d.pending || rest[0] == END ==> e.pending)
      && Packet(e.s) == if rest[0] == END && Packet(d.s) == [] then Waiting(d) else Packet(d.s)
  {
    hide Input, Slice, Distance, Stream;
    var w, c := Waiting(d), rest[0];
    InputAppends(d.s, c);
    assert (w + [c]) + rest[1..] == w + rest;
  }

  /** An END with nothing waiting leaves no trace. */
  lemma EndDropped(d: Run, left: seq<Frame>, rest: seq<bv8>, limit: nat)
    requires Sound(d) && Loose(d, left, rest) && rest != [] && HasRoom(d.s) && AllSendable(left, limit)
    requires rest[0] == END && Waiting(d) == []
    ensures var e := Step(d, Byte(END), limit);
      && left != [] && Loose(e, Unflushed(left), rest[1..]) && e.outputs == d.outputs && e.phase == d.phase
      && Waiting(e) == [] && (d.phase.Idle? ==> Packet(e.s) == [])
  {
    hide Input, Slice, Distance, Stream;
    NextByteIsLegal(d, left, rest);
    assert [] + rest == rest && [] + rest[1..] == rest[1..];
    FlushIsFirst(left, limit);
    EmptySlice(d.s.cells, d.s.begin, d.s.pktEnd);
    if d.phase.Idle? {
      InputDropsEmpty(d.s);
    } else {
      EmptySlice(d.s.cells, d.s.pktEnd, d.s.nextFree);
      EndDroppedDuringPoll(d.s);
      var e := Step(d, Byte(END), limit);
      EmptySlice(e.s.cells, e.s.begin, e.s.pktEnd);
      EmptySlice(e.s.cells, e.s.pktEnd, e.s.nextFree);
      if d.phase.Scanning? {
        EmptySlice(d.s.cells, d.s.pktEnd, d.phase.stop);
        EmptySlice(e.s.cells, e.s.pktEnd, e.phase.stop);
      }
    }
  }

  lemma FlushIsFirst(left: seq<Frame>, limit: nat)
    requires AllSendable(left, limit) && Stream(left) != [] && Stream(left)[0] == END
    ensures left != [] && Stream(Unflushed(left)) == Stream(left)[1..]
  {
    var f := left[0];
    EncodedShape(f.payload);
    assert Sendable(f.payload, limit);
    if f.flush {
      assert Wire(f) == [END] + Wire(f.(flush := false));
      assert Unflushed(left)[1..] == left[1..];
    }
  }

  // ---------------------------------------------------------------- The points of a poll

  /** The packet and its END are passed. */
  lemma PassedDrops(s: Slip)
    requires Valid(s) && InOrder(s) && Packet(s) != [] && |Packet(s)| < |Queue(s)|
    ensures var t := Passed(s);
      InOrder(t) && t.begin != t.pktEnd && Slice(t.cells, t.pktEnd, t.nextFree) == Queue(s)[|Packet(s)| + 1..]
  {
    hide Slice;
    SliceLength(s.cells, s.begin, s.nextFree);
    SliceLength(s.cells, s.begin, s.pktEnd);
    SliceSplit(s.cells, s.begin, s.pktEnd, s.nextFree);
    assert s.pktEnd != s.nextFree;
    SliceFirst(s.cells, s.pktEnd, s.nextFree);
  }

  /** The scan finds the first END it has in view, and nothing behind. */
  lemma ScannedFinds(s: Slip, stop: nat)
    requires Valid(s) && InOrder(s) && stop < |s.cells|
    requires Slice(s.cells, s.pktEnd, stop) <= Slice(s.cells, s.pktEnd, s.nextFree)
    ensures var (t, again) := Scanned(s, stop);
      && InOrder(t) && t.mode == s.mode && Queue(t) == Slice(s.cells, s.pktEnd, s.nextFree)
      && again == (END in Slice(s.cells, s.pktEnd, stop))
      && Packet(t) == if again then FirstPacket(Queue(t)) else []
  {
    hide Slice, FindEnd;
    SliceLength(s.cells, s.pktEnd, stop);
    SliceLength(s.cells, s.pktEnd, s.nextFree);
    var found := FindEnd(s.cells, s.pktEnd, stop);
    FindEndFinds(s.cells, s.pktEnd, stop);
    NextPacket(s.cells, s.pktEnd, found, stop);
    if found != stop {
      NextPacket(s.cells, s.pktEnd, found, s.nextFree);
    }
  }

  lemma NextPacket(cells: seq<bv8>, i: nat, found: nat, stop: nat)
    requires i < |cells| && stop < |cells| && found < |cells|
    requires Distance(i, found, |cells|) <= Distance(i, stop, |cells|)
    requires END !in Slice(cells, i, found) && (found != stop ==> cells[found] == END)
    ensures (END in Slice(cells, i, stop)) == (found != stop)
    ensures FirstPacket(Slice(cells, i, stop)) == if found != stop then Slice(cells, i, found) else []
    ensures Slice(cells, i, i) == []
  {
    hide Slice;
    SliceLength(cells, i, i);
    if found != stop {
      SliceSplit(cells, i, found, stop);
      SliceFirst(cells, found, stop);
      FirstPacketIs(Slice(cells, i, found), Slice(cells, found, stop));
    }
  }

  lemma GreetingInQueue(s: Slip)
    requires Valid(s) && Greeted(s)
    ensures CLIENT <= Queue(s)
  {
    assert Queue(s)[..6] == s.cells[s.begin..s.begin + 6];
  }

  lemma HeadOfStream(left: seq<Frame>)
    requires Stream(left) != [] && Stream(left)[0] != END
    ensures left != [] && Stream(left) == Encoded(left[0].payload) + [END] + Stream(left[1..])
  {
    var w := Wire(left[0]);
    assert Stream(left)[0] == w[0];
    assert !left[0].flush;
    assert w == Encoded(left[0].payload) + [END];
  }

  lemma HeadFrame(q: seq<bv8>, left: seq<Frame>, rest: seq<bv8>)
    requires q + rest == Stream(left) && q != [] && q[0] != END
    ensures left != [] && q + rest == Encoded(left[0].payload) + [END] + Stream(left[1..])
  {
    hide Stream, Encoded;
    assert (q + rest)[0] == q[0];
    HeadOfStream(left);
  }

  lemma NoGreeting(d: Run, left: seq<Frame>, rest: seq<bv8>, limit: nat)
    requires Sound(d) && Loose(d, left, rest) && AllSendable(left, limit) && d.phase.Idle?
    ensures !Greeted(d.s)
  {
    hide Stream, Encoded, Queue, Greeted, InOrder, Packet;
    if Greeted(d.s) {
      var q := Queue(d.s);
      GreetingInQueue(d.s);
      assert q[0] == CLIENT[0];
      HeadFrame(q, left, rest);
      assert CLIENT <= q + rest;
      assert Sendable(left[0].payload, limit);
      GreetingIsPayload(CLIENT, left[0].payload, Stream(left[1..]));
    }
  }

  /** The first packet that waits is the first frame not yet handed on. */
  lemma FirstPacketIsPayload(q: seq<bv8>, left: seq<Frame>, rest: seq<bv8>)
    requires q + rest == Stream(left) && END in q && q[0] != END
    ensures left != [] && FirstPacket(q) == Encoded(left[0].payload) != []
    ensures q[|FirstPacket(q)| + 1..] + rest == Stream(left[1..])
  {
    hide Stream, Encoded;
    var k := FirstEnd(q);
    HeadFrame(q, left, rest);
    var e, more := Encoded(left[0].payload), Stream(left[1..]);
    EncodedShape(left[0].payload);
    assert q + rest == q[..k] + (q[k..] + rest);
    assert e + [END] + more == e + ([END] + more);
    SamePrefix(q[..k], q[k..] + rest, e, [END] + more);
    assert q[k + 1..] + rest == (q[k..] + rest)[1..] == more;
  }

  lemma SamePrefix(a: seq<bv8>, b: seq<bv8>, c: seq<bv8>, d: seq<bv8>)
    requires END !in a && b != [] && b[0] == END
    requires END !in c && d != [] && d[0] == END
    ensures a + b == c + d ==> a == c && b == d
  {
    FirstPacketIs(a, b);
    FirstPacketIs(c, d);
    assert (a + b)[|a|..] == b && (c + d)[|c|..] == d;
  }

  /** A poll starts: without a packet nothing happens; otherwise the packet is copied and passed. */
  lemma PollStarts(d: Run, left: seq<Frame>, rest: seq<bv8>, limit: nat)
    requires Sound(d) && Loose(d, left, rest) && AllSendable(left, limit) && d.phase.Idle?
    ensures var e, k, out := Step(d, PollStep, limit), Packet(d.s), Delivered(d.s, limit);
      if k == [] then e == d.(pending := false)
      else
        && e.phase.Passing? && e.outputs == (if out == [] then d.outputs else d.outputs + [out])
        && d.s.begin != d.s.pktEnd
        && Waiting(e) == Waiting(d)[|k| + 1..] && InOrder(e.s) && Packet(e.s) != [] && e.s.mode == d.s.mode
  {
    hide Stream, Delivered, Greeted, Slice, InOrder;
    NoGreeting(d, left, rest, limit);
    EmptySlice(d.s.cells, d.s.begin, d.s.pktEnd);
    if Packet(d.s) != [] {
      PassedDrops(d.s);
      var t := Passed(d.s);
      EmptySlice(t.cells, t.begin, t.pktEnd);
    }
  }

  lemma PollStartsLoose(d: Run, e: Run, left: seq<Frame>, left': seq<Frame>, rest: seq<bv8>)
    requires Sound(d) && Sound(e) && Loose(d, left, rest) && d.phase.Idle? && Packet(d.s) != []
    requires e.phase.Passing? && Waiting(e) == Waiting(d)[|Packet(d.s)| + 1..] && InOrder(e.s)
    requires Packet(e.s) != [] && e.s.mode == d.s.mode
    requires Stream(left') == Stream(left)[|Packet(d.s)| + 1..]
    ensures Loose(e, left', rest)
  {
    hide Stream, InOrder, Slice, Waiting;
    var w, j := Waiting(d), |Packet(d.s)|;
    assert (w + rest)[j + 1..] == w[j + 1..] + rest;
    assert w[j + 1..] != [] ==> w[j + 1..][|w| - j - 2] == w[|w| - 1];
  }

  /** next_free is read: everything that waits is in view. */
  lemma PollReads(d: Run, left: seq<Frame>, rest: seq<bv8>, limit: nat)
    requires Sound(d) && Loose(d, left, rest) && d.phase.Passing?
    ensures var e := Step(d, PollStep, limit);
      && Loose(e, left, rest) && e.phase.Scanning? && e.outputs == d.outputs
      && Waiting(e) == Waiting(d) == InView(e)
  {
    hide Stream, InOrder, Slice;
  }

  /** The scan ends: the first packet that was in view is known, and a poll is posted for it. */
  lemma PollScans(d: Run, left: seq<Frame>, rest: seq<bv8>, limit: nat)
    requires Sound(d) && Loose(d, left, rest) && d.phase.Scanning?
    ensures var e, seen := Step(d, PollStep, limit), END in InView(d);
      && Loose(e, left, rest) && e.phase.Idle? && e.outputs == d.outputs
      && Waiting(e) == Waiting(d) && (d.pending || seen ==> e.pending)
      && Packet(e.s) == if seen then FirstPacket(Waiting(d)) else []
  {
    hide Stream, InOrder, Slice, Scanned, FirstEnd;
    ScannedFinds(d.s, d.phase.stop);
    var w := Waiting(d);
    if END in InView(d) {
      assert END in w;
    }
  }

  // ---------------------------------------------------------------- Steps on time

  /** One step of a run that is on time. */
  lemma StepHolds(d: Run, e: Event, left: seq<Frame>, rest: seq<bv8>, limit: nat) returns (left': seq<Frame>)
    requires Sound(d) && Holds(d, left, rest) && AllSendable(left, limit)
    requires Timely(d, e) && !Unseen(d, e) && InputOf(e) <= rest
    ensures Holds(Step(d, e, limit), left', rest[|InputOf(e)|..]) && AllSendable(left', limit)
    ensures d.outputs + Payloads(left) == Step(d, e, limit).outputs + Payloads(left')
    ensures NoneFlushed(left) ==> NoneFlushed(left')
  {
    hide Loose, OnTime, Step, Waiting, Stream, Encoded;
    match e
    case Byte(c) =>
      assert c == rest[0];
      left' := ByteHolds(d, left, rest, limit);
    case PollStep =>
      match d.phase
      case Idle => left' := PollStartHolds(d, left, rest, limit);
      case Passing =>
        PollReads(d, left, rest, limit);
        PollReadOnTime(d, limit);
        left' := left;
      case Scanning(_) =>
        PollScans(d, left, rest, limit);
        PollScanOnTime(d, left, rest, limit);
        left' := left;
  }

  lemma ByteHolds(d: Run, left: seq<Frame>, rest: seq<bv8>, limit: nat) returns (left': seq<Frame>)
    requires Sound(d) && Holds(d, left, rest) && AllSendable(left, limit)
    requires rest != [] && Timely(d, Byte(rest[0])) && !Unseen(d, Byte(rest[0]))
    ensures Holds(Step(d, Byte(rest[0]), limit), left', rest[1..]) && AllSendable(left', limit)
    ensures d.outputs == Step(d, Byte(rest[0]), limit).outputs && Payloads(left) == Payloads(left')
    ensures NoneFlushed(left) ==> NoneFlushed(left')
  {
    hide Loose, Step, Waiting, InView, Stream, Encoded, FirstEnd, HasRoom;
    var c, w := rest[0], Waiting(d);
    var e := Step(d, Byte(c), limit);
    if w == [] && c == END {
      EndDropped(d, left, rest, limit);
      left' := Unflushed(left);
      assert Payloads(left') == Payloads(left);
      assert FirstPacket(Waiting(e)) == [];
    } else {
      ByteWaits(d, left, rest, limit);
      left' := left;
      if END in w {
        FirstPacketStays(w, c);
      } else {
        FirstPacketComes(w, c);
      }
    }
  }

  lemma PayloadsHead(out: seq<seq<bv8>>, frames: seq<Frame>)
    requires frames != []
    ensures out + Payloads(frames) == out + [frames[0].payload] + Payloads(frames[1..])
  {}

  lemma PollStartHolds(d: Run, left: seq<Frame>, rest: seq<bv8>, limit: nat) returns (left': seq<Frame>)
    requires Sound(d) && Holds(d, left, rest) && AllSendable(left, limit) && d.phase.Idle?
    ensures var e := Step(d, PollStep, limit);
      && Holds(e, left', rest) && AllSendable(left', limit)
      && d.outputs + Payloads(left) == e.outputs + Payloads(left')
      && (NoneFlushed(left) ==> NoneFlushed(left'))
      && (d.s.begin == d.s.pktEnd ==> e.outputs == d.outputs)
      && (d.s.begin != d.s.pktEnd ==>
            left != [] && Packet(d.s) == Encoded(left[0].payload) && e.outputs == d.outputs + [left[0].payload])
  {
    hide Step, Stream, Encoded, FirstEnd, InOrder, Delivered, Slice;
    var e, w := Step(d, PollStep, limit), Waiting(d);
    PollStarts(d, left, rest, limit);
    EmptySlice(d.s.cells, d.s.begin, d.s.pktEnd);
    if END in w {
      FirstPacketIsPayload(w, left, rest);
    }
    if Packet(d.s) == [] {
      left' := left;
    } else {
      left' := left[1..];
      assert Sendable(left[0].payload, limit);
      DeliversPayload(d.s, left[0].payload, limit);
      PayloadsHead(d.outputs, left);
      StreamBehind(w, rest, left, |Packet(d.s)|);
      PollStartsLoose(d, e, left, left', rest);
    }
  }

  lemma StreamBehind(w: seq<bv8>, rest: seq<bv8>, left: seq<Frame>, k: nat)
    requires w + rest == Stream(left) && k < |w|
    ensures Stream(left)[k + 1..] == w[k + 1..] + rest
  {}

  lemma PollReadOnTime(d: Run, limit: nat)
    requires Sound(d) && OnTime(d) && d.phase.Passing?
    ensures OnTime(Step(d, PollStep, limit))
  {
    hide Slice;
  }

  lemma PollScanOnTime(d: Run, left: seq<Frame>, rest: seq<bv8>, limit: nat)
    requires Sound(d) && Loose(d, left, rest) && OnTime(d) && d.phase.Scanning?
    ensures OnTime(Step(d, PollStep, limit))
  {
    hide Loose, Step, Waiting, InView, FirstEnd;
    PollScans(d, left, rest, limit);
    ViewIsPrefix(d, left, rest);
  }

  lemma ViewIsPrefix(d: Run, left: seq<Frame>, rest: seq<bv8>)
    requires Sound(d) && Loose(d, left, rest) && d.phase.Scanning?
    ensures InView(d) <= Waiting(d) && (END in InView(d) ==> END in Waiting(d))
  {}

  // ---------------------------------------------------------------- The main results

  /** Over every interleaving of bytes and the points of polls, what the polls hand on is a
      prefix of the payloads sent, in order, wherever packets and escapes cross the end of the
      ring; and the bytes that wait plus the bytes to come are the stream of the frames not
      handed on. */
  lemma {:induction false} DeliversInOrder(
      d: Run, events: seq<Event>, frames: seq<Frame>, rest: seq<bv8>, limit: nat) returns (left: seq<Frame>)
    requires Sound(d) && Holds(d, frames, rest) && AllSendable(frames, limit)
    requires AllTimely(d, events, limit) && AllSeen(d, events, limit) && Inputs(events) <= rest
    ensures var e := RunOf(d, events, limit);
      && Holds(e, left, rest[|Inputs(events)|..])
      && d.outputs + Payloads(frames) == e.outputs + Payloads(left)
    decreases |events|
  {
    hide Holds, Step, Waiting, Stream, Encoded, Timely, Unseen;
    if events == [] {
      left := frames;
    } else {
      var x := InputOf(events[0]);
      assert Inputs(events) == x + Inputs(events[1..]);
      var frames' := StepHolds(d, events[0], frames, rest, limit);
      left := DeliversInOrder(Step(d, events[0], limit), events[1..], frames', rest[|x|..], limit);
      assert rest[|x|..][|Inputs(events[1..])|..] == rest[|Inputs(events)|..];
    }
  }

  /** The driver after slip_init, with nothing received yet. */
  function Started(cells: seq<bv8>): (d: Run)
    requires cells != []
    ensures Sound(d)
  {
    Run(Slip(Ok, 0, 0, 0, cells), Idle, false, [])
  }

  lemma StartHolds(cells: seq<bv8>, frames: seq<Frame>)
    requires cells != []
    ensures Holds(Started(cells), frames, Stream(frames))
  {
    assert [] + Stream(frames) == Stream(frames);
  }

  /** No poll is running and none is posted. */
  predicate Settled(d: Run) {
    d.phase.Idle? && !d.pending
  }

  /** Once every frame has arrived and no poll is left over, everything has been handed on. */
  lemma DeliversEverything(cells: seq<bv8>, events: seq<Event>, frames: seq<Frame>, limit: nat)
    requires cells != [] && AllSendable(frames, limit)
    requires var d := Started(cells);
      AllTimely(d, events, limit) && AllSeen(d, events, limit) && Inputs(events) == Stream(frames)
    ensures var e := RunOf(Started(cells), events, limit);
      && e.outputs <= Payloads(frames)
      && (Settled(e) ==> e.outputs == Payloads(frames))
  {
    hide Waiting, InView, InOrder, Packet;
    var d := Started(cells);
    StartHolds(cells, frames);
    var left := DeliversInOrder(d, events, frames, Stream(frames), limit);
    var e := RunOf(d, events, limit);
    assert [] + Payloads(frames) == Payloads(frames);
    assert Waiting(e) + [] == Waiting(e) == Stream(left);
    StreamShape(left);
    if Settled(e) {
      assert END !in Waiting(e);
      assert left == [];
      assert e.outputs + [] == e.outputs;
    }
  }

  // ---------------------------------------------------------------- Bytes inside a poll

  /** A byte that arrives while the scan is running leaves what it would have left just after the
      poll, exactly when it is not the END of a packet that the scan does not see. */
  lemma ByteCommutesIff(d: Run, left: seq<Frame>, rest: seq<bv8>, limit: nat)
    requires Sound(d) && Holds(d, left, rest) && d.phase.Scanning? && rest != [] && HasRoom(d.s)
    ensures var c := Byte(rest[0]);
      var inside := Step(Step(d, c, limit), PollStep, limit);
      var after := Step(Step(d, PollStep, limit), c, limit);
      inside.(pending := after.pending) == after <==> !Unseen(d, c)
  {
    hide Slice, InOrder, Distance, Stream, FindEnd, HasRoom;
    NextByteIsLegal(d, left, rest);
    EmptySlice(d.s.cells, d.s.begin, d.s.pktEnd);
    EmptySlice(d.s.cells, d.s.pktEnd, d.s.nextFree);
    EmptySlice(d.s.cells, d.s.pktEnd, d.phase.stop);
    if Waiting(d) != [] {
      SliceFirst(d.s.cells, d.s.pktEnd, d.s.nextFree);
      assert d.s.cells[d.s.pktEnd] == Waiting(d)[0] != END;
    }
    StoredInPoll(d, rest[0]);
  }

  lemma StoredInPoll(d: Run, c: bv8)
    requires Sound(d) && InOrder(d.s) && d.phase.Scanning? && d.s.begin != d.s.pktEnd
    requires InView(d) <= Waiting(d) && HasRoom(d.s) && Listening(d.s, c)
    ensures var found := FindEnd(d.s.cells, d.s.pktEnd, d.phase.stop);
      && FindEnd(d.s.cells[d.s.nextFree := c], d.s.pktEnd, d.phase.stop) == found
      && (found == d.phase.stop <==> END !in InView(d))
      && Next(d.s.nextFree, |d.s.cells|) != d.s.begin && Next(d.s.nextFree, |d.s.cells|) != d.s.pktEnd
      && (found != d.phase.stop ==> found != d.s.nextFree && d.s.cells[found] == END)
  {
    var s, stop := d.s, d.phase.stop;
    SliceLength(s.cells, s.begin, s.nextFree);
    SliceLength(s.cells, s.begin, s.pktEnd);
    SliceLength(s.cells, s.pktEnd, s.nextFree);
    SliceLength(s.cells, s.pktEnd, stop);
    FindEndFinds(s.cells, s.pktEnd, stop);
    NextPacket(s.cells, s.pktEnd, FindEnd(s.cells, s.pktEnd, stop), stop);
    FindEndStays(s.cells, s.pktEnd, stop, s.nextFree, c);
  }

  lemma {:induction false} FindEndStays(cells: seq<bv8>, i: nat, stop: nat, k: nat, c: bv8)
    requires i < |cells| && stop < |cells| && k < |cells|
    requires Distance(i, stop, |cells|) <= Distance(i, k, |cells|)
    ensures FindEnd(cells[k := c], i, stop) == FindEnd(cells, i, stop)
    decreases Distance(i, stop, |cells|)
  {
    if i != stop && cells[i] != END {
      SliceFirst(cells, i, stop);
      SliceFirst(cells, i, k);
      FindEndStays(cells, Next(i, |cells|), stop, k, c);
    }
  }

  /** A byte that arrives before next_free is read leaves what it would have left just after the
      poll. */
  lemma ByteBeforeRead(d: Run, left: seq<Frame>, rest: seq<bv8>, limit: nat)
    requires Sound(d) && Holds(d, left, rest) && d.phase.Passing? && rest != [] && HasRoom(d.s)
    ensures var c := Byte(rest[0]);
      var inside := Step(Step(Step(d, c, limit), PollStep, limit), PollStep, limit);
      var after := Step(Step(Step(d, PollStep, limit), PollStep, limit), c, limit);
      inside.(pending := after.pending) == after
  {
    hide Slice, InOrder, Distance, Stream, FindEnd, HasRoom, Input, Scanned;
    NextByteIsLegal(d, left, rest);
    EmptySlice(d.s.cells, d.s.begin, d.s.pktEnd);
    EmptySlice(d.s.cells, d.s.pktEnd, d.s.nextFree);
    var s := d.s;
    if Waiting(d) != [] {
      SliceFirst(s.cells, s.pktEnd, s.nextFree);
      assert s.cells[s.pktEnd] == Waiting(d)[0] != END;
    }
    RoomInPoll(d);
    InputThenScan(s, rest[0]);
  }

  lemma InputThenScan(s: Slip, c: bv8)
    requires Valid(s) && Listening(s, c) && s.begin != s.pktEnd
    requires Next(s.nextFree, |s.cells|) != s.begin && Next(s.nextFree, |s.cells|) != s.pktEnd
    requires s.nextFree != s.pktEnd ==> s.cells[s.pktEnd] != END
    ensures var t := Input(s, c).0; Scanned(t, t.nextFree).0 == Input(Scanned(s, s.nextFree).0, c).0
  {
    hide FindEnd;
    var t := Input(s, c).0;
    if c == END && s.nextFree == s.pktEnd {
      FindNothing(s.cells, s.pktEnd);
      FindNothing(t.cells, s.pktEnd);
    } else {
      assert t.cells == s.cells[s.nextFree := c] && t.nextFree == Next(s.nextFree, |s.cells|);
      assert t.begin == s.begin && t.pktEnd == s.pktEnd;
      FindEndExtends(s.cells, s.pktEnd, s.nextFree, c);
    }
  }

  lemma FindNothing(cells: seq<bv8>, i: nat)
    requires i < |cells|
    ensures FindEnd(cells, i, i) == i
  {}

  lemma RoomInPoll(d: Run)
    requires Sound(d) && InOrder(d.s) && d.s.begin != d.s.pktEnd && HasRoom(d.s)
    ensures Next(d.s.nextFree, |d.s.cells|) != d.s.begin && Next(d.s.nextFree, |d.s.cells|) != d.s.pktEnd
  {
    SliceLength(d.s.cells, d.s.begin, d.s.nextFree);
    SliceLength(d.s.cells, d.s.begin, d.s.pktEnd);
  }

  lemma {:induction false} FindEndExtends(cells: seq<bv8>, i: nat, j: nat, c: bv8)
    requires i < |cells| && j < |cells| && Next(j, |cells|) != i
    ensures var found := FindEnd(cells, i, j);
      FindEnd(cells[j := c], i, Next(j, |cells|))
      == if found != j then found else if c == END then j else Next(j, |cells|)
    ensures FindEnd(cells, i, j) != j ==>
      cells[FindEnd(cells, i, j)] == END && FindEnd(cells, i, j) != Next(j, |cells|)
    decreases Distance(i, j, |cells|)
  {
    if i == j {
      FindNothing(cells[j := c], Next(j, |cells|));
    } else if cells[i] != END {
      SliceFirst(cells, i, j);
      FindEndExtends(cells, Next(i, |cells|), j, c);
    }
  }

  // ---------------------------------------------------------------- An END that the scan misses

  /** Three steps: a poll that nothing interrupts. */
  const POLL: seq<Event> := [PollStep, PollStep, PollStep]

  lemma PollAlone(d: Run, limit: nat)
    requires Sound(d) && d.phase.Idle? && !Greeted(d.s)
    ensures var (s, out, again) := Poll(d.s, limit);
      RunOf(d, POLL, limit) == Run(s, Idle, again, if out == [] then d.outputs else d.outputs + [out])
  {
    hide Delivered, Scanned, Greeted;
    assert POLL[1..] == [PollStep, PollStep] && POLL[1..][1..] == [PollStep] && POLL[1..][1..][1..] == [];
    var d1 := Step(d, PollStep, limit);
    var d2 := Step(d1, PollStep, limit);
    var d3 := Step(d2, PollStep, limit);
    assert RunOf(d3, [], limit) == d3;
    assert RunOf(d2, [PollStep], limit) == d3;
    assert RunOf(d1, [PollStep, PollStep], limit) == d3;
  }

  /** What a poll does that nothing interrupts. */
  lemma PollDrops(s: Slip, limit: nat)
    requires Valid(s) && InOrder(s) && !Greeted(s)
    requires Packet(s) != [] && |Packet(s)| < |Queue(s)|
    ensures var (t, out, again) := Poll(s, limit);
      && InOrder(t) && t.mode == s.mode && out == Delivered(s, limit)
      && Queue(t) == Queue(s)[|Packet(s)| + 1..]
      && Packet(t) == FirstPacket(Queue(t))
      && again == (END in Queue(t))
  {
    hide Delivered, FindEnd, Slice, Scanned;
    PassedDrops(s);
    EmptySlice(s.cells, s.begin, s.pktEnd);
    ScannedFinds(Passed(s), s.nextFree);
  }

  // ---------------------------------------------------------------- An END too many

  function Bytes(x: seq<bv8>): seq<Event> {
    seq(|x|, i requires 0 <= i < |x| => Byte(x[i]))
  }

  lemma {:induction false} RunOfJoin(d: Run, a: seq<Event>, b: seq<Event>, limit: nat)
    requires Sound(d)
    ensures RunOf(d, a + b, limit) == RunOf(RunOf(d, a, limit), b, limit)
    decreases |a|
  {
    if a == [] {
      assert a + b == b;
    } else {
      assert (a + b)[1..] == a[1..] + b;
      RunOfJoin(Step(d, a[0], limit), a[1..], b, limit);
    }
  }

  ghost predicate Grown(d: Run, e: Run, x: seq<bv8>)
    requires Sound(d) && Sound(e)
  {
    && InOrder(e.s) && e.phase.Idle? && e.outputs == d.outputs && |e.s.cells| == |d.s.cells|
    && Queue(e.s) == Queue(d.s) + x && Packet(e.s) == Packet(d.s)
  }

  lemma DataByteGrows(d: Run, c: bv8, limit: nat)
    requires Sound(d) && d.phase.Idle? && InOrder(d.s) && Listening(d.s, c) && HasRoom(d.s) && c != END
    ensures Grown(d, Step(d, Byte(c), limit), [c])
    ensures Step(d, Byte(c), limit).s.mode
         == if c == ESC then Escape else if d.s.mode == Escape then Ok else d.s.mode
  {
    InputAppends(d.s, c);
  }

  lemma {:induction false} FeedEncoded(d: Run, p: seq<bv8>, limit: nat)
    requires Sound(d) && d.phase.Idle? && InOrder(d.s) && d.s.mode == Ok
    requires |Queue(d.s)| + |Encoded(p)| < |d.s.cells|
    ensures var e := RunOf(d, Bytes(Encoded(p)), limit); Grown(d, e, Encoded(p)) && e.s.mode == Ok
    decreases |p|
  {
    hide Input, InOrder, Queue, Packet, Step, Poll;
    if p == [] {
      assert Queue(d.s) + [] == Queue(d.s);
    } else {
      FeedOne(d, p[0], limit);
      var e := RunOf(d, Bytes(Escaped(p[0])), limit);
      FeedEncoded(e, p[1..], limit);
      assert Bytes(Encoded(p)) == Bytes(Escaped(p[0])) + Bytes(Encoded(p[1..]));
      RunOfJoin(d, Bytes(Escaped(p[0])), Bytes(Encoded(p[1..])), limit);
      assert Queue(d.s) + Encoded(p) == Queue(d.s) + Escaped(p[0]) + Encoded(p[1..]);
    }
  }

  lemma FeedOne(d: Run, c: bv8, limit: nat)
    requires Sound(d) && d.phase.Idle? && InOrder(d.s) && d.s.mode == Ok
    requires |Queue(d.s)| + |Escaped(c)| < |d.s.cells|
    ensures var e := RunOf(d, Bytes(Escaped(c)), limit); Grown(d, e, Escaped(c)) && e.s.mode == Ok
  {
    hide Input, InOrder, Queue, Packet;
    var x := Escaped(c);
    DataByteGrows(d, x[0], limit);
    var d1 := Step(d, Byte(x[0]), limit);
    assert RunOf(d1, [], limit) == d1;
    if |x| == 2 {
      DataByteGrows(d1, x[1], limit);
      var d2 := Step(d1, Byte(x[1]), limit);
      assert Bytes(x) == [Byte(x[0]), Byte(x[1])] && Bytes(x)[1..] == [Byte(x[1])] && Bytes(x)[1..][1..] == [];
      assert RunOf(d2, [], limit) == d2;
      assert RunOf(d1, [Byte(x[1])], limit) == d2;
      assert Queue(d.s) + x == Queue(d.s) + [x[0]] + [x[1]];
    } else {
      assert Bytes(x) == [Byte(x[0])] && Bytes(x)[1..] == [];
    }
  }

  /** One packet waits for its poll, and a second END arrives: the poll hands that packet
      on, and the END stays behind. */
  lemma StrayEndStays(d: Run, p: seq<bv8>, limit: nat) returns (e: Run)
    requires Sound(d) && d.phase.Idle? && InOrder(d.s) && d.s.mode == Ok && Sendable(p, limit) && HasRoom(d.s)
    requires Queue(d.s) == Encoded(p) + [END] && Packet(d.s) == Encoded(p)
    ensures e == RunOf(Step(d, Byte(END), limit), POLL, limit) && Sound(e) && e.phase.Idle?
    ensures InOrder(e.s) && e.s.mode == Ok && |e.s.cells| == |d.s.cells| && e.outputs == d.outputs + [p]
    ensures Queue(e.s) == [END] && Packet(e.s) == []
  {
    hide Input, Slice, FindEnd, Delivered, Poll;
    EncodedShape(p);
    InputAppends(d.s, END);
    var d1 := Step(d, Byte(END), limit);
    assert Queue(d1.s) == Encoded(p) + [END, END] == Encoded(p) + [END] + [END];
    FirstPacketIs(Encoded(p), [END, END]);
    PlainNoGreeting(d1.s, p, [END], limit);
    PollDrops(d1.s, limit);
    SliceLength(d1.s.cells, d1.s.begin, d1.s.pktEnd);
    DeliversPayload(d1.s, p, limit);
    PollAlone(d1, limit);
    e := RunOf(d1, POLL, limit);
    assert Queue(e.s) == [END];
  }

  lemma PlainNoGreeting(s: Slip, p: seq<bv8>, rest: seq<bv8>, limit: nat)
    requires Valid(s) && Sendable(p, limit) && Queue(s) == Encoded(p) + [END] + rest
    ensures !Greeted(s)
  {
    if Greeted(s) {
      GreetingInQueue(s);
      GreetingIsPayload(CLIENT, p, rest);
    }
  }

  lemma NoGreetingAfterEnd(s: Slip)
    requires Valid(s) && Queue(s) != [] && Queue(s)[0] == END
    ensures !Greeted(s)
  {
    if Greeted(s) {
      GreetingInQueue(s);
    }
  }

  /** The END left behind is then handed on as the first byte of the next payload. */
  lemma StrayEndIsHandedOn(d: Run, q: seq<bv8>, limit: nat) returns (e: Run)
    requires Sound(d) && d.phase.Idle? && InOrder(d.s) && d.s.mode == Ok && 0 < |q| <= limit && HasRoom(d.s)
    requires Queue(d.s) == [END] + Encoded(q) && Packet(d.s) == []
    ensures e == RunOf(Step(d, Byte(END), limit), POLL, limit)
    ensures e.outputs == d.outputs + [[END] + q]
  {
    hide Input, Slice, Delivered, Encoded, Scanned;
    InputAppends(d.s, END);
    var d1 := Step(d, Byte(END), limit);
    assert Queue(d1.s)[0] == END;
    NoGreetingAfterEnd(d1.s);
    SliceLength(d1.s.cells, d1.s.begin, d1.s.pktEnd);
    assert Packet(d1.s) == [END] + Encoded(q);
    DeliversStrayEnd(d1.s, q, limit);
    PollAlone(d1, limit);
    e := RunOf(d1, POLL, limit);
  }

  /** So the timing matters: the driver's own sender puts an END in front of every frame, and
      when that END comes before the poll of the packet in front, the next payload q is
      handed on as END followed by q. */
  lemma LatePollSpoils(d: Run, p: seq<bv8>, q: seq<bv8>, limit: nat)
    requires Sound(d) && d.phase.Idle? && InOrder(d.s) && d.s.mode == Ok && Sendable(p, limit) && 0 < |q| <= limit
    requires Queue(d.s) == Encoded(p) + [END] && Packet(d.s) == Encoded(p)
    requires |Encoded(p)| + 2 < |d.s.cells| && |Encoded(q)| + 2 < |d.s.cells|
    ensures RunOf(d, [Byte(END)] + POLL + Bytes(Encoded(q)) + [Byte(END)] + POLL, limit).outputs
         == d.outputs + [p, [END] + q]
  {
    hide Encoded, Queue, Packet, InOrder, Step;
    assert HasRoom(d.s);
    var d2 := StrayEndStays(d, p, limit);
    ByteThen(d, POLL, limit);
    FeedEncoded(d2, q, limit);
    var d3 := RunOf(d2, Bytes(Encoded(q)), limit);
    var d5 := StrayEndIsHandedOn(d3, q, limit);
    ByteThen(d3, POLL, limit);
    var x, y := [Byte(END)] + POLL, [Byte(END)] + POLL;
    RunOfJoin(d, x, Bytes(Encoded(q)), limit);
    RunOfJoin(d, x + Bytes(Encoded(q)), y, limit);
    assert x + Bytes(Encoded(q)) + y == [Byte(END)] + POLL + Bytes(Encoded(q)) + [Byte(END)] + POLL;
    assert d5.outputs == d.outputs + [p] + [[END] + q];
  }

  lemma ByteThen(d: Run, events: seq<Event>, limit: nat)
    requires Sound(d)
    ensures RunOf(d, [Byte(END)] + events, limit) == RunOf(Step(d, Byte(END), limit), events, limit)
  {
    hide Step;
    assert ([Byte(END)] + events)[1..] == events;
  }
}
