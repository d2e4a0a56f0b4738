/** What becomes of a run of the SLIP driver in which an END arrives too early, or is missed by a
    scan: the payloads are not all handed on as they were sent, whatever happens later. */
module SlipStray {
  import opened SlipSpec
  import opened SlipCopy
  import opened SlipRuns
  import opened SlipTiming

  // ---------------------------------------------------------------- Counting characters

  /** How many characters some cells stand for, and whether an escape is open at their end. */
  function Count(cells: seq<bv8>, escaped: bool): nat {
    if cells == [] then 0
    else if escaped then (if cells[0] == ESC_ESC || cells[0] == ESC_END then 1 else 0) + Count(cells[1..], false)
    else if cells[0] == ESC then Count(cells[1..], true)
    else 1 + Count(cells[1..], false)
  }

  function Open(cells: seq<bv8>, escaped: bool): bool {
    if cells == [] then escaped
    else Open(cells[1..], !escaped && cells[0] == ESC)
  }

  lemma {:induction false} CountJoin(a: seq<bv8>, b: seq<bv8>, escaped: bool)
    ensures Count(a + b, escaped) == Count(a, escaped) + Count(b, Open(a, escaped))
  {
    if a == [] {
      assert a + b == b;
    } else {
      assert (a + b)[1..] == a[1..] + b;
      CountJoin(a[1..], b, !escaped && a[0] == ESC);
    }
  }

  lemma {:induction false} CountEncoded(p: seq<bv8>)
    ensures Count(Encoded(p), false) == |p| && !Open(Encoded(p), false)
  {
    if p != [] {
      CountEncoded(p[1..]);
      var x, y := Escaped(p[0]), Encoded(p[1..]);
      if |x| == 2 {
        assert (x + y)[1..][1..] == y;
      } else {
        assert (x + y)[1..] == y;
      }
    }
  }

  /** An escape is open only behind an ESC. */
  lemma {:induction false} OpenBehindEsc(a: seq<bv8>)
    requires Open(a, false)
    ensures EndsWith(a, ESC)
  {
    OpenIsLast(a, false);
  }

  lemma {:induction false} OpenIsLast(a: seq<bv8>, escaped: bool)
    requires a != [] && Open(a, escaped)
    ensures EndsWith(a, ESC)
  {
    if |a| > 1 {
      OpenIsLast(a[1..], !escaped && a[0] == ESC);
    } else {
      assert a[1..] == [];
    }
  }

  /** A run of the copy loop leaves all the characters, or gives up with limit + 1 of them out. */
  lemma {:induction false} CopiedCounts(cells: seq<bv8>, out: seq<bv8>, escaped: bool, limit: nat)
    requires |out| <= limit + 1 && (escaped ==> |out| <= limit)
    ensures var (o, e) := Copied(cells, out, escaped, limit);
      || (|o| == |out| + Count(cells, escaped) <= limit + 1 && e == Open(cells, escaped) && (e ==> |o| <= limit))
      || (o == [] && !e && |out| + Count(cells, escaped) >= limit + 1)
    decreases |cells|
  {
    if cells != [] && |out| <= limit {
      var (o, e) := Put(out, escaped, cells[0]);
      CopiedCounts(cells[1..], o, e, limit);
    }
  }

  /** The second half of an escape counts as much whether the escape is open or not. */
  lemma HalfCounts(b: seq<bv8>)
    requires b != [] && (b[0] == ESC_END || b[0] == ESC_ESC)
    ensures Count(b, false) == Count(b, true)
  {}

  lemma CountRest(a: seq<bv8>, b: seq<bv8>)
    requires WellEscaped(a + b) && !EndsWith(a + b, ESC)
    ensures Count(a + b, false) == Count(a, false) + Count(b, false)
  {
    CountJoin(a, b, false);
    if b != [] && Open(a, false) {
      OpenBehindEsc(a);
      assert (a + b)[|a| - 1] == ESC && (a + b)[|a| - 1 + 1] == b[0];
      HalfCounts(b);
    }
  }

  // ---------------------------------------------------------------- A packet with a stray END

  /** A payload with one END too many, or two: that of its own frame in front, and that of the
      frame behind. */
  predicate StrayPacket(x: seq<bv8>, p: seq<bv8>) {
    x == [END] + Encoded(p) || x == [END] + Encoded(p) + [END] || x == Encoded(p) + [END]
  }

  lemma StrayCount(x: seq<bv8>, p: seq<bv8>)
    requires StrayPacket(x, p)
    ensures |p| < Count(x, false) <= |p| + 2 && WellEscaped(x) && !EndsWith(x, ESC)
  {
    hide Encoded;
    var lead: seq<bv8> := [END];
    EncodedShape(p);
    CountEncoded(p);
    assert lead[1..] == [] && Count(lead, false) == 1 && !Open(lead, false);
    CountJoin(lead, Encoded(p), false);
    CountJoin(Encoded(p), lead, false);
    WellEscapedJoin(lead, Encoded(p));
    WellEscapedJoin(Encoded(p), lead);
    if x == lead + Encoded(p) + lead {
      assert x == lead + (Encoded(p) + lead);
      CountJoin(lead, Encoded(p) + lead, false);
      WellEscapedJoin(lead + Encoded(p), lead);
    }
  }

  /** Such a packet is never handed on as its payload, even where the loop starts anew in the
      middle of it. */
  lemma StrayIsNotPayload(s: Slip, p: seq<bv8>, limit: nat)
    requires Valid(s) && s.begin != s.pktEnd && StrayPacket(Packet(s), p) && p != [] && limit >= 2
    ensures Delivered(s, limit) != p
  {
    hide Encoded, Copied, Count, Open, StrayPacket, WellEscaped;
    var x := Packet(s);
    StrayCount(x, p);
    if s.begin < s.pktEnd {
      CopiedCounts(x, [], false, limit);
    } else {
      var a, b := s.cells[s.begin..], s.cells[..s.pktEnd];
      CountJoin(a, b, false);
      CountRest(a, b);
      CopiedCounts(a, [], false, limit);
      var (o, e) := Copied(a, [], false, limit);
      CopiedCounts(b, o, e, limit);
    }
  }

  /** With a buffer of one or two bytes they can coincide: here the first run gives up just in
      front of the payload's own two bytes. */
  lemma TinyBufferCoincides()
    ensures var s := Slip(Ok, 3, 2, 2, [ESC_END, END, END, END, ESC_END, ESC]);
      && Valid(s) && StrayPacket(Packet(s), [ESC_END, END]) && Delivered(s, 1) == [ESC_END, END]
  {
    var s := Slip(Ok, 3, 2, 2, [ESC_END, END, END, END, ESC_END, ESC]);
    var p: seq<bv8> := [ESC_END, END];
    assert p[1..] == [END] && p[1..][1..] == [];
    assert Encoded(p[1..]) == [ESC, ESC_END];
    assert Encoded(p) == [ESC_END, ESC, ESC_END];
    assert [END] + Encoded(p) + [END] == [END, ESC_END, ESC, ESC_END, END] == Packet(s);
    var a, b := s.cells[3..], s.cells[..2];
    assert a == [END, ESC_END, ESC] && b == [ESC_END, END];
    assert a[1..] == [ESC_END, ESC] && a[1..][1..] == [ESC];
    assert Copied([ESC], [END, ESC_END], false, 1) == ([], false);
    var none: seq<bv8> := [];
    assert none + [END] == [END] && [END] + [ESC_END] == [END, ESC_END];
    assert Copied(a[1..], [END], false, 1) == ([], false);
    assert Copied(a, none, false, 1) == ([], false);
    assert b[1..] == [END] && b[1..][1..] == [];
    assert none + [ESC_END] == [ESC_END] && [ESC_END] + [END] == p;
    assert Copied(b[1..], [ESC_END], false, 1) == (p, false);
    assert Copied(b, none, false, 1) == (p, false);
  }

  // ---------------------------------------------------------------- What a poll takes

  /** The frames left when the stream is cut behind an END that is not its first byte. */
  lemma {:induction false} Consume(left: seq<Frame>, j: nat, limit: nat) returns (left': seq<Frame>)
    requires AllSendable(left, limit) && 0 < j < |Stream(left)| && Stream(left)[j] == END
    ensures Stream(left') == Stream(left)[j + 1..] && AllSendable(left', limit)
    ensures |left'| < |left| && Payloads(left') == Payloads(left)[|left| - |left'|..]
    ensures |left'| == |left| - 1 ==>
      Stream(left)[..j] == Encoded(left[0].payload) || StrayPacket(Stream(left)[..j], left[0].payload)
    decreases |left|
  {
    hide Wire, StrayPacket, Payloads;
    assert Sendable(left[0].payload, limit);
    var w, more := Wire(left[0]), Stream(left[1..]);
    OnlyEnds(left[0], j, w + more, limit);
    var i: nat := j - (|w| - 1);
    WireShape(left[0]);
    SplitBehind(w, more, j);
    PayloadsTail(left);
    if i < 2 {
      StrayAlone(left[0], w + more, j);
      left' := ConsumeOne(left, i, limit);
    } else {
      left' := Consume(left[1..], i - 1, limit);
      assert Payloads(left)[1..][|left| - 1 - |left'|..] == Payloads(left)[|left| - |left'|..];
    }
  }

  lemma PayloadsTail(left: seq<Frame>)
    requires left != []
    ensures Payloads(left)[1..] == Payloads(left[1..])
  {}

  lemma SplitBehind(w: seq<bv8>, more: seq<bv8>, j: nat)
    requires w != [] && |w| - 1 <= j < |w + more|
    ensures (w + more)[j + 1..] == more[j - (|w| - 1)..]
    ensures j > |w| - 1 ==> (w + more)[j] == more[j - |w|]
  {}

  /** The first frame goes, and perhaps the leading END of the next one. */
  lemma ConsumeOne(left: seq<Frame>, i: nat, limit: nat) returns (left': seq<Frame>)
    requires left != [] && AllSendable(left, limit) && i < 2
    requires i == 1 ==> Stream(left[1..]) != [] && Stream(left[1..])[0] == END
    ensures Stream(left') == Stream(left[1..])[i..] && AllSendable(left', limit)
    ensures |left'| == |left| - 1 && Payloads(left') == Payloads(left[1..])
  {
    left' := left[1..];
    if i == 1 {
      FlushIsFirst(left[1..], limit);
      left' := Unflushed(left[1..]);
    }
  }

  /** The ENDs of a frame are its last byte, and perhaps its first one. */
  lemma OnlyEnds(f: Frame, j: nat, x: seq<bv8>, limit: nat)
    requires Sendable(f.payload, limit) && Wire(f) <= x && 0 < j < |x| && x[j] == END
    ensures j >= |Wire(f)| - 1
  {
    EncodedShape(f.payload);
    var w, e := Wire(f), Encoded(f.payload);
    assert forall i | 0 < i < |w| - 1 :: x[i] == w[i] == if f.flush then e[i - 1] else e[i];
  }

  lemma StrayAlone(f: Frame, x: seq<bv8>, j: nat)
    requires Wire(f) <= x && 0 < j < |x| && (j == |Wire(f)| - 1 || j == |Wire(f)|)
    ensures x[..j] == Encoded(f.payload) || StrayPacket(x[..j], f.payload)
  {
    hide Encoded;
    var w, e := Wire(f), Encoded(f.payload);
    assert x[..j] == if j == |w| then w else w[..|w| - 1];
    if f.flush {
      assert w == [END] + e + [END] && w[..|w| - 1] == [END] + e;
    } else {
      assert w == e + [END] && w[..|w| - 1] == e;
    }
  }

  // ---------------------------------------------------------------- Spoiled for good

  /** Frame i starts with an END, and that END is among the n bytes that wait. */
  ghost predicate Stray(left: seq<Frame>, i: nat, n: nat) {
    i < |left| && left[i].flush && |Stream(left[..i])| < n
  }

  /** The first END that waits is not known to the driver, and the scan will not find it. */
  ghost predicate Lost(d: Run)
    requires Sound(d)
  {
    var w := Waiting(d);
    && END in w && w[0] != END
    && match d.phase
       case Idle => Packet(d.s) != FirstPacket(w)
       case Passing => false
       case Scanning(_) => END !in InView(d)
  }

  /** The outputs will not be the payloads sent: one is missing, or one is wrong. */
  ghost predicate Wrong(outputs: seq<seq<bv8>>, left: seq<Frame>, sent: seq<seq<bv8>>) {
    && |left| <= |sent| && Payloads(left) == sent[|sent| - |left|..]
    && |outputs| + |left| <= |sent|
    && (|outputs| + |left| == |sent| ==> exists i :: 0 <= i < |outputs| && outputs[i] != sent[i])
  }

  /** Nothing is missing yet, but an END that came too early waits, or one is lost. */
  ghost predicate Doomed(d: Run, left: seq<Frame>, sent: seq<seq<bv8>>)
    requires Sound(d)
  {
    && |left| <= |sent| && Payloads(left) == sent[|sent| - |left|..]
    && |d.outputs| + |left| == |sent|
    && ((exists i :: Stray(left, i, |Waiting(d)|)) || Lost(d))
  }

  ghost predicate Spoiled(d: Run, left: seq<Frame>, sent: seq<seq<bv8>>)
    requires Sound(d)
  {
    Wrong(d.outputs, left, sent) || Doomed(d, left, sent)
  }

  lemma SpoiledOutputs(d: Run, left: seq<Frame>, rest: seq<bv8>, sent: seq<seq<bv8>>)
    requires Sound(d) && Loose(d, left, rest) && Spoiled(d, left, sent)
    ensures d.outputs != sent
  {
    hide Waiting, InView, Packet, InOrder, FirstEnd;
    assert Waiting(d) != [] ==> left != [];
    assert |d.outputs| == |sent| ==> left == [];
  }

  // ---------------------------------------------------------------- Bytes in a spoiled run

  lemma LostStays(d: Run, left: seq<Frame>, rest: seq<bv8>, limit: nat)
    requires Sound(d) && Loose(d, left, rest) && rest != [] && HasRoom(d.s) && Lost(d)
    ensures Lost(Step(d, Byte(rest[0]), limit))
  {
    hide Loose, Waiting, InView, Packet, Step, HasRoom, FirstEnd;
    ByteWaits(d, left, rest, limit);
    FirstPacketStays(Waiting(d), rest[0]);
  }

  lemma SpoiledByte(d: Run, left: seq<Frame>, rest: seq<bv8>, sent: seq<seq<bv8>>, limit: nat) returns (left': seq<Frame>)
    requires Sound(d) && Loose(d, left, rest) && AllSendable(left, limit) && rest != [] && HasRoom(d.s)
    requires Spoiled(d, left, sent)
    ensures var e := Step(d, Byte(rest[0]), limit);
      Loose(e, left', rest[1..]) && AllSendable(left', limit) && Spoiled(e, left', sent)
  {
    hide Loose, Step, Stream, Waiting, HasRoom, Lost;
    var e := Step(d, Byte(rest[0]), limit);
    if Waiting(d) == [] && rest[0] == END {
      EndDropped(d, left, rest, limit);
      left' := Unflushed(left);
      assert Payloads(Unflushed(left)) == Payloads(left);
      NothingLost(d);
    } else {
      ByteWaits(d, left, rest, limit);
      left' := left;
      if Doomed(d, left, sent) {
        if i :| Stray(left, i, |Waiting(d)|) {
          assert Stray(left, i, |Waiting(e)|);
        } else {
          LostStays(d, left, rest, limit);
        }
      }
    }
  }

  lemma NothingLost(d: Run)
    requires Sound(d) && Waiting(d) == []
    ensures !Lost(d)
  {}

  // ---------------------------------------------------------------- Polls in a spoiled run

  /** The packet that a poll finds is the front of the stream of the frames left. */
  lemma PacketInStream(d: Run, left: seq<Frame>, rest: seq<bv8>)
    requires Sound(d) && Loose(d, left, rest) && d.phase.Idle? && Packet(d.s) != []
    ensures d.s.begin != d.s.pktEnd
    ensures var x, k, w := Stream(left), Packet(d.s), Waiting(d);
      && |k| < |w| <= |x| && x[|k|] == END && x[..|k|] == k && x[0] == w[0] == k[0]
      && x[|k| + 1..] == w[|k| + 1..] + rest
  {
    hide Stream, InOrder, Slice, Waiting;
    var w, k := Waiting(d), Packet(d.s);
    EmptySlice(d.s.cells, d.s.begin, d.s.pktEnd);
    assert (w + rest)[|k|] == w[|k|] && (w + rest)[..|k|] == w[..|k|] && (w + rest)[0] == w[0];
  }

  /** A frame is taken off, or more: if nothing of it is handed on, or another thing than its
      payload, the outputs are wrong for good. */
  lemma WrongByPoll(d: Run, left: seq<Frame>, sent: seq<seq<bv8>>, out: seq<bv8>, left': seq<Frame>)
    requires Sound(d) && Spoiled(d, left, sent)
    requires |left'| < |left| && Payloads(left') == Payloads(left)[|left| - |left'|..]
    requires Wrong(d.outputs, left, sent) || out == [] || |left'| < |left| - 1 || out != left[0].payload
    ensures Wrong(if out == [] then d.outputs else d.outputs + [out], left', sent)
  {
    hide Lost;
    var outputs, n := if out == [] then d.outputs else d.outputs + [out], |d.outputs|;
    assert Payloads(left') == sent[|sent| - |left'|..];
    if |outputs| + |left'| == |sent| {
      assert Payloads(left)[0] == sent[n];
      if i :| 0 <= i < n && d.outputs[i] != sent[i] {
        assert outputs[i] != sent[i];
      } else {
        assert outputs[n] != sent[n];
      }
    }
  }

  lemma StrayMovesUp(left: seq<Frame>, i: nat, n: nat)
    requires Stray(left, i, n) && i > 0
    ensures |Wire(left[0])| < n && Stray(left[1..], i - 1, n - |Wire(left[0])|)
  {
    assert left[..i][1..] == left[1..][..i - 1];
  }

  lemma HeadNotFlushed(left: seq<Frame>, limit: nat)
    requires left != [] && Stream(left) != [] && Stream(left)[0] != END
    ensures !left[0].flush
  {
    assert Stream(left)[0] == Wire(left[0])[0];
  }

  /** A poll that takes the packet of the first frame as it is: what dooms the run lies behind. */
  lemma CleanStart(d: Run, left: seq<Frame>, rest: seq<bv8>, sent: seq<seq<bv8>>, limit: nat)
    requires Sound(d) && Loose(d, left, rest) && AllSendable(left, limit) && d.phase.Idle? && Packet(d.s) != []
    requires left != [] && Packet(d.s) == Encoded(left[0].payload) && Spoiled(d, left, sent)
    ensures AllSendable(left[1..], limit) && Stream(left[1..]) == Stream(left)[|Packet(d.s)| + 1..]
    ensures var e := Step(d, PollStep, limit); Spoiled(e, left[1..], sent)
  {
    hide Loose, Step, Stream, Waiting, Encoded, Packet, Delivered, FirstEnd, Lost, Slice;
    var e, k, w, out := Step(d, PollStep, limit), Packet(d.s), Waiting(d), Delivered(d.s, limit);
    PacketInStream(d, left, rest);
    PollStarts(d, left, rest, limit);
    EncodedShape(left[0].payload);
    assert k[0] != END;
    HeadNotFlushed(left, limit);
    HeadOfStream(left);
    assert Stream(left)[|k| + 1..] == Stream(left[1..]) by {
      assert k + [END] + Stream(left[1..]) == Stream(left);
      assert (k + [END] + Stream(left[1..]))[|k| + 1..] == Stream(left[1..]);
    }
    PayloadsTail(left);
    if Wrong(d.outputs, left, sent) || out == [] || out != left[0].payload {
      WrongByPoll(d, left, sent, out, left[1..]);
    } else {
      CleanIsNotLost(d, left, rest);
      var i: nat :| Stray(left, i, |w|);
      StrayMovesUp(left, i, |w|);
      assert |Wire(left[0])| == |k| + 1;
      assert Stray(left[1..], i - 1, |Waiting(e)|);
    }
  }

  lemma CleanIsNotLost(d: Run, left: seq<Frame>, rest: seq<bv8>)
    requires Sound(d) && Loose(d, left, rest) && d.phase.Idle? && Packet(d.s) != []
    requires left != [] && Packet(d.s) == Encoded(left[0].payload)
    ensures !Lost(d)
  {
    hide Stream, Encoded, Slice, InOrder, FirstEnd;
    var w, k := Waiting(d), Packet(d.s);
    EncodedShape(left[0].payload);
    assert w == k + w[|k|..];
    FirstPacketIs(k, w[|k|..]);
  }

  lemma SpoiledStart(d: Run, left: seq<Frame>, rest: seq<bv8>, sent: seq<seq<bv8>>, limit: nat) returns (left': seq<Frame>)
    requires Sound(d) && Loose(d, left, rest) && AllSendable(left, limit) && limit >= 2 && d.phase.Idle?
    requires Spoiled(d, left, sent)
    ensures var e := Step(d, PollStep, limit);
      Loose(e, left', rest) && AllSendable(left', limit) && Spoiled(e, left', sent)
  {
    hide Loose, Step, Stream, Waiting, Encoded, Packet, Delivered, StrayPacket;
    var e, k := Step(d, PollStep, limit), Packet(d.s);
    PollStarts(d, left, rest, limit);
    if k == [] {
      left' := left;
      PendingDoesNotMatter(d, e, left, rest, sent);
    } else {
      PacketInStream(d, left, rest);
      if left != [] && k == Encoded(left[0].payload) {
        CleanStart(d, left, rest, sent, limit);
        left' := left[1..];
      } else {
        left' := Consume(left, |k|, limit);
        if |left'| == |left| - 1 {
          assert Sendable(left[0].payload, limit);
          StrayIsNotPayload(d.s, left[0].payload, limit);
        }
        WrongByPoll(d, left, sent, Delivered(d.s, limit), left');
      }
      PollStartsLoose(d, e, left, left', rest);
    }
  }

  lemma PendingDoesNotMatter(d: Run, e: Run, left: seq<Frame>, rest: seq<bv8>, sent: seq<seq<bv8>>)
    requires Sound(d) && Loose(d, left, rest) && Spoiled(d, left, sent) && e == d.(pending := false)
    ensures Sound(e) && Loose(e, left, rest) && Spoiled(e, left, sent)
  {
    hide Stream, Slice, InOrder, FirstEnd;
    assert Waiting(e) == Waiting(d);
    assert Lost(e) == Lost(d);
  }

  lemma SpoiledPoll(d: Run, left: seq<Frame>, rest: seq<bv8>, sent: seq<seq<bv8>>, limit: nat) returns (left': seq<Frame>)
    requires Sound(d) && Loose(d, left, rest) && AllSendable(left, limit) && limit >= 2
    requires Spoiled(d, left, sent)
    ensures var e := Step(d, PollStep, limit);
      Loose(e, left', rest) && AllSendable(left', limit) && Spoiled(e, left', sent)
  {
    hide Loose, Step, Stream, Waiting, InView, Packet, FirstEnd;
    match d.phase
    case Idle => left' := SpoiledStart(d, left, rest, sent, limit);
    case Passing =>
      PollReads(d, left, rest, limit);
      left' := left;
    case Scanning(_) =>
      PollScans(d, left, rest, limit);
      if Lost(d) {
        LostAfterScan(d, left, rest, limit);
      }
      left' := left;
  }

  /** A packet that the scan has not seen is not known after it. */
  lemma LostAfterScan(d: Run, left: seq<Frame>, rest: seq<bv8>, limit: nat)
    requires Sound(d) && Loose(d, left, rest) && d.phase.Scanning? && Lost(d)
    ensures Lost(Step(d, PollStep, limit))
  {
    hide Loose, Step, Waiting, InView, Packet;
    PollScans(d, left, rest, limit);
    assert FirstPacket(Waiting(d)) != [];
  }

  /** Once spoiled, always spoiled. */
  lemma {:induction false} SpoiledRun(d: Run, events: seq<Event>, left: seq<Frame>, rest: seq<bv8>,
      sent: seq<seq<bv8>>, limit: nat)
    requires Sound(d) && Loose(d, left, rest) && AllSendable(left, limit) && limit >= 2
    requires Spoiled(d, left, sent)
    requires AllRoom(d, events, limit) && Inputs(events) <= rest
    ensures RunOf(d, events, limit).outputs != sent
    decreases |events|
  {
    hide Loose, Step, Stream, Waiting, Spoiled, HasRoom;
    if events == [] {
      SpoiledOutputs(d, left, rest, sent);
    } else {
      var x := InputOf(events[0]);
      assert Inputs(events) == x + Inputs(events[1..]);
      var left';
      if events[0].Byte? {
        assert x[0] == rest[0];
        left' := SpoiledByte(d, left, rest, sent, limit);
      } else {
        left' := SpoiledPoll(d, left, rest, sent, limit);
      }
      SpoiledRun(Step(d, events[0], limit), events[1..], left', rest[|x|..], sent, limit);
    }
  }

  // ---------------------------------------------------------------- The END that spoils a run

  /** Two ENDs in a row in a stream are the end of a frame and the leading END of the next. */
  lemma {:induction false} FlushAt(left: seq<Frame>, n: nat, limit: nat) returns (i: nat)
    requires AllSendable(left, limit) && n < |Stream(left)| && Stream(left)[n] == END
    requires n == 0 || Stream(left)[n - 1] == END
    ensures i < |left| && left[i].flush && |Stream(left[..i])| == n
    decreases |left|
  {
    hide Encoded, Sendable;
    assert Sendable(left[0].payload, limit);
    var w, more := Wire(left[0]), Stream(left[1..]);
    if n == 0 {
      i := 0;
      FlushIsFirst(left, limit);
      FirstIsFlush(left[0], limit);
    } else {
      InnerEnds(left[0], n, w + more, limit);
      var j := FlushAt(left[1..], n - |w|, limit);
      i := j + 1;
      assert left[..i][1..] == left[1..][..j] && left[..i][0] == left[0];
    }
  }

  lemma FirstIsFlush(f: Frame, limit: nat)
    requires Sendable(f.payload, limit) && Wire(f)[0] == END
    ensures f.flush
  {
    EncodedShape(f.payload);
  }

  lemma InnerEnds(f: Frame, n: nat, x: seq<bv8>, limit: nat)
    requires Sendable(f.payload, limit) && Wire(f) <= x && 0 < n < |x| && x[n] == END == x[n - 1]
    ensures n >= |Wire(f)|
  {
    OnlyEnds(f, n, x, limit);
    EncodedShape(f.payload);
    var w, e := Wire(f), Encoded(f.payload);
    assert x[|w| - 2] == w[|w| - 2] == e[|e| - 1];
  }

  /** An END right behind the END of a packet that waits becomes a stray one. */
  lemma EarlyEnd(d: Run, left: seq<Frame>, rest: seq<bv8>, sent: seq<seq<bv8>>, limit: nat)
    requires Sound(d) && Loose(d, left, rest) && AllSendable(left, limit) && rest != [] && HasRoom(d.s)
    requires rest[0] == END && EndsWith(Waiting(d), END) && d.outputs + Payloads(left) == sent
    ensures var e := Step(d, Byte(END), limit); Loose(e, left, rest[1..]) && Spoiled(e, left, sent)
  {
    hide Step, Stream, Waiting, InOrder, Packet, InView, HasRoom, Lost;
    var w, e := Waiting(d), Step(d, Byte(END), limit);
    ByteWaits(d, left, rest, limit);
    assert (w + rest)[|w|] == END && (w + rest)[|w| - 1] == END;
    var i := FlushAt(left, |w|, limit);
    assert Stray(left, i, |Waiting(e)|);
    assert sent[|sent| - |left|..] == Payloads(left);
  }

  /** An END that a scan misses is lost. */
  lemma MissedEnd(d: Run, left: seq<Frame>, rest: seq<bv8>, sent: seq<seq<bv8>>, limit: nat)
    requires Sound(d) && Holds(d, left, rest) && rest != [] && HasRoom(d.s)
    requires rest[0] == END && Unseen(d, Byte(END)) && d.outputs + Payloads(left) == sent
    ensures var e := Step(d, Byte(END), limit); Loose(e, left, rest[1..]) && Spoiled(e, left, sent)
  {
    hide Loose, Step, Stream, Waiting, Packet, InView, HasRoom, FirstEnd;
    var w, e := Waiting(d), Step(d, Byte(END), limit);
    ByteWaits(d, left, rest, limit);
    assert w[0] in w && (w + [END])[|w|] == END;
    assert Lost(e);
    assert sent[|sent| - |left|..] == Payloads(left);
  }

  /** One such END, and the payloads are not handed on as they were sent. */
  lemma {:induction false} EndSpoils(d: Run, events: seq<Event>, left: seq<Frame>, rest: seq<bv8>,
      sent: seq<seq<bv8>>, limit: nat)
    requires Sound(d) && Holds(d, left, rest) && AllSendable(left, limit) && limit >= 2
    requires AllRoom(d, events, limit) && Inputs(events) <= rest
    requires !AllTimely(d, events, limit) || !AllSeen(d, events, limit)
    requires d.outputs + Payloads(left) == sent
    ensures RunOf(d, events, limit).outputs != sent
    decreases |events|
  {
    hide Loose, OnTime, Step, Stream, Waiting, Spoiled, HasRoom;
    var x := InputOf(events[0]);
    assert Inputs(events) == x + Inputs(events[1..]);
    if Timely(d, events[0]) && !Unseen(d, events[0]) {
      var left' := StepHolds(d, events[0], left, rest, limit);
      EndSpoils(Step(d, events[0], limit), events[1..], left', rest[|x|..], sent, limit);
    } else {
      assert x == [END] && rest[0] == x[0];
      if Timely(d, events[0]) {
        MissedEnd(d, left, rest, sent, limit);
      } else {
        EarlyEnd(d, left, rest, sent, limit);
      }
      SpoiledRun(Step(d, events[0], limit), events[1..], left, rest[1..], sent, limit);
    }
  }

  /** With room in the ring, once everything has arrived and no poll is left over: the payloads
      have been handed on as they were sent, exactly when no END came right behind the END of a
      packet not yet copied, and none closed a packet behind a scan that found nothing. */
  lemma ExactIffTimely(cells: seq<bv8>, events: seq<Event>, frames: seq<Frame>, limit: nat)
    requires cells != [] && AllSendable(frames, limit) && limit >= 2
    requires var d := Started(cells);
      && AllRoom(d, events, limit) && Inputs(events) == Stream(frames)
      && Settled(RunOf(d, events, limit))
    ensures var d := Started(cells);
      RunOf(d, events, limit).outputs == Payloads(frames)
      <==> AllTimely(d, events, limit) && AllSeen(d, events, limit)
  {
    hide Holds;
    var d := Started(cells);
    if AllTimely(d, events, limit) && AllSeen(d, events, limit) {
      DeliversEverything(cells, events, frames, limit);
    } else {
      StartHolds(cells, frames);
      assert [] + Payloads(frames) == Payloads(frames);
      EndSpoils(d, events, frames, Stream(frames), Payloads(frames), limit);
    }
  }
}
