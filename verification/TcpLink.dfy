/** A TCP socket together with what uIP (emb6/src/net/ipv6/uip6.c) keeps of its connection: how
    many bytes of the stream the peer has acknowledged, and how many are outstanding.

    uIP sends one segment at a time.  As long as it is outstanding, every transmission that the
    socket asks for is a retransmission: its length is that of the first one, whatever the socket
    offers.  An acknowledgement is always one of the whole segment.  A call that ends the
    connection sends a FIN or a RST instead of data. */
module TcpLink {
  import opened Common
  import opened TcpSpec
  import opened TcpRuns

  /** len bytes of the stream from place at on, of which the socket has offered bytes. */
  datatype Segment = Segment(at: nat, bytes: seq<bv8>, len: nat)

  /** up: established; una: bytes that the peer has acknowledged; out: bytes outstanding. */
  datatype Link = Link(sock: Sock, up: bool, una: nat, out: nat, wire: seq<Segment>)

  predicate ForUs(s: Sock, u: Uip) {
    s.conn == 0 || s.conn == u.conn
  }

  /** The flags of a call for which the socket asks to send. */
  predicate Sends(u: Uip) {
    u.connected || u.rexmit || u.newdata || u.acked || u.poll
  }

  /** The state that the last senddata of a call leaves. */
  function AfterSending(s: Sock, u: Uip, app: Application): (r: Sock)
    requires InBounds(s) && CanTake(s, u)
    ensures InBounds(r)
  {
    if u.connected then OnConnected(s, u, app)
    else OnTraffic(OnAborted(OnTimedOut(s, u, app), u, app), u, app)
  }

  predicate Closes(s: Sock) {
    s.len == 0 && s.closing
  }

  /** One call of uIP, with what it does before and after. */
  function UipCall(l: Link, u: Uip, app: Application): (r: Link)
    requires InBounds(l.sock) && CanTake(l.sock, u)
    ensures InBounds(r.sock)
  {
    if !ForUs(l.sock, u) then l
    else
      var s, t := DoAppCall(l.sock, u, app), AfterSending(l.sock, u, app);
      var una := if u.acked then l.una + l.out else l.una;
      var out := if u.acked || u.connected then 0 else l.out;
      var up := u.connected || (l.up && !u.timedout && !u.aborted && !u.closed && !Closes(t));
      var n := if Sends(u) && t.sendLen > 0 then t.sendNxt else 0;
      if n == 0 || !up then Link(s, up, una, out, l.wire)
      else
        var len := if out == 0 then n else out;
        Link(s, up, una, len, l.wire + [Segment(una, t.buf[..n], len)])
  }

  /** The calls that uIP makes: an acknowledgement is one of an established connection, and a
      connection that is lost has no traffic. */
  predicate FromUip(l: Link, u: Uip) {
    && (u.acked ==> l.up && !u.connected)
    && (u.timedout || u.aborted ==> !Sends(u))
  }

  /** The bytes dropped are those that the peer has acknowledged. */
  ghost predicate InStep(l: Link) {
    l.una == |l.sock.dropped|
  }

  /** And the next acknowledgement will drop what is outstanding. */
  ghost predicate Synced(l: Link) {
    InStep(l) && (l.up ==> l.sock.sendNxt == l.out)
  }

  function Offer(s: Sock, mss: nat): nat {
    Min(s.sendLen, Min(s.maxSeg, mss))
  }

  /** A transmission while a segment is outstanding offers a segment of the same length. */
  predicate Steady(l: Link, u: Uip) {
    ForUs(l.sock, u) && l.up && l.out > 0 && !u.acked && !u.connected && !u.closed && Sends(u) && l.sock.sendLen > 0
    ==> Offer(l.sock, u.mss) == l.out
  }

  /** The segment last offered has the length of the one acknowledged. */
  predicate AckMatches(l: Link, u: Uip) {
    ForUs(l.sock, u) && u.acked ==> l.sock.sendNxt == l.out
  }

  // ---------------------------------------------------------------- One call

  lemma EventSame(s: Sock, e: Event, app: Application)
    requires InBounds(s)
    ensures var t := CallEvent(s, e, app); t.sendNxt == s.sendNxt && t.dropped == s.dropped
  {}

  lemma AckedCounts(s: Sock, app: Application)
    requires Good(s)
    ensures var t := DoAcked(s, app); t.sendNxt == 0 && |t.dropped| == |s.dropped| + s.sendNxt
  {
    hide CallEvent, CopiedDown, Faithful, Sent;
    if s.sendLen > 0 {
      EventSame(Dropped(s), DataSent, app);
    }
  }

  lemma LostSame(s: Sock, u: Uip, app: Application)
    requires InBounds(s)
    ensures var t := OnAborted(OnTimedOut(s, u, app), u, app);
      t.sendNxt == s.sendNxt && t.dropped == s.dropped && (!u.timedout && !u.aborted ==> t == s)
  {
    hide CallEvent;
    if u.timedout {
      EventSame(s, TimedOut, app);
    }
    var a := OnTimedOut(s, u, app);
    if u.aborted {
      EventSame(a.(calls := a.calls + [Mark(false)]), Aborted, app);
    }
  }

  lemma EndSame(s: Sock, u: Uip, app: Application)
    requires InBounds(s)
    ensures var t := OnClosed(OnClosing(s), u, app); t.sendNxt == s.sendNxt && t.dropped == s.dropped
  {
    hide CallEvent;
    var a := OnClosing(s);
    if u.closed {
      EventSame(a.(calls := a.calls + [Mark(false)], conn := 0), Closed, app);
    }
  }

  /** What a call without a connection event does to the two counts. */
  lemma TrafficCounts(s: Sock, u: Uip, app: Application)
    requires Good(s) && CanTake(s, u) && !u.connected
    ensures var t := OnTraffic(s, u, app);
      && |t.dropped| == |s.dropped| + (if u.acked then s.sendNxt else 0)
      && (Sends(u) && t.sendLen > 0 ==> t.sendNxt == Offer(t, u.mss))
      && (!(Sends(u) && t.sendLen > 0) ==> t.sendNxt == if u.acked then 0 else s.sendNxt)
      && t.maxSeg == s.maxSeg && (!u.acked ==> t.sendLen == s.sendLen)
  {
    hide DoAcked, Chunks;
    if u.acked {
      AckedCounts(s, app);
      AckedRest(s, app);
    }
  }

  lemma AckedRest(s: Sock, app: Application)
    requires InBounds(s)
    ensures DoAcked(s, app).maxSeg == s.maxSeg
  {}

  lemma ConnectedCounts(s: Sock, u: Uip, app: Application)
    requires Good(s) && CanTake(s, u)
    ensures var t := OnConnected(s, u, app);
      && t.dropped == s.dropped && (t.sendLen > 0 ==> t.sendNxt == Offer(t, u.mss))
  {
    hide CallEvent, Chunks;
    EventSame(s.(maxSeg := u.mss), Connected, app);
  }

  lemma AfterSendingGood(s: Sock, u: Uip, app: Application)
    requires Good(s) && CanTake(s, u)
    ensures Good(AfterSending(s, u, app)) && s.accepted <= AfterSending(s, u, app).accepted
  {
    hide Good, OnConnected, OnTimedOut, OnAborted, OnTraffic;
    if u.connected {
      OnConnectedKeeps(s, u, app);
    } else {
      OnTimedOutKeeps(s, u, app);
      OnAbortedKeeps(OnTimedOut(s, u, app), u, app);
      OnTrafficKeeps(OnAborted(OnTimedOut(s, u, app), u, app), u, app);
    }
  }

  /** The counts that a call leaves. */
  lemma CallCounts(l: Link, u: Uip, app: Application)
    requires Good(l.sock) && CanTake(l.sock, u) && FromUip(l, u) && ForUs(l.sock, u)
    ensures var s, t, s' := l.sock, AfterSending(l.sock, u, app), UipCall(l, u, app).sock;
      && s'.dropped == t.dropped && s'.sendNxt == t.sendNxt
      && |t.dropped| == |s.dropped| + (if u.acked then s.sendNxt else 0)
      && (Sends(u) && t.sendLen > 0 ==> t.sendNxt == Offer(t, u.mss))
      && (Sends(u) && t.sendLen == 0 ==> t.sendNxt == 0)
      && (!Sends(u) ==> t.sendNxt == s.sendNxt)
      && (!u.connected && !u.acked && !u.timedout && !u.aborted ==>
            t.maxSeg == s.maxSeg && t.sendLen == s.sendLen)
  {
    hide OnConnected, OnTimedOut, OnAborted, OnTraffic, OnClosing, OnClosed, Good, Offer;
    var s, t := l.sock, AfterSending(l.sock, u, app);
    AfterSendingGood(s, u, app);
    if t.sendLen == 0 {
      NothingToSend(t);
    }
    if u.connected {
      ConnectedCounts(s, u, app);
    } else {
      LostSame(s, u, app);
      OnTimedOutKeeps(s, u, app);
      OnAbortedKeeps(OnTimedOut(s, u, app), u, app);
      TrafficCounts(OnAborted(OnTimedOut(s, u, app), u, app), u, app);
      EndSame(t, u, app);
    }
  }

  lemma NothingToSend(t: Sock)
    requires Good(t) && t.sendLen == 0
    ensures t.sendNxt == 0
  {}

  /** The bytes dropped stay those acknowledged, exactly when the acknowledgement, if there is
      one, is for the segment last offered. */
  lemma CallInStepIff(l: Link, u: Uip, app: Application)
    requires Good(l.sock) && CanTake(l.sock, u) && FromUip(l, u) && InStep(l)
    ensures InStep(UipCall(l, u, app)) <==> AckMatches(l, u)
  {
    hide DoAppCall, AfterSending, Good, Offer;
    if ForUs(l.sock, u) {
      CallCounts(l, u, app);
    }
  }

  /** Socket and connection stay synchronised exactly when the call is steady. */
  lemma CallSyncedIff(l: Link, u: Uip, app: Application)
    requires Good(l.sock) && CanTake(l.sock, u) && FromUip(l, u) && Synced(l)
    ensures Synced(UipCall(l, u, app)) <==> Steady(l, u)
  {
    hide DoAppCall, AfterSending, Good;
    if ForUs(l.sock, u) {
      CallCounts(l, u, app);
      AfterSendingGood(l.sock, u, app);
      NotEmpty(l.sock);
      NotEmpty(AfterSending(l.sock, u, app));
    }
  }

  lemma NotEmpty(s: Sock)
    requires Good(s)
    ensures (s.sendNxt > 0 ==> s.sendLen > 0) && (s.sendLen > 0 ==> s.len > 0)
  {}

  // ---------------------------------------------------------------- What goes on the wire

  /** What is sent are bytes of the stream, at their place. */
  ghost predicate Right(g: Segment, accepted: seq<bv8>) {
    && g.len <= |g.bytes| && g.at + g.len <= |accepted|
    && g.bytes[..g.len] == accepted[g.at..g.at + g.len]
  }

  ghost predicate AllRight(l: Link) {
    forall i | 0 <= i < |l.wire| :: Right(l.wire[i], l.sock.accepted)
  }

  /** With the counts in step, a segment is right exactly when the socket offers at least what is
      outstanding; otherwise uIP fills it up with what its buffer held before. */
  lemma SegmentRightIff(t: Sock, una: nat, len: nat)
    requires Good(t) && una == |t.dropped|
    ensures Right(Segment(una, t.buf[..t.sendNxt], len), t.accepted) <==> len <= t.sendNxt
  {
    hide Faithful, Sent;
    if len <= t.sendNxt {
      assert t.buf[..t.sendNxt][..len] == t.buf[..t.len][..len];
      assert (t.dropped + t.buf[..t.len])[una..una + len] == t.buf[..t.len][..len];
    }
  }

  lemma RightStays(l: Link, s: Sock)
    requires AllRight(l) && l.sock.accepted <= s.accepted
    ensures AllRight(l.(sock := s))
  {
    forall i | 0 <= i < |l.wire| ensures Right(l.wire[i], s.accepted) {
      var g := l.wire[i];
      assert Right(g, l.sock.accepted);
      assert s.accepted[g.at..g.at + g.len] == l.sock.accepted[g.at..g.at + g.len];
    }
  }

  /** A steady call sends only what is right. */
  lemma CallSendsRight(l: Link, u: Uip, app: Application)
    requires Good(l.sock) && CanTake(l.sock, u) && FromUip(l, u) && Synced(l) && Steady(l, u) && AllRight(l)
    ensures AllRight(UipCall(l, u, app))
  {
    hide DoAppCall, AfterSending, Good, Right;
    var r := UipCall(l, u, app);
    CallSyncedIff(l, u, app);
    if ForUs(l.sock, u) {
      CallCounts(l, u, app);
      var t := AfterSending(l.sock, u, app);
      AfterSendingGood(l.sock, u, app);
      AcceptedGrows(l, u, app);
      RightStays(l, r.sock);
      if r.wire != l.wire {
        SegmentRightIff(t, r.una, r.out);
        RightStays(Link(t, r.up, r.una, r.out, [r.wire[|l.wire|]]), r.sock);
        assert [r.wire[|l.wire|]][0] == r.wire[|l.wire|];
      }
    } else {
      RightStays(l, r.sock);
    }
  }

  lemma AcceptedGrows(l: Link, u: Uip, app: Application)
    requires Good(l.sock) && CanTake(l.sock, u) && ForUs(l.sock, u)
    ensures l.sock.accepted <= AfterSending(l.sock, u, app).accepted <= UipCall(l, u, app).sock.accepted
  {
    hide Good, OnConnected, OnTimedOut, OnAborted, OnTraffic, OnClosing, OnClosed;
    var t := AfterSending(l.sock, u, app);
    AfterSendingGood(l.sock, u, app);
    if !u.connected {
      OnClosingKeeps(t);
      OnClosedKeeps(OnClosing(t), u, app);
    }
  }

  /** When the socket closes on its own, the peer has acknowledged every byte accepted, exactly
      when the counts are in step. */
  lemma ClosesAcknowledgedIff(l: Link, u: Uip, app: Application)
    requires Good(l.sock) && CanTake(l.sock, u) && FromUip(l, u) && ForUs(l.sock, u) && !u.connected
    requires Closes(AfterSending(l.sock, u, app))
    ensures UipCall(l, u, app).una == |AfterSending(l.sock, u, app).accepted| <==> InStep(UipCall(l, u, app))
  {
    hide DoAppCall, AfterSending, Good;
    CallCounts(l, u, app);
    AfterSendingGood(l.sock, u, app);
    EmptyIsAllDropped(AfterSending(l.sock, u, app));
  }

  // ---------------------------------------------------------------- Whole runs

  function LinkStep(l: Link, op: Op): (r: Link)
    requires InBounds(l.sock)
    ensures InBounds(r.sock) && r.sock == Step(l.sock, op)
  {
    match op
    case Send(data) => l.(sock := DoSend(l.sock, data).0)
    case AskClose => l.(sock := l.sock.(closing := true))
    case Call(u, app) => if CanTake(l.sock, u) then UipCall(l, u, app) else l
  }

  function LinkRun(l: Link, ops: seq<Op>): (r: Link)
    requires InBounds(l.sock)
    ensures InBounds(r.sock) && r.sock == Run(l.sock, ops)
    decreases |ops|
  {
    if ops == [] then l else LinkRun(LinkStep(l, ops[0]), ops[1..])
  }

  predicate IsCall(l: Link, op: Op) {
    op.Call? && CanTake(l.sock, op.uip)
  }

  ghost predicate AllFromUip(l: Link, ops: seq<Op>)
    requires InBounds(l.sock)
    decreases |ops|
  {
    ops == [] || ((IsCall(l, ops[0]) ==> FromUip(l, ops[0].uip)) && AllFromUip(LinkStep(l, ops[0]), ops[1..]))
  }

  ghost predicate AllSteady(l: Link, ops: seq<Op>)
    requires InBounds(l.sock)
    decreases |ops|
  {
    ops == [] || ((IsCall(l, ops[0]) ==> Steady(l, ops[0].uip)) && AllSteady(LinkStep(l, ops[0]), ops[1..]))
  }

  ghost predicate AllAcksMatch(l: Link, ops: seq<Op>)
    requires InBounds(l.sock)
    decreases |ops|
  {
    ops == [] || ((IsCall(l, ops[0]) ==> AckMatches(l, ops[0].uip)) && AllAcksMatch(LinkStep(l, ops[0]), ops[1..]))
  }

  ghost predicate AlwaysInStep(l: Link, ops: seq<Op>)
    requires InBounds(l.sock)
    decreases |ops|
  {
    InStep(l) && (ops != [] ==> AlwaysInStep(LinkStep(l, ops[0]), ops[1..]))
  }

  ghost predicate AlwaysSynced(l: Link, ops: seq<Op>)
    requires InBounds(l.sock)
    decreases |ops|
  {
    Synced(l) && (ops != [] ==> AlwaysSynced(LinkStep(l, ops[0]), ops[1..]))
  }

  lemma OwnStep(l: Link, op: Op)
    requires InBounds(l.sock) && !IsCall(l, op)
    ensures var r := LinkStep(l, op);
      && r.up == l.up && r.una == l.una && r.out == l.out && r.wire == l.wire
      && r.sock.dropped == l.sock.dropped && r.sock.sendNxt == l.sock.sendNxt
  {}

  /** Over every run, the bytes dropped from the buffer are always those that the peer has
      acknowledged, exactly when every acknowledgement finds the segment last offered to be as
      long as the one that is outstanding. */
  lemma {:induction false} InStepIff(l: Link, ops: seq<Op>)
    requires Good(l.sock) && InStep(l) && AllFromUip(l, ops)
    ensures AlwaysInStep(l, ops) <==> AllAcksMatch(l, ops)
    decreases |ops|
  {
    hide Good, LinkStep, UipCall, InStep;
    if ops != [] {
      var r := LinkStep(l, ops[0]);
      StepKeeps(l.sock, ops[0]);
      StepInStepIff(l, ops[0]);
      if InStep(r) {
        InStepIff(r, ops[1..]);
      } else {
        NotAlwaysInStep(r, ops[1..]);
      }
    }
  }

  lemma NotAlwaysInStep(l: Link, ops: seq<Op>)
    requires InBounds(l.sock) && !InStep(l)
    ensures !AlwaysInStep(l, ops)
  {}

  lemma StepInStepIff(l: Link, op: Op)
    requires Good(l.sock) && InStep(l) && (IsCall(l, op) ==> FromUip(l, op.uip))
    ensures InStep(LinkStep(l, op)) <==> (IsCall(l, op) ==> AckMatches(l, op.uip))
  {
    hide Good, UipCall;
    if IsCall(l, op) {
      CallInStepIff(l, op.uip, op.app);
    } else {
      OwnStep(l, op);
    }
  }

  lemma StepSyncedIff(l: Link, op: Op)
    requires Good(l.sock) && Synced(l) && (IsCall(l, op) ==> FromUip(l, op.uip))
    ensures Synced(LinkStep(l, op)) <==> (IsCall(l, op) ==> Steady(l, op.uip))
  {
    hide Good, UipCall, Steady;
    if IsCall(l, op) {
      CallSyncedIff(l, op.uip, op.app);
    } else {
      OwnStep(l, op);
    }
  }

  /** Over every run, socket and connection stay synchronised exactly when every transmission while
      a segment is outstanding offers a segment of the same length.  Then everything sent are
      bytes of the stream, at their place. */
  lemma {:induction false} SyncedIff(l: Link, ops: seq<Op>)
    requires Good(l.sock) && Synced(l) && AllFromUip(l, ops) && AllRight(l)
    ensures AlwaysSynced(l, ops) <==> AllSteady(l, ops)
    ensures AllSteady(l, ops) ==> AllRight(LinkRun(l, ops))
    decreases |ops|
  {
    hide Good, LinkStep, UipCall, Synced, Steady, AllRight;
    if ops != [] {
      var r := LinkStep(l, ops[0]);
      StepKeeps(l.sock, ops[0]);
      StepSyncedIff(l, ops[0]);
      if Synced(r) {
        StepSendsRight(l, ops[0]);
        SyncedIff(r, ops[1..]);
      } else {
        NotAlwaysSynced(r, ops[1..]);
      }
    }
  }

  lemma NotAlwaysSynced(l: Link, ops: seq<Op>)
    requires InBounds(l.sock) && !Synced(l)
    ensures !AlwaysSynced(l, ops)
  {}

  lemma StepSendsRight(l: Link, op: Op)
    requires Good(l.sock) && Synced(l) && AllRight(l)
    requires IsCall(l, op) ==> FromUip(l, op.uip) && Steady(l, op.uip)
    ensures AllRight(LinkStep(l, op))
  {
    hide Good, UipCall, Synced, Steady, AllRight;
    if IsCall(l, op) {
      CallSendsRight(l, op.uip, op.app);
    } else {
      OwnStep(l, op);
      StepKeeps(l.sock, op);
      RightStays(l, Step(l.sock, op));
      assert LinkStep(l, op) == l.(sock := Step(l.sock, op));
    }
  }
}
