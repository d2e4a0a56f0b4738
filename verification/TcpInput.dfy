/** What a TCP socket hands to the application over a run: the data that came in, and the
    events. */
module TcpInput {
  import opened Common
  import opened TcpSpec
  import opened TcpRuns
  import opened TcpLink

  lemma {:induction false} FlattenJoin(a: seq<seq<bv8>>, b: seq<seq<bv8>>)
    ensures Flatten(a + b) == Flatten(a) + Flatten(b)
  {
    if a == [] {
      assert a + b == b;
    } else {
      assert (a + b)[1..] == a[1..] + b;
      FlattenJoin(a[1..], b);
    }
  }

  // ---------------------------------------------------------------- The data of one call

  /** From s to t the application got data, in pieces that fit the input buffer. */
  ghost predicate Got(s: Sock, t: Sock, data: seq<bv8>) {
    && t.inputMaxlen == s.inputMaxlen && s.received <= t.received
    && Flatten(t.received[|s.received|..]) == data
    && forall i | |s.received| <= i < |t.received| :: |t.received[i]| <= s.inputMaxlen
  }

  lemma GotNothing(s: Sock, t: Sock)
    requires t.inputMaxlen == s.inputMaxlen && t.received == s.received
    ensures Got(s, t, [])
  {
    assert t.received[|s.received|..] == [];
  }

  lemma GotMore(s: Sock, t: Sock, u: Sock, data: seq<bv8>, more: seq<bv8>)
    requires Got(s, t, data) && Got(t, u, more)
    ensures Got(s, u, data + more)
  {
    var n, a, b := |s.received|, t.received[|s.received|..], u.received[|t.received|..];
    assert u.received[n..] == a + b;
    FlattenJoin(a, b);
    forall i | n <= i < |u.received| ensures |u.received[i]| <= s.inputMaxlen {
      if i < |t.received| {
        assert u.received[i] == t.received[i];
      }
    }
  }

  lemma GotThen(s: Sock, t: Sock, u: Sock, data: seq<bv8>)
    requires Got(s, t, data) && u.inputMaxlen == t.inputMaxlen && u.received == t.received
    ensures Got(s, u, data)
  {}

  lemma NewDataGives(s: Sock, data: seq<bv8>)
    requires s.inputMaxlen > 0 || data == []
    ensures Got(s, DoNewData(s, data), data)
  {
    hide Chunks;
    ChunksAreTheSegment(data, s.inputMaxlen);
    var c, t := Chunks(data, s.inputMaxlen), DoNewData(s, data);
    assert t.received[|s.received|..] == c;
    forall i | |s.received| <= i < |t.received| ensures |t.received[i]| <= s.inputMaxlen {
      assert t.received[i] == c[i - |s.received|];
    }
  }

  /** Nothing came in, and the connection is as it was. */
  predicate Idle(s: Sock, t: Sock) {
    t.received == s.received && t.inputMaxlen == s.inputMaxlen && t.conn == s.conn
  }

  lemma EventIdle(s: Sock, e: TcpSpec.Event, app: Application)
    requires InBounds(s)
    ensures Idle(s, CallEvent(s, e, app))
  {}

  lemma LostIdle(s: Sock, u: Uip, app: Application)
    requires InBounds(s)
    ensures Idle(s, OnAborted(OnTimedOut(s, u, app), u, app))
  {
    hide CallEvent;
    EventIdle(s, TimedOut, app);
    var a := OnTimedOut(s, u, app);
    EventIdle(a.(calls := a.calls + [Mark(false)]), Aborted, app);
  }

  lemma AckedIdle(s: Sock, app: Application)
    requires InBounds(s)
    ensures Idle(s, DoAcked(s, app))
  {
    hide CallEvent;
    if s.sendLen > 0 {
      var t := s.(buf := CopiedDown(s.buf, s.sendNxt));
      if s.len < s.sendNxt {
        EventIdle(t.(calls := t.calls + [Mark(false), Abort]), Aborted, app);
      } else {
        EventIdle(t.(len := s.len - s.sendNxt, sendLen := s.len - s.sendNxt, sendNxt := 0,
                     dropped := s.dropped + s.buf[..s.sendNxt]), DataSent, app);
      }
    }
  }

  lemma SendDataIdle(s: Sock, mss: nat)
    requires InBounds(s)
    ensures Idle(s, DoSendData(s, mss))
  {}

  lemma ClosedSame(s: Sock, u: Uip, app: Application)
    requires InBounds(s)
    ensures var t := OnClosed(OnClosing(s), u, app); t.received == s.received && t.inputMaxlen == s.inputMaxlen
  {
    hide CallEvent;
    var t := OnClosing(s);
    if u.closed {
      EventIdle(t.(calls := t.calls + [Mark(false)], conn := 0), Closed, app);
    }
  }

  /** The data of a call that newdata hands on. */
  function Arrived(s: Sock, u: Uip): seq<bv8> {
    if ForUs(s, u) && u.newdata then u.data else []
  }

  function IfNewData(s: Sock, u: Uip): (r: Sock)
    requires InBounds(s) && CanTake(s, u)
    ensures InBounds(r)
  {
    if u.newdata then DoNewData(s, u.data) else s
  }

  lemma IfNewDataGives(s: Sock, a: Sock, u: Uip)
    requires InBounds(a) && CanTake(s, u) && Idle(s, a) && ForUs(s, u)
    ensures Got(s, IfNewData(a, u), Arrived(s, u))
  {
    hide DoNewData;
    if u.newdata {
      NewDataGives(a, u.data);
    } else {
      GotNothing(s, a);
    }
  }

  lemma TrafficGives(s: Sock, u: Uip, app: Application)
    requires InBounds(s) && CanTake(s, u) && ForUs(s, u)
    ensures Got(s, OnTraffic(s, u, app), Arrived(s, u))
  {
    hide DoAcked, DoSendData, Got, InBounds;
    var a := if u.acked then DoAcked(s, app) else s;
    AckedIdle(s, app);
    IfNewDataGives(s, a, u);
    SendDataIdle(IfNewData(a, u), u.mss);
    GotThen(s, IfNewData(a, u), OnTraffic(s, u, app), Arrived(s, u));
  }

  lemma ConnectedGives(s: Sock, u: Uip, app: Application)
    requires InBounds(s) && CanTake(s, u) && ForUs(s, u)
    ensures Got(s, OnConnected(s, u, app), Arrived(s, u))
  {
    hide CallEvent, DoSendData, Got;
    var a := CallEvent(s.(maxSeg := u.mss), Connected, app);
    EventIdle(s.(maxSeg := u.mss), Connected, app);
    IfNewDataGives(s, a, u);
    SendDataIdle(IfNewData(a, u), u.mss);
    GotThen(s, IfNewData(a, u), OnConnected(s, u, app), Arrived(s, u));
  }

  lemma CallGives(s: Sock, u: Uip, app: Application)
    requires InBounds(s) && CanTake(s, u)
    ensures Got(s, DoAppCall(s, u, app), Arrived(s, u))
  {
    hide OnConnected, OnTimedOut, OnAborted, OnTraffic, OnClosing, OnClosed, Got;
    if !ForUs(s, u) {
      GotNothing(s, s);
    } else if u.connected {
      ConnectedGives(s, u, app);
    } else {
      LostIdle(s, u, app);
      var b := OnAborted(OnTimedOut(s, u, app), u, app);
      TrafficGives(b, u, app);
      var c := OnTraffic(b, u, app);
      ClosedSame(c, u, app);
      GotSince(s, b, c, Arrived(s, u));
      GotThen(s, c, DoAppCall(s, u, app), Arrived(s, u));
    }
  }

  lemma GotSince(s: Sock, t: Sock, u: Sock, data: seq<bv8>)
    requires Idle(s, t) && Got(t, u, data)
    ensures Got(s, u, data)
  {}

  // ---------------------------------------------------------------- The data of a run

  /** The data of all the calls of a run that are for this socket and that it can take. */
  function Incoming(s: Sock, ops: seq<Op>): seq<bv8>
    requires InBounds(s)
    decreases |ops|
  {
    if ops == [] then []
    else
      (if ops[0].Call? && CanTake(s, ops[0].uip) then Arrived(s, ops[0].uip) else [])
      + Incoming(Step(s, ops[0]), ops[1..])
  }

  lemma StepGives(s: Sock, op: Op)
    requires InBounds(s)
    ensures Got(s, Step(s, op), if op.Call? && CanTake(s, op.uip) then Arrived(s, op.uip) else [])
  {
    hide Got, DoAppCall;
    match op
    case Send(data) => GotNothing(s, Step(s, op));
    case AskClose => GotNothing(s, Step(s, op));
    case Call(u, app) =>
      if CanTake(s, u) {
        CallGives(s, u, app);
      } else {
        GotNothing(s, s);
      }
  }

  lemma {:induction false} RunGives(s: Sock, ops: seq<Op>)
    requires InBounds(s)
    ensures Got(s, Run(s, ops), Incoming(s, ops))
    decreases |ops|
  {
    hide Got, Step;
    if ops == [] {
      GotNothing(s, s);
    } else {
      StepGives(s, ops[0]);
      RunGives(Step(s, ops[0]), ops[1..]);
      GotMore(s, Step(s, ops[0]), Run(s, ops),
        if ops[0].Call? && CanTake(s, ops[0].uip) then Arrived(s, ops[0].uip) else [],
        Incoming(Step(s, ops[0]), ops[1..]));
    }
  }

  /** Over every run: what the application has received is what it had, followed by the data of
      all the segments that came in for the socket, in order and with nothing left out or
      doubled, in pieces of at most the length of the input buffer. */
  lemma RunReceives(s: Sock, ops: seq<Op>)
    requires InBounds(s)
    ensures var t := Run(s, ops);
      && s.received <= t.received && Flatten(t.received) == Flatten(s.received) + Incoming(s, ops)
      && forall i | |s.received| <= i < |t.received| :: |t.received[i]| <= s.inputMaxlen
  {
    hide Run, Incoming;
    RunGives(s, ops);
    var t := Run(s, ops);
    assert t.received == s.received + t.received[|s.received|..];
    FlattenJoin(s.received, t.received[|s.received|..]);
  }

  // ---------------------------------------------------------------- The events of a call

  function If(c: bool, e: TcpSpec.Event): seq<TcpSpec.Event> {
    if c then [e] else []
  }

  /** An event is announced once, and as much of the answer as fits is accepted for output. */
  lemma EventTakes(s: Sock, e: TcpSpec.Event, app: Application)
    requires InBounds(s)
    ensures var t := CallEvent(s, e, app);
      && t.events == s.events + [e]
      && t.accepted == s.accepted + app(e)[..Min(|app(e)|, |s.buf| - s.len)]
      && t.calls == s.calls && t.closing == s.closing && t.listening == s.listening && t.listenPort == s.listenPort
  {}

  lemma AckedEvents(s: Sock, app: Application)
    requires Good(s)
    ensures DoAcked(s, app).events == s.events + If(s.sendLen > 0, DataSent)
    ensures DoAcked(s, app).closing == s.closing && DoAcked(s, app).listening == s.listening
  {
    hide CallEvent, Faithful, Sent;
    if s.sendLen > 0 {
      EventTakes(Dropped(s), DataSent, app);
    }
  }

  lemma LostEvents(s: Sock, u: Uip, app: Application)
    requires InBounds(s)
    ensures var t := OnAborted(OnTimedOut(s, u, app), u, app);
      && t.events == s.events + If(u.timedout, TimedOut) + If(u.aborted, Aborted)
      && t.closing == s.closing && t.listenPort == s.listenPort
      && t.listening == (s.listening || (s.listenPort != 0 && (u.timedout || u.aborted)))
  {
    hide CallEvent;
    if u.timedout {
      EventTakes(s, TimedOut, app);
    }
    var a := OnTimedOut(s, u, app);
    if u.aborted {
      EventTakes(a.(calls := a.calls + [Mark(false)]), Aborted, app);
    }
  }

  lemma LostGood(s: Sock, u: Uip, app: Application)
    requires Good(s)
    ensures Good(OnAborted(OnTimedOut(s, u, app), u, app))
  {
    OnTimedOutKeeps(s, u, app);
    OnAbortedKeeps(OnTimedOut(s, u, app), u, app);
  }

  lemma TrafficEvents(s: Sock, u: Uip, app: Application)
    requires Good(s) && CanTake(s, u)
    ensures var t := OnTraffic(s, u, app);
      && t.events == s.events + If(u.acked && s.sendLen > 0, DataSent)
      && t.closing == s.closing && t.listening == s.listening && t.listenPort == s.listenPort
  {
    hide DoAcked, Good;
    if u.acked {
      AckedEvents(s, app);
      AckedPort(s, app);
    }
  }

  lemma AckedPort(s: Sock, app: Application)
    requires InBounds(s)
    ensures DoAcked(s, app).listenPort == s.listenPort
  {}

  /** The events of a call for an established connection, in order; and its end: the socket
      closes the connection exactly when it was asked to and has nothing left, gives it up then
      or when uIP closed it, and listens again exactly when it was bound to a port and the
      connection is over. */
  lemma CallOutcome(s: Sock, u: Uip, app: Application)
    requires Good(s) && CanTake(s, u) && ForUs(s, u) && !u.connected
    ensures var lost, a, t := OnAborted(OnTimedOut(s, u, app), u, app), AfterSending(s, u, app), DoAppCall(s, u, app);
      && t.events == s.events + If(u.timedout, TimedOut) + If(u.aborted, Aborted)
           + If(u.acked && lost.sendLen > 0, DataSent) + If(u.closed, Closed)
      && t.calls == a.calls + (if a.len == 0 && s.closing then [Close, Mark(false)] else [])
           + (if u.closed then [Mark(false)] else [])
      && t.conn == (if u.closed || (a.len == 0 && s.closing) then 0 else s.conn)
      && t.closing == (s.closing && a.len > 0)
      && t.listening == (s.listening
           || (s.listenPort != 0 && (u.timedout || u.aborted || u.closed || (a.len == 0 && s.closing))))
  {
    hide OnAborted, OnTimedOut, OnTraffic, CallEvent, Good;
    LostEvents(s, u, app);
    LostIdle(s, u, app);
    LostGood(s, u, app);
    var b := OnAborted(OnTimedOut(s, u, app), u, app);
    TrafficEvents(b, u, app);
    TrafficConn(b, u, app);
    EndOfCall(OnTraffic(b, u, app), u, app);
  }

  lemma TrafficConn(s: Sock, u: Uip, app: Application)
    requires InBounds(s) && CanTake(s, u)
    ensures OnTraffic(s, u, app).conn == s.conn
  {
    hide DoAcked;
    AckedIdle(s, app);
  }

  lemma EndOfCall(a: Sock, u: Uip, app: Application)
    requires InBounds(a)
    ensures var t, over := OnClosed(OnClosing(a), u, app), a.len == 0 && a.closing;
      && t.events == a.events + If(u.closed, Closed)
      && t.calls == a.calls + (if over then [Close, Mark(false)] else []) + (if u.closed then [Mark(false)] else [])
      && t.conn == (if u.closed || over then 0 else a.conn)
      && t.closing == (a.closing && a.len > 0)
      && t.listening == (a.listening || (a.listenPort != 0 && (u.closed || over)))
  {
    hide CallEvent;
    var c := OnClosing(a);
    if u.closed {
      EventTakes(c.(calls := c.calls + [Mark(false)], conn := 0), Closed, app);
      EventIdle(c.(calls := c.calls + [Mark(false)], conn := 0), Closed, app);
    }
  }

  // ---------------------------------------------------------------- What a call sends

  /** A call that connects announces it once and takes over the segment size. */
  lemma ConnectedOutcome(s: Sock, u: Uip, app: Application)
    requires InBounds(s) && CanTake(s, u) && ForUs(s, u) && u.connected
    ensures var t := DoAppCall(s, u, app); t.events == s.events + [Connected] && t.maxSeg == u.mss
  {
    hide CallEvent;
    EventTakes(s.(maxSeg := u.mss), Connected, app);
    EventSegment(s.(maxSeg := u.mss), Connected, app);
  }

  lemma EventSegment(s: Sock, e: TcpSpec.Event, app: Application)
    requires InBounds(s)
    ensures CallEvent(s, e, app).maxSeg == s.maxSeg
  {}

  /** On a new, repeated or acknowledged segment, on data coming in, and on a poll, the socket
      sends once if it has anything to send: from the start of what the acknowledgement has left,
      as much as there is and both segment sizes allow.  Otherwise it sends nothing. */
  lemma TrafficSends(s: Sock, u: Uip, app: Application)
    requires Good(s) && CanTake(s, u)
    ensures var a, t := if u.acked then DoAcked(s, app) else s, OnTraffic(s, u, app);
      && t.calls == s.calls
           + (if (u.rexmit || u.newdata || u.acked || u.poll) && a.sendLen > 0
              then [Transmit(|a.dropped|, a.buf[..Min(a.sendLen, Min(a.maxSeg, u.mss))])] else [])
      && t.buf == a.buf && t.len == a.len
  {
    hide DoAcked, Good;
    if u.acked {
      AckedKeeps(s, app);
    }
  }

  /** A socket that is registered again, with nothing under way, starts from nothing: the whole
      buffer is free, the first bytes sent are the first of the new stream, and the end of the
      connection does not make it listen. */
  lemma RegisteredStartsAnew(s: Sock, buf: seq<bv8>, inputMaxlen: nat, data: seq<bv8>, mss: nat)
    requires s.sendLen == 0 && s.sendNxt == 0 && 0 < |data| <= |buf|
    ensures var (t, n) := DoSend(DoRegister(s, buf, inputMaxlen), data);
      && n == |data| && t.accepted == data
      && DoSendData(t, mss).calls == [Transmit(0, data[..Min(|data|, Min(s.maxSeg, mss))])]
      && !Relisten(t).listening && !t.closing && t.inputMaxlen == inputMaxlen
  {
    var r := DoRegister(s, buf, inputMaxlen);
    var (t, n) := DoSend(r, data);
    assert r.accepted + data[..n] == data && r.buf[..0] == [] && [] + data == data;
    assert t.buf[..|data|] == data;
    var k := Min(|data|, Min(s.maxSeg, mss));
    assert t.buf[..k] == data[..k];
    assert [] + [Transmit(0, data[..k])] == [Transmit(0, data[..k])];
  }
}
