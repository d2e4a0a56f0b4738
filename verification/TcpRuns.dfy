/** What every run of a TCP socket keeps. */
module TcpRuns {
  import opened Common
  import opened TcpSpec

  // ---------------------------------------------------------------- One operation

  /** Each acknowledgement will drop bytes that were offered to uIP, at their place. */
  ghost predicate Sent(s: Sock)
    requires InBounds(s)
  {
    s.sendNxt > 0 ==> Transmit(|s.dropped|, s.buf[..s.sendNxt]) in s.calls
  }

  ghost predicate Good(s: Sock): (r: bool)
    ensures r ==> InBounds(s)
  {
    Inv(s) && Faithful(s) && Sent(s) && Abort !in s.calls
  }

  lemma MoreAccepted(s: Sock, t: Sock)
    requires Faithful(s) && t.calls == s.calls && s.accepted <= t.accepted
    ensures Faithful(t)
  {
    forall i | 0 <= i < |t.calls| && t.calls[i].Transmit?
      ensures t.calls[i].segment == Slice(t.accepted, t.calls[i].at, |t.calls[i].segment|)
    {
      var c := s.calls[i];
      assert c.segment == Slice(s.accepted, c.at, |c.segment|);
      if c.at + |c.segment| <= |s.accepted| {
        assert t.accepted[..|s.accepted|] == s.accepted;
        assert s.accepted[c.at..c.at + |c.segment|] == t.accepted[c.at..c.at + |c.segment|];
      } else {
        assert c.segment == [];
      }
    }
  }

  lemma SendKeeps(s: Sock, data: seq<bv8>)
    requires Good(s)
    ensures var (t, n) := DoSend(s, data);
      && Good(t) && n == Min(|data|, |s.buf| - s.len)
      && t.accepted == s.accepted + data[..n] && t.dropped == s.dropped
      && t.calls == s.calls && t.sendNxt == s.sendNxt && t.buf[..s.len] == s.buf[..s.len]
  {
    hide Faithful;
    var (t, n) := DoSend(s, data);
    BufferGrows(s.buf, s.len, data[..n], s.sendNxt);
    assert s.dropped + (s.buf[..s.len] + data[..n]) == s.accepted + data[..n];
    MoreAccepted(s, t);
  }

  lemma BufferGrows(buf: seq<bv8>, len: nat, data: seq<bv8>, k: nat)
    requires len + |data| <= |buf| && k <= len
    ensures var r := buf[..len] + data + buf[len + |data|..];
      |r| == |buf| && r[..len + |data|] == buf[..len] + data && r[..len] == buf[..len] && r[..k] == buf[..k]
  {}

  lemma EventKeeps(s: Sock, e: Event, app: Application)
    requires Good(s)
    ensures var t := CallEvent(s, e, app);
      && Good(t) && s.accepted <= t.accepted && t.dropped == s.dropped && t.calls == s.calls
  {
    hide Inv, Faithful;
    var u := s.(events := s.events + [e]);
    assert Good(u) by {
      SameStream(s, u);
    }
    SendKeeps(u, app(e));
  }

  lemma SameStream(s: Sock, t: Sock)
    requires Good(s)
    requires t.buf == s.buf && t.len == s.len && t.sendNxt == s.sendNxt && t.sendLen == s.sendLen
    requires t.accepted == s.accepted && t.dropped == s.dropped
    requires s.calls <= t.calls && forall c | c in t.calls[|s.calls|..] :: c.Close? || c.Mark?
    ensures Good(t)
  {
    assert t.calls == s.calls + t.calls[|s.calls|..];
    forall i | |s.calls| <= i < |t.calls| ensures !t.calls[i].Transmit? {
      var c := t.calls[|s.calls|..][i - |s.calls|];
      assert c in t.calls[|s.calls|..];
    }
  }

  lemma SendDataKeeps(s: Sock, mss: nat)
    requires Good(s)
    ensures Good(DoSendData(s, mss)) && DoSendData(s, mss).accepted == s.accepted
    ensures DoSendData(s, mss).dropped == s.dropped && s.calls <= DoSendData(s, mss).calls
  {
    var t := DoSendData(s, mss);
    if s.sendLen > 0 {
      var n, a := t.sendNxt, |s.dropped|;
      assert s.accepted[a..a + n] == s.buf[..n];
      assert t.calls[|s.calls|] == Transmit(a, s.buf[..n]);
      forall i | 0 <= i < |t.calls| && t.calls[i].Transmit?
        ensures t.calls[i].segment == Slice(t.accepted, t.calls[i].at, |t.calls[i].segment|)
      {
        if i < |s.calls| {
          assert t.calls[i] == s.calls[i];
        }
      }
    }
  }

  function Dropped(s: Sock): Sock
    requires InBounds(s) && s.sendNxt <= s.len
  {
    s.(buf := CopiedDown(s.buf, s.sendNxt), len := s.len - s.sendNxt, sendLen := s.len - s.sendNxt, sendNxt := 0,
       dropped := s.dropped + s.buf[..s.sendNxt])
  }

  lemma CopiedDownStream(buf: seq<bv8>, len: nat, n: nat, dropped: seq<bv8>)
    requires n <= len <= |buf|
    ensures dropped + buf[..n] + CopiedDown(buf, n)[..len - n] == dropped + buf[..len]
  {
    assert CopiedDown(buf, n)[..len - n] == buf[n..len];
    assert buf[..n] + buf[n..len] == buf[..len];
  }

  lemma DroppedKeeps(s: Sock)
    requires Good(s)
    ensures Good(Dropped(s))
  {
    hide Faithful, CopiedDown;
    CopiedDownStream(s.buf, s.len, s.sendNxt, s.dropped);
    MoreAccepted(s, Dropped(s));
  }

  /** An acknowledgement never takes the abort branch, and drops the bytes of the segment last
      offered to uIP from the front of the buffer. */
  lemma AckedKeeps(s: Sock, app: Application)
    requires Good(s)
    ensures var t := DoAcked(s, app);
      && Good(t) && t.calls == s.calls && s.accepted <= t.accepted
      && t.dropped == s.dropped + s.buf[..if s.sendLen == 0 then 0 else s.sendNxt]
  {
    hide Faithful, CopiedDown, CallEvent;
    if s.sendLen > 0 {
      DroppedKeeps(s);
      EventKeeps(Dropped(s), DataSent, app);
    } else {
      assert s.buf[..0] == [] && s.dropped + [] == s.dropped;
    }
  }

  lemma EmptyIsAllDropped(s: Sock)
    requires Good(s) && s.len == 0
    ensures s.dropped == s.accepted
  {
    assert s.buf[..0] == [] && s.dropped + [] == s.dropped;
  }

  /** When the socket closes on its own, every byte accepted has been dropped. */
  lemma ClosesWhenAllIsDropped(s: Sock)
    requires Good(s) && Close in OnClosing(s).calls[|s.calls|..]
    ensures s.dropped == s.accepted
  {
    if s.len == 0 {
      EmptyIsAllDropped(s);
    }
  }

  // ---------------------------------------------------------------- Whole calls and runs

  lemma RelistenKeeps(s: Sock)
    requires Good(s)
    ensures Good(Relisten(s))
  {
    SameStream(s, Relisten(s));
  }

  lemma NewDataKeeps(s: Sock, data: seq<bv8>)
    requires Good(s) && (s.inputMaxlen > 0 || data == [])
    ensures Good(DoNewData(s, data))
  {
    SameStream(s, DoNewData(s, data));
  }

  lemma OnConnectedKeeps(s: Sock, u: Uip, app: Application)
    requires Good(s) && CanTake(s, u)
    ensures Good(OnConnected(s, u, app)) && s.accepted <= OnConnected(s, u, app).accepted
  {
    hide Good, CallEvent, DoSendData;
    var a := s.(maxSeg := u.mss);
    SameStream(s, a);
    EventKeeps(a, Connected, app);
    var b := CallEvent(a, Connected, app);
    if u.newdata {
      NewDataKeeps(b, u.data);
    }
    SendDataKeeps(if u.newdata then DoNewData(b, u.data) else b, u.mss);
  }

  lemma OnTimedOutKeeps(s: Sock, u: Uip, app: Application)
    requires Good(s)
    ensures Good(OnTimedOut(s, u, app)) && s.accepted <= OnTimedOut(s, u, app).accepted
  {
    hide Good, CallEvent;
    if u.timedout {
      EventKeeps(s, TimedOut, app);
      RelistenKeeps(CallEvent(s, TimedOut, app));
    }
  }

  /** An abort that uIP reports is passed on; the socket itself never asks for one. */
  lemma OnAbortedKeeps(s: Sock, u: Uip, app: Application)
    requires Good(s)
    ensures Good(OnAborted(s, u, app)) && s.accepted <= OnAborted(s, u, app).accepted
  {
    hide Good, CallEvent;
    if u.aborted {
      var a := s.(calls := s.calls + [Mark(false)]);
      SameStream(s, a);
      EventKeeps(a, Aborted, app);
      RelistenKeeps(CallEvent(a, Aborted, app));
    }
  }

  lemma OnTrafficKeeps(s: Sock, u: Uip, app: Application)
    requires Good(s) && CanTake(s, u)
    ensures Good(OnTraffic(s, u, app)) && s.accepted <= OnTraffic(s, u, app).accepted
  {
    hide Good, DoAcked, DoSendData;
    if u.acked {
      AckedKeeps(s, app);
    }
    var a := if u.acked then DoAcked(s, app) else s;
    if u.newdata {
      NewDataKeeps(a, u.data);
    }
    SendDataKeeps(if u.newdata then DoNewData(a, u.data) else a, u.mss);
  }

  lemma OnClosingKeeps(s: Sock)
    requires Good(s)
    ensures Good(OnClosing(s)) && s.accepted == OnClosing(s).accepted
  {
    hide Good;
    if s.len == 0 && s.closing {
      var a := s.(closing := false, calls := s.calls + [Close, Mark(false)], conn := 0);
      SameStream(s, a);
      RelistenKeeps(a);
    }
  }

  lemma OnClosedKeeps(s: Sock, u: Uip, app: Application)
    requires Good(s)
    ensures Good(OnClosed(s, u, app)) && s.accepted <= OnClosed(s, u, app).accepted
  {
    hide Good, CallEvent;
    if u.closed {
      var a := s.(calls := s.calls + [Mark(false)], conn := 0);
      SameStream(s, a);
      EventKeeps(a, Closed, app);
      RelistenKeeps(CallEvent(a, Closed, app));
    }
  }

  lemma AppCallKeeps(s: Sock, u: Uip, app: Application)
    requires Good(s) && CanTake(s, u)
    ensures Good(DoAppCall(s, u, app)) && s.accepted <= DoAppCall(s, u, app).accepted
  {
    hide Good, OnConnected, OnTimedOut, OnAborted, OnTraffic, OnClosing, OnClosed;
    if s.conn != 0 && s.conn != u.conn {
    } else if u.connected {
      OnConnectedKeeps(s, u, app);
    } else {
      OnTimedOutKeeps(s, u, app);
      var a := OnTimedOut(s, u, app);
      OnAbortedKeeps(a, u, app);
      var b := OnAborted(a, u, app);
      OnTrafficKeeps(b, u, app);
      var c := OnTraffic(b, u, app);
      OnClosingKeeps(c);
      OnClosedKeeps(OnClosing(c), u, app);
    }
  }

  /** A step of a run: the application sends or asks to close, or uIP calls. */
  datatype Op = Send(data: seq<bv8>) | AskClose | Call(uip: Uip, app: Application)

  function Step(s: Sock, op: Op): (r: Sock)
    requires InBounds(s)
    ensures InBounds(r)
  {
    match op
    case Send(data) => DoSend(s, data).0
    case AskClose => s.(closing := true)
    case Call(u, app) => if CanTake(s, u) then DoAppCall(s, u, app) else s
  }

  function Run(s: Sock, ops: seq<Op>): (r: Sock)
    requires InBounds(s)
    ensures InBounds(r)
    decreases |ops|
  {
    if ops == [] then s else Run(Step(s, ops[0]), ops[1..])
  }

  lemma StepKeeps(s: Sock, op: Op)
    requires Good(s)
    ensures Good(Step(s, op)) && s.accepted <= Step(s, op).accepted
  {
    hide Good, DoAppCall, DoSend;
    match op
    case Send(data) => SendKeeps(s, data);
    case AskClose => SameStream(s, s.(closing := true));
    case Call(u, app) =>
      if CanTake(s, u) {
        AppCallKeeps(s, u, app);
      }
  }

  /** In every run of sends, transmissions, retransmissions and acknowledgements: the dropped
      bytes followed by the output buffer are the bytes accepted, the lengths are in order, every
      segment offered carries the accepted bytes of its place, by the socket's own count, and the
      abort branch of acked is never taken. */
  lemma {:induction false} RunKeeps(s: Sock, ops: seq<Op>)
    requires Good(s)
    ensures var t := Run(s, ops);
      && Good(t) && s.accepted <= t.accepted
      && t.sendNxt <= t.sendLen <= t.len <= |t.buf|
      && t.dropped + t.buf[..t.len] == t.accepted
      && Abort !in t.calls
    decreases |ops|
  {
    hide Step;
    if ops != [] {
      StepKeeps(s, ops[0]);
      RunKeeps(Step(s, ops[0]), ops[1..]);
    }
  }

  // ---------------------------------------------------------------- Progress

  const SILENT: Application := (e: Event) => []

  /** Transmit a segment and have it acknowledged, n times, with nothing more to send. */
  function Rounds(s: Sock, mss: nat, n: nat): (r: Sock)
    requires InBounds(s)
    ensures InBounds(r)
    decreases n
  {
    if n == 0 then s else Rounds(DoAcked(DoSendData(s, mss), SILENT), mss, n - 1)
  }

  lemma RoundShrinks(s: Sock, mss: nat)
    requires Good(s) && mss > 0 && s.maxSeg > 0
    ensures var t := DoAcked(DoSendData(s, mss), SILENT);
      && Good(t) && t.accepted == s.accepted && t.maxSeg == s.maxSeg
      && t.len == s.len - Min(s.len, if s.sendLen == 0 then 0 else Min(s.sendLen, Min(s.maxSeg, mss)))
      && (s.len > 0 ==> t.len < s.len)
  {
    SendDataKeeps(s, mss);
    AckedKeeps(DoSendData(s, mss), SILENT);
    hide Faithful, Sent;
    var t := DoSendData(s, mss);
    assert SILENT(DataSent) == [];
  }

  /** With a segment size of at least one byte, as many rounds as there are bytes are enough
      for everything accepted to leave the buffer. */
  lemma {:induction false} BufferDrains(s: Sock, mss: nat, n: nat)
    requires Good(s) && mss > 0 && s.maxSeg > 0 && s.len <= n
    ensures var t := Rounds(s, mss, n); t.len == 0 && t.dropped == s.accepted == t.accepted
    decreases n
  {
    hide Good, DoAcked, DoSendData;
    if n == 0 {
      EmptyIsAllDropped(s);
    } else {
      RoundShrinks(s, mss);
      BufferDrains(DoAcked(DoSendData(s, mss), SILENT), mss, n - 1);
    }
  }

  // ---------------------------------------------------------------- Registering again

  /** tcp_socket_register leaves a sound socket exactly when nothing was waiting to be sent:
      it does not reset output_senddata_len and output_data_send_nxt. */
  lemma RegisterIsSoundIff(s: Sock, buf: seq<bv8>, inputMaxlen: nat)
    ensures Good(DoRegister(s, buf, inputMaxlen)) <==> s.sendLen == 0 && s.sendNxt == 0
  {}

  /** Otherwise, if a transmission was under way, the first acknowledgement of the new
      connection aborts it. */
  lemma StaleRegisterAborts(s: Sock, buf: seq<bv8>, inputMaxlen: nat, app: Application)
    requires s.sendLen > 0 && s.sendNxt <= |buf| && s.sendLen <= |buf|
    ensures Abort in DoAcked(DoRegister(s, buf, inputMaxlen), app).calls <==> s.sendNxt > 0
  {
    var t := DoRegister(s, buf, inputMaxlen);
    if s.sendNxt > 0 {
      var u := t.(buf := CopiedDown(t.buf, t.sendNxt), calls := [Mark(false), Abort]);
      assert t.calls + [Mark(false), Abort] == [Mark(false), Abort];
      assert CallEvent(u, Aborted, app).calls[1] == Abort;
    }
  }
}
