/** What a change of the peer's window does to a TCP socket while a segment is outstanding: two
    runs in which bytes are lost, or sent at a wrong place. */
module TcpWindow {
  import opened TcpSpec
  import opened TcpRuns
  import opened TcpLink

  const QUIET: Uip := Uip(1, false, false, false, false, false, false, false, false, 1, [])

  function Polled(mss: nat): Uip { QUIET.(poll := true, mss := mss) }

  function GotData(mss: nat): Uip { QUIET.(newdata := true, mss := mss) }

  function GotAck(mss: nat): Uip { QUIET.(acked := true, mss := mss) }

  /** A socket with len bytes in its buffer. */
  function Filled(buf: seq<bv8>, len: nat, sendNxt: nat, closing: bool, calls: seq<Call>, events: seq<Event>,
      received: seq<seq<bv8>>, accepted: seq<bv8>, dropped: seq<bv8>): Sock
  {
    Sock(buf, len, sendNxt, len, 2, 1, false, closing, 0, 1, calls, events, received, accepted, dropped)
  }

  /** Some bytes wait in the socket, and nothing has been sent. */
  function Fresh(data: seq<bv8>, closing: bool): Link {
    Link(Filled(data, |data|, 0, closing, [], [], [], data, []), true, 0, 0, [])
  }

  lemma FreshIsSound(data: seq<bv8>, closing: bool)
    ensures Good(Fresh(data, closing).sock) && Synced(Fresh(data, closing))
  {
    assert [] + data == data && data[..|data|] == data;
  }

  // ---------------------------------------------------------------- One call

  /** A call that only makes the socket send. */
  lemma Sending(l: Link, u: Uip)
    requires InBounds(l.sock) && l.up && l.sock.conn == 1 && l.sock.len > 0 && l.sock.sendLen > 0 && l.sock.inputMaxlen > 0
    requires u == Polled(u.mss) || u == GotData(u.mss)
    ensures CanTake(l.sock, u) && FromUip(l, u)
    ensures var s, n := l.sock, Offer(l.sock, u.mss);
      n <= |s.buf| &&
      UipCall(l, u, SILENT) ==
        var t := s.(sendNxt := n, calls := s.calls + [Transmit(|s.dropped|, s.buf[..n])],
                    received := if u.newdata then s.received + [[]] else s.received);
        var len := if l.out == 0 then n else l.out;
        if n == 0 then l.(sock := t) else Link(t, true, l.una, len, l.wire + [Segment(l.una, s.buf[..n], len)])
  {
    assert Chunks([], l.sock.inputMaxlen) == [[]];
  }

  lemma NothingSent(s: Sock)
    requires InBounds(s)
    ensures CallEvent(s, DataSent, SILENT)
         == (if s.sendLen == 0 then s.(sendLen := s.len, events := s.events + [DataSent])
             else s.(events := s.events + [DataSent]))
  {
    assert SILENT(DataSent) == [];
    assert s.buf[..s.len] + [] + s.buf[s.len + 0..] == s.buf && s.accepted + [] == s.accepted;
  }

  /** An acknowledgement. */
  lemma Acknowledged(l: Link, mss: nat)
    requires InBounds(l.sock) && l.up && l.sock.conn == 1 && l.sock.sendNxt <= l.sock.sendLen == l.sock.len
    requires l.sock.len > 0
    ensures var s := l.sock;
      var m := s.len - s.sendNxt;
      var t := s.(buf := CopiedDown(s.buf, s.sendNxt), len := m, sendLen := m, sendNxt := 0,
                  events := s.events + [DataSent], dropped := s.dropped + s.buf[..s.sendNxt]);
      OnTraffic(s, GotAck(mss), SILENT) == DoSendData(t, mss)
  {
    hide CallEvent, CopiedDown;
    NothingSent(Dropped(l.sock));
  }

  lemma ThreeCalls(l: Link, u: Uip, v: Uip, w: Uip, l1: Link, l2: Link, l3: Link)
    requires InBounds(l.sock) && CanTake(l.sock, u) && UipCall(l, u, SILENT) == l1 && FromUip(l, u)
    requires CanTake(l1.sock, v) && UipCall(l1, v, SILENT) == l2 && FromUip(l1, v)
    requires CanTake(l2.sock, w) && UipCall(l2, w, SILENT) == l3 && FromUip(l2, w)
    ensures var ops := [Call(u, SILENT), Call(v, SILENT), Call(w, SILENT)];
      LinkRun(l, ops) == l3 && AllFromUip(l, ops)
  {
    hide UipCall, FromUip;
    var a, b, c := Call(u, SILENT), Call(v, SILENT), Call(w, SILENT);
    assert [a, b, c][1..] == [b, c] && [b, c][1..] == [c] && [c][1..] == [];
    assert LinkRun(l3, []) == l3 && AllFromUip(l3, []);
    assert LinkRun(l2, [c]) == l3 && AllFromUip(l2, [c]);
    assert LinkRun(l1, [b, c]) == l3 && AllFromUip(l1, [b, c]);
  }

  // ---------------------------------------------------------------- A window that grows

  const GROWN_1: Link := Link(Filled([1, 2], 2, 1, true, [Transmit(0, [1])], [], [], [1, 2], []), true, 0, 1,
    [Segment(0, [1], 1)])
  const GROWN_2: Link := Link(
    Filled([1, 2], 2, 2, true, [Transmit(0, [1]), Transmit(0, [1, 2])], [], [[]], [1, 2], []), true, 0, 1,
    [Segment(0, [1], 1), Segment(0, [1, 2], 1)])

  lemma OneByteSent()
    ensures var l := Fresh([1, 2], true);
      CanTake(l.sock, Polled(1)) && FromUip(l, Polled(1)) && UipCall(l, Polled(1), SILENT) == GROWN_1
  {
    hide UipCall;
    var l := Fresh([1, 2], true);
    Sending(l, Polled(1));
    assert l.sock.buf[..1] == [1];
    assert l.sock.calls + [Transmit(0, [1])] == [Transmit(0, [1])];
    assert l.wire + [Segment(0, [1], 1)] == [Segment(0, [1], 1)];
  }

  lemma TwoBytesOffered()
    ensures CanTake(GROWN_1.sock, GotData(2)) && FromUip(GROWN_1, GotData(2))
    ensures UipCall(GROWN_1, GotData(2), SILENT) == GROWN_2
  {
    hide UipCall;
    Sending(GROWN_1, GotData(2));
    assert GROWN_1.sock.buf[..2] == [1, 2];
    assert GROWN_1.sock.calls + [Transmit(0, [1, 2])] == GROWN_2.sock.calls;
    assert GROWN_1.sock.received + [[]] == [[]];
    assert GROWN_1.wire + [Segment(0, [1, 2], 1)] == GROWN_2.wire;
  }

  lemma BothDropped()
    ensures CanTake(GROWN_2.sock, GotAck(2)) && FromUip(GROWN_2, GotAck(2))
    ensures var r := UipCall(GROWN_2, GotAck(2), SILENT);
      && Close in r.sock.calls && r.sock.dropped == r.sock.accepted == [1, 2]
      && r.una == 1 && forall g | g in r.wire :: g.at == 0 && g.len == 1
  {
    hide UipCall;
    LastAck(GROWN_2);
    assert GROWN_2.sock.dropped + GROWN_2.sock.buf[..2] == [1, 2];
  }

  /** The window grows while a byte is outstanding: the acknowledgement of that byte drops two,
      and the socket closes although the second one was never sent. */
  lemma GrowingWindowLoses()
    ensures var l := Fresh([1, 2], true);
      var ops := [Call(Polled(1), SILENT), Call(GotData(2), SILENT), Call(GotAck(2), SILENT)];
      var r := LinkRun(l, ops);
      && Good(l.sock) && Synced(l) && AllFromUip(l, ops)
      && Close in r.sock.calls && r.sock.dropped == r.sock.accepted == [1, 2]
      && r.una == 1 && forall g | g in r.wire :: g.at == 0 && g.len == 1
  {
    hide UipCall;
    FreshIsSound([1, 2], true);
    OneByteSent();
    TwoBytesOffered();
    BothDropped();
    ThreeCalls(Fresh([1, 2], true), Polled(1), GotData(2), GotAck(2), GROWN_1, GROWN_2,
      UipCall(GROWN_2, GotAck(2), SILENT));
  }

  lemma LastAck(l: Link)
    requires InBounds(l.sock) && l.up && l.sock.conn == 1 && l.sock.closing && l.sock.len > 0
    requires l.sock.sendNxt == l.sock.sendLen == l.sock.len
    ensures CanTake(l.sock, GotAck(2))
    ensures var r := UipCall(l, GotAck(2), SILENT);
      && Close in r.sock.calls && r.sock.accepted == l.sock.accepted && r.wire == l.wire
      && r.sock.dropped == l.sock.dropped + l.sock.buf[..l.sock.len] && r.una == l.una + l.out
  {
    hide OnTraffic;
    Acknowledged(l, 2);
    var t := OnTraffic(l.sock, GotAck(2), SILENT);
    assert t.len == 0 && t.closing && t.sendLen == 0;
    var u := t.(closing := false, calls := t.calls + [Close, Mark(false)], conn := 0);
    assert u.calls[|t.calls|] == Close;
    assert OnClosing(t) == Relisten(u);
  }

  // ---------------------------------------------------------------- A window that shrinks

  const SHRUNK_1: Link := Link(
    Filled([1, 2, 3], 3, 2, false, [Transmit(0, [1, 2])], [], [], [1, 2, 3], []), true, 0, 2,
    [Segment(0, [1, 2], 2)])
  const SHRUNK_2: Link := Link(
    Filled([1, 2, 3], 3, 1, false, [Transmit(0, [1, 2]), Transmit(0, [1])], [], [[]], [1, 2, 3], []), true, 0, 2,
    [Segment(0, [1, 2], 2), Segment(0, [1], 2)])

  lemma TwoBytesSent()
    ensures var l := Fresh([1, 2, 3], false);
      CanTake(l.sock, Polled(2)) && FromUip(l, Polled(2)) && UipCall(l, Polled(2), SILENT) == SHRUNK_1
  {
    hide UipCall;
    var l := Fresh([1, 2, 3], false);
    Sending(l, Polled(2));
    assert l.sock.buf[..2] == [1, 2];
    assert l.sock.calls + [Transmit(0, [1, 2])] == [Transmit(0, [1, 2])];
    assert l.wire + [Segment(0, [1, 2], 2)] == [Segment(0, [1, 2], 2)];
  }

  lemma OneByteOffered()
    ensures CanTake(SHRUNK_1.sock, GotData(1)) && FromUip(SHRUNK_1, GotData(1))
    ensures UipCall(SHRUNK_1, GotData(1), SILENT) == SHRUNK_2
  {
    hide UipCall;
    Sending(SHRUNK_1, GotData(1));
    assert SHRUNK_1.sock.buf[..1] == [1];
    assert SHRUNK_1.sock.calls + [Transmit(0, [1])] == SHRUNK_2.sock.calls;
    assert SHRUNK_1.sock.received + [[]] == [[]];
    assert SHRUNK_1.wire + [Segment(0, [1], 2)] == SHRUNK_2.wire;
  }

  /** The window shrinks while two bytes are outstanding: uIP sends two bytes when the socket
      offers one, and after their acknowledgement the second one is sent again, as the third. */
  lemma ShrinkingWindowShifts()
    ensures var l := Fresh([1, 2, 3], false);
      var ops := [Call(Polled(2), SILENT), Call(GotData(1), SILENT), Call(GotAck(1), SILENT)];
      var r := LinkRun(l, ops);
      && Good(l.sock) && Synced(l) && AllFromUip(l, ops)
      && r.una == 2 && r.sock.dropped == [1]
      && r.wire == [Segment(0, [1, 2], 2), Segment(0, [1], 2), Segment(2, [2], 1)]
      && !Right(r.wire[1], r.sock.accepted) && !Right(r.wire[2], r.sock.accepted)
  {
    hide UipCall;
    FreshIsSound([1, 2, 3], false);
    TwoBytesSent();
    OneByteOffered();
    AckThenSend(SHRUNK_2);
    var l3 := UipCall(SHRUNK_2, GotAck(1), SILENT);
    ThreeCalls(Fresh([1, 2, 3], false), Polled(2), GotData(1), GotAck(1), SHRUNK_1, SHRUNK_2, l3);
    assert l3.wire == [Segment(0, [1, 2], 2), Segment(0, [1], 2)] + [Segment(2, [2], 1)];
    assert l3.sock.accepted[2..3][0] == 3 && [2][..1][0] == 2;
  }

  lemma AckThenSend(l: Link)
    requires InBounds(l.sock) && l.up && l.sock.conn == 1 && !l.sock.closing && l.sock.buf == [1, 2, 3]
    requires l.sock.sendNxt == 1 && l.sock.sendLen == l.sock.len == 3 && l.sock.maxSeg == 2 && l.sock.dropped == []
    ensures CanTake(l.sock, GotAck(1))
    ensures var r := UipCall(l, GotAck(1), SILENT);
      && r.una == l.una + l.out && r.sock.dropped == [1] && r.sock.accepted == l.sock.accepted
      && r.wire == l.wire + [Segment(r.una, [2], 1)]
  {
    hide OnTraffic, CopiedDown;
    Acknowledged(l, 1);
    var t := OnTraffic(l.sock, GotAck(1), SILENT);
    var b := CopiedDown([1, 2, 3], 1);
    assert b[..1] == [2] by {
      DownByOne();
    }
    assert [] + [1, 2, 3][..1] == [1];
    assert t.buf == b && t.sendNxt == 1;
  }

  lemma DownByOne()
    ensures CopiedDown([1, 2, 3], 1)[..1] == [2]
  {
    var b: seq<bv8> := [1, 2, 3];
    assert b[1..] + b[|b| - 1..] == [2, 3, 3];
  }
}
