/** What emb6/src/sock/tcp-socket.c does with a connected socket, as functions on values.

    calls, events, received, accepted and dropped are history: what was asked of uIP, the
    events and input handed to the application, all bytes that tcp_socket_send has taken, and
    the bytes dropped from the front of the output buffer when uIP reported acknowledgements. */
module TcpSpec {
  import opened Common

  datatype Event = Connected | Closed | TimedOut | Aborted | DataSent

  /** Transmit is uip_send, with the place of the segment by the socket's own count, the bytes
      dropped so far.  Mark is tcp_markconn. */
  datatype Call = Transmit(at: nat, segment: seq<bv8>) | Abort | Close | Mark(attached: bool)

  /** buf is the whole output buffer; the other numbers are output_data_len,
      output_data_send_nxt, output_senddata_len and output_data_max_seg.  conn is 0 for none. */
  datatype Sock = Sock(
    buf: seq<bv8>, len: nat, sendNxt: nat, sendLen: nat, maxSeg: nat, inputMaxlen: nat,
    listening: bool, closing: bool, listenPort: nat, conn: nat,
    calls: seq<Call>, events: seq<Event>, received: seq<seq<bv8>>,
    accepted: seq<bv8>, dropped: seq<bv8>)

  /** What the application does when it is called: the bytes it sends on an event. */
  type Application = Event -> seq<bv8>

  /** The memory accesses stay inside the output buffer. */
  predicate InBounds(s: Sock) {
    s.len <= |s.buf| && s.sendNxt <= |s.buf| && s.sendLen <= |s.buf|
  }

  /** What every run keeps: the three lengths are in order, there is something to send exactly
      when the buffer is not empty, and the dropped bytes followed by the buffer are all the
      bytes accepted. */
  ghost predicate Inv(s: Sock) {
    && s.sendNxt <= s.sendLen <= s.len <= |s.buf|
    && (s.sendLen == 0 <==> s.len == 0)
    && s.dropped + s.buf[..s.len] == s.accepted
  }

  /** Every segment ever offered to uIP is what was accepted at its place. */
  ghost predicate Faithful(s: Sock) {
    forall i | 0 <= i < |s.calls| && s.calls[i].Transmit? ::
      s.calls[i].segment == Slice(s.accepted, s.calls[i].at, |s.calls[i].segment|)
  }

  function Slice(x: seq<bv8>, at: nat, n: nat): seq<bv8> {
    if at + n <= |x| then x[at..at + n] else []
  }

  // ---------------------------------------------------------------- The output buffer

  /** tcp_socket_send: the new state, and how much of the data was taken. */
  function DoSend(s: Sock, data: seq<bv8>): (r: (Sock, nat))
    requires InBounds(s)
    ensures InBounds(r.0)
  {
    var n := Min(|data|, |s.buf| - s.len);
    var t := s.(buf := s.buf[..s.len] + data[..n] + s.buf[s.len + n..], len := s.len + n,
                accepted := s.accepted + data[..n]);
    (if s.sendLen == 0 then t.(sendLen := t.len) else t, n)
  }

  /** senddata. */
  function DoSendData(s: Sock, mss: nat): (r: Sock)
    requires InBounds(s)
    ensures InBounds(r)
  {
    if s.sendLen > 0 then
      var n := Min(s.sendLen, Min(s.maxSeg, mss));
      s.(sendNxt := n, calls := s.calls + [Transmit(|s.dropped|, s.buf[..n])])
    else s
  }

  function Relisten(s: Sock): Sock {
    if s.listenPort != 0 then s.(listening := true) else s
  }

  /** call_event. */
  function CallEvent(s: Sock, e: Event, app: Application): (r: Sock)
    requires InBounds(s)
    ensures InBounds(r) && r.inputMaxlen == s.inputMaxlen
  {
    DoSend(s.(events := s.events + [e]), app(e)).0
  }

  /** The buffer after the copy down by n bytes; its last n bytes stay as they were. */
  function CopiedDown(buf: seq<bv8>, n: nat): (r: seq<bv8>)
    requires n <= |buf|
    ensures |r| == |buf|
  {
    buf[n..] + buf[|buf| - n..]
  }

  /** acked. */
  function DoAcked(s: Sock, app: Application): (r: Sock)
    requires InBounds(s)
    ensures InBounds(r) && r.inputMaxlen == s.inputMaxlen
  {
    if s.sendLen == 0 then s
    else
      var t := s.(buf := CopiedDown(s.buf, s.sendNxt));
      if s.len < s.sendNxt then
        Relisten(CallEvent(t.(calls := t.calls + [Mark(false), Abort]), Aborted, app))
      else
        CallEvent(t.(len := s.len - s.sendNxt, sendLen := s.len - s.sendNxt, sendNxt := 0,
                     dropped := s.dropped + s.buf[..s.sendNxt]), DataSent, app)
  }

  // ---------------------------------------------------------------- Input

  /** The pieces that newdata hands to the application. */
  function Chunks(data: seq<bv8>, maxlen: nat): (r: seq<seq<bv8>>)
    requires maxlen > 0 || data == []
    ensures r != []
    decreases |data|
  {
    var n := Min(|data|, maxlen);
    [data[..n]] + if n == |data| then [] else Chunks(data[n..], maxlen)
  }

  function Flatten(pieces: seq<seq<bv8>>): seq<bv8> {
    if pieces == [] then [] else pieces[0] + Flatten(pieces[1..])
  }

  lemma {:induction false} ChunksAreTheSegment(data: seq<bv8>, maxlen: nat)
    requires maxlen > 0 || data == []
    ensures Flatten(Chunks(data, maxlen)) == data
    ensures forall i | 0 <= i < |Chunks(data, maxlen)| ::
        |Chunks(data, maxlen)[i]| <= maxlen
        && (i < |Chunks(data, maxlen)| - 1 ==> |Chunks(data, maxlen)[i]| == maxlen)
    decreases |data|
  {
    var n := Min(|data|, maxlen);
    if n < |data| {
      ChunksAreTheSegment(data[n..], maxlen);
      var c := Chunks(data, maxlen);
      assert c[1..] == Chunks(data[n..], maxlen);
      assert forall i | 1 <= i < |c| :: c[i] == c[1..][i - 1];
      assert data == data[..n] + data[n..];
    } else {
      assert data[..n] == data;
      assert Chunks(data, maxlen) == [data];
      assert [data][1..] == [];
    }
  }

  /** What is left of a segment after k rounds of the loop. */
  function LeftAfter(len: nat, maxlen: nat, k: nat): nat {
    if k == 0 then len else LeftAfter(len, maxlen, k - 1) - Min(LeftAfter(len, maxlen, k - 1), maxlen)
  }

  /** newdata ends exactly when the input buffer has room or there is nothing to copy. */
  lemma NewDataEnds(len: nat, maxlen: nat)
    ensures (exists k: nat :: k > 0 && LeftAfter(len, maxlen, k) == 0) <==> maxlen > 0 || len == 0
  {
    if maxlen > 0 {
      LeftShrinks(len, maxlen, len + 1);
    } else {
      forall k: nat ensures LeftAfter(len, maxlen, k) == len {
        LeftStays(len, k);
      }
      if len == 0 {
        assert LeftAfter(len, maxlen, 1) == 0;
      }
    }
  }

  lemma {:induction false} LeftShrinks(len: nat, maxlen: nat, k: nat)
    requires maxlen > 0
    ensures LeftAfter(len, maxlen, k) <= if k <= len then len - k else 0
  {
    if k > 0 {
      LeftShrinks(len, maxlen, k - 1);
    }
  }

  lemma {:induction false} LeftStays(len: nat, k: nat)
    ensures LeftAfter(len, 0, k) == len
  {
    if k > 0 {
      LeftStays(len, k - 1);
    }
  }

  function DoNewData(s: Sock, data: seq<bv8>): Sock
    requires s.inputMaxlen > 0 || data == []
  {
    s.(received := s.received + Chunks(data, s.inputMaxlen))
  }

  // ---------------------------------------------------------------- A call from uIP

  /** The flags that uIP sets for one call, its connection, its maximum segment size and the
      data of the segment that came in. */
  datatype Uip = Uip(conn: nat, connected: bool, timedout: bool, aborted: bool, acked: bool,
    newdata: bool, rexmit: bool, poll: bool, closed: bool, mss: nat, data: seq<bv8>)

  predicate CanTake(s: Sock, u: Uip) {
    u.newdata ==> s.inputMaxlen > 0 || u.data == []
  }

  function OnConnected(s: Sock, u: Uip, app: Application): (r: Sock)
    requires InBounds(s) && CanTake(s, u)
    ensures InBounds(r)
  {
    var a := CallEvent(s.(maxSeg := u.mss), Connected, app);
    DoSendData(if u.newdata then DoNewData(a, u.data) else a, u.mss)
  }

  function OnTimedOut(s: Sock, u: Uip, app: Application): (r: Sock)
    requires InBounds(s)
    ensures InBounds(r) && r.inputMaxlen == s.inputMaxlen
  {
    if u.timedout then Relisten(CallEvent(s, TimedOut, app)) else s
  }

  function OnAborted(s: Sock, u: Uip, app: Application): (r: Sock)
    requires InBounds(s)
    ensures InBounds(r) && r.inputMaxlen == s.inputMaxlen
  {
    if u.aborted then Relisten(CallEvent(s.(calls := s.calls + [Mark(false)]), Aborted, app)) else s
  }

  function OnTraffic(s: Sock, u: Uip, app: Application): (r: Sock)
    requires InBounds(s) && CanTake(s, u)
    ensures InBounds(r)
  {
    var a := if u.acked then DoAcked(s, app) else s;
    var b := if u.newdata then DoNewData(a, u.data) else a;
    if u.rexmit || u.newdata || u.acked || u.poll then DoSendData(b, u.mss) else b
  }

  function OnClosing(s: Sock): (r: Sock)
    requires InBounds(s)
    ensures InBounds(r)
  {
    if s.len == 0 && s.closing then
      Relisten(s.(closing := false, calls := s.calls + [Close, Mark(false)], conn := 0))
    else s
  }

  function OnClosed(s: Sock, u: Uip, app: Application): (r: Sock)
    requires InBounds(s)
    ensures InBounds(r)
  {
    if u.closed then
      Relisten(CallEvent(s.(calls := s.calls + [Mark(false)], conn := 0), Closed, app))
    else s
  }

  /** appcall, for a connection that belongs to this socket. */
  function DoAppCall(s: Sock, u: Uip, app: Application): (r: Sock)
    requires InBounds(s) && CanTake(s, u)
    ensures InBounds(r)
  {
    if s.conn != 0 && s.conn != u.conn then s
    else if u.connected then OnConnected(s, u, app)
    else OnClosed(OnClosing(OnTraffic(OnAborted(OnTimedOut(s, u, app), u, app), u, app)), u, app)
  }

  /** tcp_socket_register.  It leaves output_senddata_len and output_data_send_nxt as they
      were.  A new stream begins. */
  function DoRegister(s: Sock, buf: seq<bv8>, inputMaxlen: nat): Sock {
    s.(buf := buf, len := 0, inputMaxlen := inputMaxlen, listenPort := 0, listening := false, closing := false,
       accepted := [], dropped := [], calls := [])
  }
}
