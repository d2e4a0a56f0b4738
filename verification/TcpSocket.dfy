/** emb6/src/sock/tcp-socket.c itself: the output buffer is filled, copied down and sent from
    in place. */
module TcpSocket {
  import opened Common
  import opened TcpSpec

  datatype History = History(calls: seq<Call>, events: seq<Event>, received: seq<seq<bv8>>,
    accepted: seq<bv8>, dropped: seq<bv8>)

  class Socket {
    var inputPtr: array<bv8>
    var inputMaxlen: nat
    var outputPtr: array<bv8>
    var outputMaxlen: nat
    var outputLen: nat
    var sendNxt: nat
    var sendLen: nat
    var maxSeg: nat
    var listening: bool
    var closing: bool
    var listenPort: nat
    var conn: nat
    ghost var past: History

    /** The declared lengths are those of the buffers, and the two buffers are different. */
    ghost predicate Buffers()
      reads this
    {
      outputPtr.Length == outputMaxlen && inputPtr.Length == inputMaxlen && inputPtr != outputPtr
    }

    ghost function Abs(): Sock
      reads this, outputPtr
    {
      Sock(outputPtr[..], outputLen, sendNxt, sendLen, maxSeg, inputMaxlen, listening, closing, listenPort, conn,
           past.calls, past.events, past.received, past.accepted, past.dropped)
    }

    ghost predicate Valid()
      reads this, outputPtr
    {
      Buffers() && InBounds(Abs())
    }

    /** tcp_socket_register. */
    method Register(input: array<bv8>, output: array<bv8>)
      requires input != output
      modifies this
      ensures Buffers() && inputPtr == input && outputPtr == output
      ensures Abs() == DoRegister(old(Abs()), output[..], input.Length)
    {
      SetBuffers(input, output);
      listenPort := 0;
      listening, closing := false, false;
      past := past.(accepted := [], dropped := [], calls := []);
    }

    method SetBuffers(input: array<bv8>, output: array<bv8>)
      requires input != output
      modifies `inputPtr, `inputMaxlen, `outputLen, `outputPtr, `outputMaxlen
      ensures Buffers() && inputPtr == input && outputPtr == output
      ensures Abs() == old(Abs()).(buf := output[..], len := 0, inputMaxlen := input.Length)
    {
      inputPtr := input;
      inputMaxlen := input.Length;
      outputLen := 0;
      outputPtr := output;
      outputMaxlen := output.Length;
    }

    method Copy(dst: array<bv8>, at: nat, data: seq<bv8>)
      requires at + |data| <= dst.Length
      modifies dst
      ensures dst[..] == old(dst[..at]) + data + old(dst[at + |data|..])
    {
      for i := 0 to |data|
        invariant forall k | 0 <= k < dst.Length :: dst[k] == if at <= k < at + i then data[k - at] else old(dst[k])
      {
        dst[at + i] := data[i];
      }
    }

    /** tcp_socket_send. */
    method Send(data: seq<bv8>) returns (len: nat)
      requires Valid()
      modifies this, outputPtr
      ensures Valid() && inputPtr == old(inputPtr) && outputPtr == old(outputPtr)
      ensures (Abs(), len) == DoSend(old(Abs()), data)
    {
      len := Min(|data|, outputMaxlen - outputLen);
      Copy(outputPtr, outputLen, data[..len]);
      outputLen := outputLen + len;
      past := past.(accepted := past.accepted + data[..len]);
      if sendLen == 0 {
        sendLen := outputLen;
      }
    }

    /** senddata. */
    method SendData(mss: nat)
      requires Valid()
      modifies this
      ensures Valid() && inputPtr == old(inputPtr) && outputPtr == old(outputPtr)
      ensures Abs() == DoSendData(old(Abs()), mss)
    {
      var len := Min(maxSeg, mss);
      if sendLen > 0 {
        len := Min(sendLen, len);
        sendNxt := len;
        past := past.(calls := past.calls + [Transmit(|past.dropped|, outputPtr[..len])]);
        assert outputPtr[..len] == outputPtr[..][..len];
      }
    }

    method Relisten()
      requires Valid()
      modifies this
      ensures Valid() && inputPtr == old(inputPtr) && outputPtr == old(outputPtr)
      ensures Abs() == TcpSpec.Relisten(old(Abs()))
    {
      if listenPort != 0 {
        listening := true;
      }
    }

    /** call_event. */
    method CallEvent(e: Event, app: Application)
      requires Valid()
      modifies this, outputPtr
      ensures Valid() && inputPtr == old(inputPtr) && outputPtr == old(outputPtr)
      ensures Abs() == TcpSpec.CallEvent(old(Abs()), e, app)
    {
      past := past.(events := past.events + [e]);
      var n := Send(app(e));
    }

    /** The memcpy of acked: its source and target overlap. */
    method CopyDown(n: nat)
      requires Valid() && n <= outputMaxlen
      modifies outputPtr
      ensures outputPtr[..] == CopiedDown(old(outputPtr[..]), n)
    {
      for i := 0 to outputMaxlen - n
        invariant forall k | 0 <= k < outputMaxlen ::
            outputPtr[k] == if k < i then old(outputPtr[k + n]) else old(outputPtr[k])
      {
        outputPtr[i] := outputPtr[i + n];
      }
    }

    /** acked. */
    method Acked(app: Application)
      requires Valid()
      modifies this, outputPtr
      ensures Valid() && inputPtr == old(inputPtr) && outputPtr == old(outputPtr)
      ensures Abs() == DoAcked(old(Abs()), app)
    {
      hide TcpSpec.CallEvent, TcpSpec.Relisten, CopiedDown;
      if sendLen > 0 {
        ghost var sent := outputPtr[..][..sendNxt];
        if sendNxt > 0 {
          CopyDown(sendNxt);
        } else {
          NothingCopied(outputPtr[..]);
        }
        if outputLen < sendNxt {
          AbortConnection(app);
          return;
        }
        DropSent(sent);
        CallEvent(DataSent, app);
      }
    }

    lemma NothingCopied(buf: seq<bv8>)
      ensures CopiedDown(buf, 0) == buf
    {}

    method AbortConnection(app: Application)
      requires Valid()
      modifies this, outputPtr
      ensures Valid() && inputPtr == old(inputPtr) && outputPtr == old(outputPtr)
      ensures Abs() == TcpSpec.Relisten(TcpSpec.CallEvent(
        old(Abs()).(calls := old(Abs()).calls + [Mark(false), Abort]), Aborted, app))
    {
      hide TcpSpec.CallEvent, TcpSpec.Relisten;
      past := past.(calls := past.calls + [Mark(false), Abort]);
      CallEvent(Aborted, app);
      Relisten();
    }

    method DropSent(ghost sent: seq<bv8>)
      requires Valid() && sendNxt <= outputLen
      modifies `past, `outputLen, `sendLen, `sendNxt
      ensures Valid()
      ensures Abs() == old(Abs()).(len := old(outputLen - sendNxt), sendLen := old(outputLen - sendNxt),
        sendNxt := 0, dropped := old(Abs()).dropped + sent)
    {
      past := past.(dropped := past.dropped + sent);
      outputLen := outputLen - sendNxt;
      sendLen := outputLen;
      sendNxt := 0;
    }

    /** The loop of newdata. */
    method HandOver(data: seq<bv8>)
      requires Valid() && (inputMaxlen > 0 || data == [])
      modifies `past, inputPtr
      ensures past == old(past).(received := old(past).received + Chunks(data, inputMaxlen))
    {
      hide Chunks;
      var at := 0;
      ghost var before := past;
      assert data[0..] == data;
      while true
        invariant 0 <= at <= |data|
        invariant past == before.(received := past.received)
        invariant past.received + Chunks(data[at..], inputMaxlen) == before.received + Chunks(data, inputMaxlen)
        decreases |data| - at
      {
        var copylen := Min(|data| - at, inputMaxlen);
        Copy(inputPtr, 0, data[at..at + copylen]);
        FirstChunk(data[at..], inputMaxlen);
        assert data[at..][..copylen] == data[at..at + copylen] && data[at..][copylen..] == data[at + copylen..];
        past := past.(received := past.received + [data[at..at + copylen]]);
        at := at + copylen;
        if at == |data| {
          break;
        }
      }
    }

    /** newdata. */
    method NewData(data: seq<bv8>)
      requires Valid() && (inputMaxlen > 0 || data == [])
      modifies `past, inputPtr
      ensures Valid() && Abs() == DoNewData(old(Abs()), data)
    {
      hide Chunks;
      HandOver(data);
    }

    lemma FirstChunk(data: seq<bv8>, maxlen: nat)
      requires maxlen > 0 || data == []
      ensures var n := Min(|data|, maxlen);
        Chunks(data, maxlen) == [data[..n]] + if n == |data| then [] else Chunks(data[n..], maxlen)
    {}

    method ConnectedCall(u: Uip, app: Application)
      requires Valid() && CanTake(Abs(), u)
      modifies this, outputPtr, inputPtr
      ensures Valid() && inputPtr == old(inputPtr) && outputPtr == old(outputPtr)
      ensures Abs() == OnConnected(old(Abs()), u, app)
    {
      hide TcpSpec.CallEvent, DoSendData, DoNewData;
      maxSeg := u.mss;
      CallEvent(Connected, app);
      if u.newdata {
        NewData(u.data);
      }
      SendData(u.mss);
    }

    method TimedOutCall(u: Uip, app: Application)
      requires Valid()
      modifies this, outputPtr
      ensures Valid() && inputPtr == old(inputPtr) && outputPtr == old(outputPtr)
      ensures Abs() == OnTimedOut(old(Abs()), u, app)
    {
      hide TcpSpec.CallEvent, TcpSpec.Relisten;
      if u.timedout {
        CallEvent(TimedOut, app);
        Relisten();
      }
    }

    method AbortedCall(u: Uip, app: Application)
      requires Valid()
      modifies this, outputPtr
      ensures Valid() && inputPtr == old(inputPtr) && outputPtr == old(outputPtr)
      ensures Abs() == OnAborted(old(Abs()), u, app)
    {
      hide TcpSpec.CallEvent, TcpSpec.Relisten;
      if u.aborted {
        past := past.(calls := past.calls + [Mark(false)]);
        CallEvent(Aborted, app);
        Relisten();
      }
    }

    method TrafficCall(u: Uip, app: Application)
      requires Valid() && CanTake(Abs(), u)
      modifies this, outputPtr, inputPtr
      ensures Valid() && inputPtr == old(inputPtr) && outputPtr == old(outputPtr)
      ensures Abs() == OnTraffic(old(Abs()), u, app)
    {
      hide DoAcked, DoSendData, DoNewData;
      if u.acked {
        Acked(app);
      }
      if u.newdata {
        NewData(u.data);
      }
      if u.rexmit || u.newdata || u.acked {
        SendData(u.mss);
      } else if u.poll {
        SendData(u.mss);
      }
    }

    method CloseWhenDone()
      requires Valid()
      modifies this
      ensures Valid() && inputPtr == old(inputPtr) && outputPtr == old(outputPtr)
      ensures Abs() == OnClosing(old(Abs()))
    {
      hide TcpSpec.Relisten;
      if outputLen == 0 && closing {
        closing := false;
        conn := 0;
        past := past.(calls := past.calls + [Close, Mark(false)]);
        Relisten();
      }
    }

    method ClosedCall(u: Uip, app: Application)
      requires Valid()
      modifies this, outputPtr
      ensures Valid() && inputPtr == old(inputPtr) && outputPtr == old(outputPtr)
      ensures Abs() == OnClosed(old(Abs()), u, app)
    {
      hide TcpSpec.CallEvent, TcpSpec.Relisten;
      if u.closed {
        past := past.(calls := past.calls + [Mark(false)]);
        conn := 0;
        CallEvent(Closed, app);
        Relisten();
      }
    }

    /** appcall, one branch after the other. */
    method AppCall(u: Uip, app: Application)
      requires Valid() && CanTake(Abs(), u)
      modifies this, outputPtr, inputPtr
      ensures Valid() && inputPtr == old(inputPtr) && outputPtr == old(outputPtr)
      ensures Abs() == DoAppCall(old(Abs()), u, app)
    {
      hide OnConnected, OnTimedOut, OnAborted, OnTraffic, OnClosing, OnClosed;
      if conn != 0 && conn != u.conn {
        return;
      }
      if u.connected {
        ConnectedCall(u, app);
        return;
      }
      TimedOutCall(u, app);
      AbortedCall(u, app);
      TrafficCall(u, app);
      CloseWhenDone();
      ClosedCall(u, app);
    }

    /** tcp_socket_close. */
    method AskToClose()
      requires Valid()
      modifies `closing
      ensures Abs() == old(Abs()).(closing := true)
    {
      closing := true;
    }
  }
}
