/** demo/extif/slip.c: the interrupt half and the polling half of the SLIP driver, and
    the sender of emb6/src/net/slip/slip_net.c. */
module SlipDriver {
  import opened Buffers
  import opened SlipSpec

  class Driver {
    var mode: Mode
    var begin: nat
    var nextFree: nat
    var pktEnd: nat
    const rxbuf: array<bv8>

    ghost function Abs(): Slip
      reads this, rxbuf
    {
      Slip(mode, begin, nextFree, pktEnd, rxbuf[..])
    }

    constructor (size: nat)
      requires size > 0
      ensures fresh(rxbuf) && rxbuf.Length == size
      ensures Valid(Abs()) && mode == Ok && begin == nextFree == pktEnd == 0
    {
      mode, begin, nextFree, pktEnd := Ok, 0, 0, 0;
      rxbuf := new bv8[size](_ => 0);
    }

    method RxbufInit()
      modifies this
      ensures Abs() == Slip(Ok, 0, 0, 0, rxbuf[..])
    {
      begin, nextFree, pktEnd := 0, 0, 0;
      mode := Ok;
    }

    method InputByte(c: bv8) returns (posted: bool)
      requires Valid(Abs())
      modifies this, rxbuf
      ensures Valid(Abs()) && (Abs(), posted) == Input(old(Abs()), c)
    {
      posted := false;
      match mode {
        case Rubbish =>
          if c == END {
            mode := Ok;
          }
          return;
        case Escape =>
          if c != ESC_END && c != ESC_ESC {
            mode := Rubbish;
            nextFree := pktEnd;
            return;
          }
          mode := Ok;
        case _ =>
      }
      if c == ESC {
        mode := Escape;
      }
      var curEnd := nextFree;
      nextFree := nextFree + 1;
      if nextFree == rxbuf.Length {
        nextFree := 0;
      }
      if nextFree == begin {
        mode := Rubbish;
        nextFree := pktEnd;
        return;
      }
      posted := AddChar(c, curEnd);
    }

    /** The rest of slip_input_byte, from its comment "add_char" on, when the ring has room. */
    method AddChar(c: bv8, curEnd: nat) returns (posted: bool)
      requires Valid(Abs()) && curEnd < rxbuf.Length
      modifies this, rxbuf
      ensures (Abs(), posted) == Store(old(Abs()).(nextFree := curEnd), c, old(nextFree))
    {
      posted := false;
      rxbuf[curEnd] := c;
      assert rxbuf[..] == old(rxbuf[..])[curEnd := c];
      if c == CHAR_T && rxbuf[begin] == CHAR_C {
        posted := true;
        return;
      }
      if c == END {
        if curEnd != pktEnd {
          if begin == pktEnd {
            pktEnd := curEnd;
          }
          posted := true;
        } else {
          nextFree := curEnd;
        }
      }
    }

    /** The copy loop, which the source writes out three times.  It needs no more room in
        outbuf than it writes. */
    method CopyOut(from: nat, to: nat, outbuf: array<bv8>, limit: nat, len0: nat, esc0: bool)
      returns (len: nat, esc: bool)
      requires from <= to <= rxbuf.Length
      requires len0 <= limit + 1 && outbuf != rxbuf
      requires len0 <= outbuf.Length && Written(rxbuf[from..to], outbuf[..len0], esc0, limit) <= outbuf.Length
      modifies outbuf
      ensures len <= limit + 1 && len <= outbuf.Length
      ensures (outbuf[..len], esc) == Copied(rxbuf[from..to], old(outbuf[..len0]), esc0, limit)
    {
      len, esc := len0, esc0;
      var i := from;
      while i < to
        invariant from <= i <= to && len <= limit + 1 && len <= outbuf.Length
        invariant Written(rxbuf[i..to], outbuf[..len], esc, limit) <= outbuf.Length
        invariant Copied(rxbuf[i..to], outbuf[..len], esc, limit)
               == Copied(rxbuf[from..to], old(outbuf[..len0]), esc0, limit)
      {
        assert rxbuf[i..to][0] == rxbuf[i] && rxbuf[i..to][1..] == rxbuf[i + 1..to];
        if len > limit {
          len := 0;
          break;
        }
        ghost var before, escBefore := outbuf[..len], esc;
        var c := rxbuf[i];
        if esc {
          if c == ESC_ESC {
            outbuf[len] := ESC;
            len := len + 1;
          } else if c == ESC_END {
            outbuf[len] := END;
            len := len + 1;
          }
          esc := false;
        } else if c == ESC {
          esc := true;
        } else {
          outbuf[len] := c;
          len := len + 1;
        }
        assert len <= outbuf.Length;
        assert outbuf[..len] == if len == |before| then before else before + [outbuf[len - 1]];
        assert (outbuf[..len], esc) == Put(before, escBefore, c);
        i := i + 1;
      }
    }

    /** pkt_end moves past the packet just copied. */
    method PassPacket()
      requires Valid(Abs())
      modifies `pktEnd
      ensures Abs() == Passed(old(Abs()))
    {
      pktEnd := pktEnd + 1;
      if pktEnd == rxbuf.Length {
        pktEnd := 0;
      }
    }

    /** The search for another packet, up to where the ring was filled when it began. */
    method ScanPacket(curNextFree: nat) returns (again: bool)
      requires Valid(Abs()) && curNextFree < rxbuf.Length
      modifies `begin, `pktEnd
      ensures (Abs(), again) == Scanned(old(Abs()), curNextFree)
    {
      again := false;
      if pktEnd != curNextFree {
        var curPtr := pktEnd;
        while curPtr != curNextFree
          invariant 0 <= curPtr < rxbuf.Length
          invariant pktEnd == old(pktEnd) && begin == old(begin) && !again
          invariant FindEnd(rxbuf[..], curPtr, curNextFree) == FindEnd(rxbuf[..], pktEnd, curNextFree)
          decreases Distance(curPtr, curNextFree, rxbuf.Length)
        {
          if rxbuf[curPtr] == END {
            var tmpBegin := pktEnd;
            pktEnd := curPtr;
            begin := tmpBegin;
            again := true;
            break;
          }
          curPtr := curPtr + 1;
          if curPtr == rxbuf.Length {
            curPtr := 0;
          }
        }
        if curPtr == curNextFree {
          begin := pktEnd;
        }
      } else {
        begin := pktEnd;
      }
    }

    /** The part of slip_poll_handler that copies the packet out: one loop, or two when the
        packet goes round the end of the ring. */
    method CopyPacket(outbuf: array<bv8>, limit: nat) returns (len: nat)
      requires Valid(Abs()) && outbuf != rxbuf && PollWrites(Abs(), limit) <= outbuf.Length
      modifies outbuf
      ensures len <= limit + 1 && len <= outbuf.Length
      ensures outbuf[..len] == Delivered(Abs(), limit)
    {
      hide Copied, Written;
      var esc;
      assert outbuf[..0] == [];
      if begin < pktEnd {
        assert rxbuf[..][begin..pktEnd] == rxbuf[begin..pktEnd];
        len, esc := CopyOut(begin, pktEnd, outbuf, limit, 0, false);
      } else {
        assert rxbuf[..][begin..] == rxbuf[begin..rxbuf.Length];
        assert rxbuf[..][..pktEnd] == rxbuf[0..pktEnd];
        len, esc := CopyOut(begin, rxbuf.Length, outbuf, limit, 0, false);
        len, esc := CopyOut(0, pktEnd, outbuf, limit, len, esc);
      }
    }

    /** The text "CLIENT", not round the end of the ring. */
    method IsGreeting() returns (greeted: bool)
      requires Valid(Abs())
      ensures greeted == Greeted(Abs())
    {
      greeted := false;
      if rxbuf[begin] == CHAR_C {
        if begin < nextFree && nextFree - begin >= 6 && rxbuf[begin..begin + 6] == CLIENT {
          greeted := true;
        }
        assert rxbuf[..][begin] == rxbuf[begin];
      } else if begin < nextFree && nextFree - begin >= 6 {
        assert rxbuf[..][begin..begin + 6][0] == rxbuf[begin] != CLIENT[0];
      }
      assert begin < nextFree && nextFree - begin >= 6 ==> rxbuf[..][begin..begin + 6] == rxbuf[begin..begin + 6];
    }

    method PollHandler(outbuf: array<bv8>, limit: nat) returns (len: nat, again: bool)
      requires Valid(Abs()) && outbuf != rxbuf
      requires begin == pktEnd || Greeted(Abs()) || PollWrites(Abs(), limit) <= outbuf.Length
      modifies this, rxbuf, outbuf
      ensures Valid(Abs()) && len <= limit + 1 && len <= outbuf.Length
      ensures (Abs(), outbuf[..len], again) == Poll(old(Abs()), limit)
    {
      var greeted := IsGreeting();
      if greeted {
        mode := TwoPackets;
        ClearGreeting();
        RxbufInit();
        return 0, false;
      }
      if begin == pktEnd {
        return 0, false;
      }
      len := CopyPacket(outbuf, limit);
      PassPacket();
      again := ScanPacket(nextFree);
    }

    method ClearGreeting()
      requires Valid(Abs()) && Greeted(Abs())
      modifies rxbuf
      ensures rxbuf[..] == Reset(old(Abs())).cells
    {
      var i := 0;
      while i < 6
        invariant 0 <= i <= 6
        invariant forall k | 0 <= k < rxbuf.Length ::
            rxbuf[k] == if begin <= k < begin + i then 0 else old(rxbuf[k])
      {
        rxbuf[begin + i] := 0;
        i := i + 1;
      }
    }
  }

  lemma {:induction false} EncodedSnoc(payload: seq<bv8>, c: bv8)
    ensures Encoded(payload + [c]) == Encoded(payload) + Escaped(c)
  {
    if payload == [] {
      assert Encoded([c]) == Escaped(c) + Encoded([]);
    } else {
      assert (payload + [c])[1..] == payload[1..] + [c];
      EncodedSnoc(payload[1..], c);
    }
  }

  /** slip_send_packet: what it puts on the wire.  Its 16-bit counter reaches len only if
      len fits 16 bits, and a negative len sends an empty frame. */
  method SendPacket(ptr: array<bv8>, len: int) returns (wire: seq<bv8>)
    requires len <= ptr.Length && len < 0x1_0000
    ensures wire == Wire(Frame(true, if len < 0 then [] else ptr[..len]))
  {
    wire := [END];
    var i := 0;
    while i < len
      invariant 0 <= i && (i <= len || i == 0)
      invariant wire == [END] + Encoded(ptr[..i])
    {
      var c := ptr[i];
      assert ptr[..i + 1] == ptr[..i] + [c];
      EncodedSnoc(ptr[..i], c);
      ghost var before := wire;
      if c == END {
        wire := wire + [ESC];
        c := ESC_END;
      } else if c == ESC {
        wire := wire + [ESC];
        c := ESC_ESC;
      }
      wire := wire + [c];
      assert wire == before + Escaped(ptr[i]);
      i := i + 1;
    }
    wire := wire + [END];
  }
}
