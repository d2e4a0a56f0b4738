/** The IEEE 802.15.4g PHY framer with software checksums: emb6/src/phy/phy_802154.c and
    emb6/src/phy/phy_framer_802154.c, built with NETSTK_CFG_IEEE_802154G_EN and
    NETSTK_SUPPORT_SW_MAC_AUTOACK.  fcsLen is the frame check sequence length, which the
    packet attribute and the MAC/PHY configuration agree on. */
module Phy {
  import opened Gf2
  import opened WordBits
  import opened Crc

  const PHY_HEADER_LEN: nat := 2
  const PHY_PSDU_MAX: nat := 2047

  datatype PhyError = InvalidArgument | BadFormat | BadCrc
  datatype Option<+T> = None | Some(value: T)
  datatype Result = Delivered(payload: seq<bv8>) | Rejected(error: PhyError)

  function High16(c: bv16): bv8 { (c >> 8) as bv8 }
  function Low16(c: bv16): bv8 { (c & 0xff) as bv8 }

  function Bytes16(c: bv16): (s: seq<bv8>)
    ensures |s| == 2
  {
    [High16(c), Low16(c)]
  }

  function Bytes32(c: bv32): (s: seq<bv8>)
    ensures |s| == 4
  {
    [TopByte(c), TopByte(c << 8), TopByte(c << 16), TopByte(c << 24)]
  }

  function Join16(high: bv8, low: bv8): bv16 {
    ((high as bv16) << 8) | (low as bv16)
  }

  function Join32(b: seq<bv8>): bv32
    requires |b| == 4
  {
    ((b[0] as bv32) << 24) | ((b[1] as bv32) << 16) | ((b[2] as bv32) << 8) | (b[3] as bv32)
  }

  function Fcs(data: seq<bv8>, fcsLen: nat): (s: seq<bv8>)
    requires fcsLen == 2 || fcsLen == 4
    ensures |s| == fcsLen
  {
    if fcsLen == 4 then Bytes32(Fcs32(data)) else Bytes16(Crc16(CRC16_INIT, data))
  }

  function Header(psduLen: nat, fcsLen: nat): bv16
    requires psduLen < 0x1_0000
  {
    if fcsLen == 2 then (psduLen as bv16) | 0x1000 else psduLen as bv16
  }

  /** What goes on the air for a payload. */
  function Frame(payload: seq<bv8>, fcsLen: nat): seq<bv8>
    requires fcsLen == 2 || fcsLen == 4
    requires |payload| + fcsLen < 0x1_0000
  {
    Bytes16(Header(|payload| + fcsLen, fcsLen)) + payload + Fcs(payload, fcsLen)
  }

  function Phr(frame: seq<bv8>): bv16
    requires |frame| >= PHY_HEADER_LEN
  {
    Join16(frame[0], frame[1])
  }

  predicate HasCrc16(phr: bv16) { phr & 0x1000 != 0 }

  predicate ReservedClear(phr: bv16) { phr & 0xE800 == 0 }

  function PsduMin(phr: bv16): nat { if HasCrc16(phr) then 2 else 4 }

  function PsduLen(phr: bv16): nat { (phr & 0x07ff) as int }

  /** The receiver's checksum comparison. */
  predicate FcsMatches(data: seq<bv8>, fcs: seq<bv8>)
    requires |fcs| == 2 || |fcs| == 4
  {
    if |fcs| == 2 then Crc16(CRC16_INIT, data) == Join16(fcs[0], fcs[1])
    else Fcs32(data) == Join32(fcs)
  }

  /** The checks of phy_recv, given the two header fields. */
  function Judge(frame: seq<bv8>, psdu: nat, fcsLen: nat): Result
    requires |frame| >= PHY_HEADER_LEN && (fcsLen == 2 || fcsLen == 4)
  {
    if |frame| != PHY_HEADER_LEN + psdu || psdu < fcsLen || psdu > PHY_PSDU_MAX then Rejected(BadFormat)
    else
      var end := |frame| - fcsLen;
      if FcsMatches(frame[2..end], frame[end..]) then Delivered(frame[2..end]) else Rejected(BadCrc)
  }

  /** phy_recv as a function of the received bytes. */
  function Receive(frame: seq<bv8>): Result {
    if |frame| < PHY_HEADER_LEN then Rejected(InvalidArgument)
    else Judge(frame, PsduLen(Phr(frame)), PsduMin(Phr(frame)))
  }

  /** phy_framer802154_getPktLen: the PSDU length read from a header alone, 0 if unusable. */
  function PktLen(data: seq<bv8>): nat {
    if |data| < PHY_HEADER_LEN then 0
    else
      var psdu := if !ReservedClear(Phr(data)) then 0 else PsduLen(Phr(data));
      if psdu < PsduMin(Phr(data)) || psdu > PHY_PSDU_MAX then 0 else psdu
  }

  // ---------------------------------------------------------------- The code

  /** phy_insertCrc: the check sequence goes right behind the payload. */
  method InsertCrc(buf: array<bv8>, at: nat, len: nat, fcsLen: nat)
    requires fcsLen == 2 || fcsLen == 4
    requires at + len + fcsLen <= buf.Length && len < 0x1_0000
    modifies buf
    ensures buf[at + len..at + len + fcsLen] == Fcs(old(buf[at..at + len]), fcsLen)
    ensures buf[..at + len] == old(buf[..at + len])
    ensures buf[at + len + fcsLen..] == old(buf[at + len + fcsLen..])
  {
    var crcAt := at + len;
    if fcsLen == 4 {
      var crc := Crc32Calc(buf[at..at + len]);
      Shifted(crc);
      buf[crcAt] := ((crc & 0xff00_0000) >> 24) as bv8;
      buf[crcAt + 1] := ((crc & 0x00ff_0000) >> 16) as bv8;
      buf[crcAt + 2] := ((crc & 0x0000_ff00) >> 8) as bv8;
      buf[crcAt + 3] := (crc & 0x0000_00ff) as bv8;
      assert buf[crcAt..crcAt + 4] == Bytes32(crc);
    } else {
      var crc := Crc16Calc(buf[at..at + len]);
      Masked(crc);
      buf[crcAt] := ((crc & 0xff00) >> 8) as bv8;
      buf[crcAt + 1] := (crc & 0x00ff) as bv8;
      assert buf[crcAt..crcAt + 2] == Bytes16(crc);
    }
  }

  lemma Masked(c: bv16)
    ensures ((c & 0xff00) >> 8) as bv8 == High16(c) && (c & 0x00ff) as bv8 == Low16(c)
  {}

  lemma Shifted(c: bv32)
    ensures ((c & 0xff00_0000) >> 24) as bv8 == TopByte(c)
    ensures ((c & 0x00ff_0000) >> 16) as bv8 == TopByte(c << 8)
    ensures ((c & 0x0000_ff00) >> 8) as bv8 == TopByte(c << 16)
    ensures (c & 0x0000_00ff) as bv8 == TopByte(c << 24)
  {}

  /** phy_insertHdr: the two header bytes go right in front of the payload. */
  method InsertHdr(buf: array<bv8>, at: nat, len: nat, fcsLen: nat) returns (hdrAt: nat)
    requires PHY_HEADER_LEN <= at <= buf.Length && len < 0x1_0000
    modifies buf
    ensures hdrAt == at - PHY_HEADER_LEN
    ensures buf[hdrAt..at] == Bytes16(Header(len, fcsLen))
    ensures buf[..hdrAt] == old(buf[..hdrAt]) && buf[at..] == old(buf[at..])
  {
    hdrAt := at - PHY_HEADER_LEN;
    var hdr := len as bv16;
    if fcsLen == 2 {
      hdr := hdr | 0x1000;
    }
    Masked(hdr);
    buf[hdrAt] := ((hdr & 0xff00) >> 8) as bv8;
    buf[hdrAt + 1] := (hdr & 0x00ff) as bv8;
  }

  /** phy_send: the payload lies at buf[at .. at + len], with room for header and checksum. */
  method Send(buf: array<bv8>, at: nat, len: nat, fcsLen: nat) returns (sent: Option<seq<bv8>>)
    requires fcsLen == 2 || fcsLen == 4
    requires PHY_HEADER_LEN <= at && at + len + fcsLen <= buf.Length && len + fcsLen < 0x1_0000
    modifies buf
    ensures sent.None? <==> len == 0
    ensures sent.Some? ==> sent.value == Frame(old(buf[at..at + len]), fcsLen)
    ensures buf[..at - PHY_HEADER_LEN] == old(buf[..at - PHY_HEADER_LEN])
    ensures buf[at..at + len] == old(buf[at..at + len])
    ensures buf[at + len + fcsLen..] == old(buf[at + len + fcsLen..])
  {
    if len == 0 {
      return None;
    }
    ghost var before := buf[..];
    InsertCrc(buf, at, len, fcsLen);
    ghost var summed := buf[..];
    var pktLen := len + fcsLen;
    var hdrAt := InsertHdr(buf, at, pktLen, fcsLen);
    pktLen := pktLen + PHY_HEADER_LEN;
    sent := Some(buf[hdrAt..hdrAt + pktLen]);
    Assembled(before, summed, buf[..], at, len, fcsLen);
  }

  lemma Assembled(before: seq<bv8>, summed: seq<bv8>, after: seq<bv8>, at: nat, len: nat, fcsLen: nat)
    requires fcsLen == 2 || fcsLen == 4
    requires |before| == |summed| == |after|
    requires PHY_HEADER_LEN <= at && at + len + fcsLen <= |after| && len + fcsLen < 0x1_0000
    requires summed[..at + len] == before[..at + len]
    requires summed[at + len..at + len + fcsLen] == Fcs(before[at..at + len], fcsLen)
    requires summed[at + len + fcsLen..] == before[at + len + fcsLen..]
    requires after[..at - 2] == summed[..at - 2] && after[at..] == summed[at..]
    requires after[at - 2..at] == Bytes16(Header(len + fcsLen, fcsLen))
    ensures after[at - 2..at + len + fcsLen] == Frame(before[at..at + len], fcsLen)
    ensures after[..at - 2] == before[..at - 2] && after[at..at + len] == before[at..at + len]
    ensures after[at + len + fcsLen..] == before[at + len + fcsLen..]
  {
    assert before[at..at + len] == before[..at + len][at..] == summed[at..at + len];
    assert after[at..at + len] == after[at..][..len] == summed[at..][..len] == summed[at..at + len];
    assert after[at + len..at + len + fcsLen] == after[at..][len..len + fcsLen]
        == summed[at..][len..len + fcsLen] == summed[at + len..at + len + fcsLen];
    assert after[at + len + fcsLen..] == after[at..][len + fcsLen..]
        == summed[at..][len + fcsLen..] == summed[at + len + fcsLen..];
    assert summed[..at - 2] == summed[..at + len][..at - 2] == before[..at + len][..at - 2] == before[..at - 2];
    assert after[at - 2..at + len + fcsLen]
        == after[at - 2..at] + after[at..at + len] + after[at + len..at + len + fcsLen];
  }

  /** phy_recv, up to the call of the MAC layer with the payload. */
  method Recv(frame: seq<bv8>) returns (result: Result)
    requires |frame| < 0x1_0000
    ensures result == Receive(frame)
  {
    if |frame| < PHY_HEADER_LEN {
      return Rejected(InvalidArgument);
    }
    result := VerifyPsdu(frame, PsduLen(Phr(frame)), HasCrc16(Phr(frame)));
  }

  /** The rest of phy_recv, once the header has been read. */
  method VerifyPsdu(frame: seq<bv8>, psdu: nat, hasCrc16: bool) returns (result: Result)
    requires PHY_HEADER_LEN <= |frame| < 0x1_0000
    ensures result == Judge(frame, psdu, if hasCrc16 then 2 else 4)
  {
    var psduLen := psdu;
    if |frame| != PHY_HEADER_LEN + psduLen {
      return Rejected(BadFormat);
    }
    if psduLen < (if hasCrc16 then 2 else 4) || psduLen > PHY_PSDU_MAX {
      return Rejected(BadFormat);
    }
    JudgeWellFormed(frame, psduLen, if hasCrc16 then 2 else 4);
    var data := frame[PHY_HEADER_LEN..];
    var expected, actual: bv32 := 0, 0;
    ghost var matches := false;
    if hasCrc16 {
      psduLen := psduLen - 2;
      var stored := Join16(data[psduLen], data[psduLen + 1]);
      var crc := Crc16Calc(data[..psduLen]);
      expected, actual := Widened(stored), Widened(crc);
      SameWidened(crc, stored);
      Compare16(data, psduLen, crc, stored);
      matches := FcsMatches(data[..psduLen], data[psduLen..]);
      assert matches == (actual == expected);
    } else {
      psduLen := psduLen - 4;
      expected := Join32(data[psduLen..]);
      actual := Crc32Calc(data[..psduLen]);
      Compare32(data, psduLen, actual);
      matches := FcsMatches(data[..psduLen], data[psduLen..]);
      assert matches == (actual == expected);
    }
    if actual != expected {
      return Rejected(BadCrc);
    }
    result := Delivered(data[..psduLen]);
  }

  lemma JudgeWellFormed(frame: seq<bv8>, psdu: nat, fcsLen: nat)
    requires fcsLen == 2 || fcsLen == 4
    requires |frame| == PHY_HEADER_LEN + psdu && fcsLen <= psdu <= PHY_PSDU_MAX
    ensures var data, cut := frame[PHY_HEADER_LEN..], psdu - fcsLen;
      Judge(frame, psdu, fcsLen)
      == if FcsMatches(data[..cut], data[cut..]) then Delivered(data[..cut]) else Rejected(BadCrc)
  {
    var data, cut := frame[PHY_HEADER_LEN..], psdu - fcsLen;
    assert data[..cut] == frame[2..cut + 2] && data[cut..] == frame[cut + 2..];
  }

  lemma Compare16(data: seq<bv8>, cut: nat, crc: bv16, stored: bv16)
    requires |data| == cut + 2 && crc == Crc16(CRC16_INIT, data[..cut])
    requires stored == Join16(data[cut], data[cut + 1])
    ensures FcsMatches(data[..cut], data[cut..]) == (crc == stored)
  {}

  lemma Compare32(data: seq<bv8>, cut: nat, crc: bv32)
    requires |data| == cut + 4 && crc == Fcs32(data[..cut])
    ensures FcsMatches(data[..cut], data[cut..]) == (crc == Join32(data[cut..]))
  {}

  function Widened(c: bv16): bv32 { c as bv32 }

  lemma SameWidened(a: bv16, b: bv16)
    ensures Widened(a) == Widened(b) <==> a == b
  {}

  // ---------------------------------------------------------------- Main results

  lemma ShortHeader(len: bv16)
    requires len as int <= PHY_PSDU_MAX
    ensures PsduLen(len | 0x1000) == len as int && HasCrc16(len | 0x1000) && ReservedClear(len | 0x1000)
    ensures PsduLen(len) == len as int && !HasCrc16(len) && ReservedClear(len)
  {
    assert len <= 2047;
    SmallWord(len);
  }

  lemma SmallWord(c: bv16)
    requires c <= 2047
    ensures c & 0x07ff == c && c & 0x1000 == 0 && c & 0xE800 == 0
    ensures (c | 0x1000) & 0x07ff == c && (c | 0x1000) & 0x1000 != 0 && (c | 0x1000) & 0xE800 == 0
  {}

  lemma HeaderFields(psduLen: nat, fcsLen: nat)
    requires fcsLen == 2 || fcsLen == 4
    requires psduLen <= PHY_PSDU_MAX
    ensures PsduLen(Header(psduLen, fcsLen)) == psduLen
    ensures PsduMin(Header(psduLen, fcsLen)) == fcsLen
    ensures ReservedClear(Header(psduLen, fcsLen))
  {
    WordOfNat(psduLen);
    ShortHeader(psduLen as bv16);
  }

  lemma ElevenBits(c: bv16)
    ensures PsduLen(c) <= PHY_PSDU_MAX
  {}

  lemma JoinBytes16(c: bv16)
    ensures Join16(High16(c), Low16(c)) == c
  {}

  lemma JoinBytes32(c: bv32)
    ensures Join32(Bytes32(c)) == c
  {}

  lemma SplitJoin16(high: bv8, low: bv8)
    ensures High16(Join16(high, low)) == high && Low16(Join16(high, low)) == low
  {}

  lemma SplitJoin32(b: seq<bv8>)
    requires |b| == 4
    ensures Bytes32(Join32(b)) == b
  {
    SplitJoin32Bytes(b[0], b[1], b[2], b[3]);
  }

  lemma SplitJoin32Bytes(b0: bv8, b1: bv8, b2: bv8, b3: bv8)
    ensures var c := ((b0 as bv32) << 24) | ((b1 as bv32) << 16) | ((b2 as bv32) << 8) | (b3 as bv32);
      TopByte(c) == b0 && TopByte(c << 8) == b1 && TopByte(c << 16) == b2 && TopByte(c << 24) == b3
  {}

  /** The receiver's comparison is the sender's computation. */
  lemma MatchesIffComputed(data: seq<bv8>, fcs: seq<bv8>)
    requires |fcs| == 2 || |fcs| == 4
    ensures FcsMatches(data, fcs) <==> fcs == Fcs(data, |fcs|)
  {
    if |fcs| == 2 {
      SplitJoin16(fcs[0], fcs[1]);
      JoinBytes16(Crc16(CRC16_INIT, data));
    } else {
      SplitJoin32(fcs);
      JoinBytes32(Fcs32(data));
    }
  }

  lemma FrameParts(payload: seq<bv8>, fcsLen: nat, frame: seq<bv8>)
    requires fcsLen == 2 || fcsLen == 4
    requires |payload| + fcsLen < 0x1_0000
    requires frame == Frame(payload, fcsLen)
    ensures |frame| == 2 + |payload| + fcsLen
    ensures Phr(frame) == Header(|payload| + fcsLen, fcsLen)
    ensures frame[2..2 + |payload|] == payload
    ensures frame[2 + |payload|..] == Fcs(payload, fcsLen)
  {
    JoinBytes16(Header(|payload| + fcsLen, fcsLen));
  }

  /** A frame is delivered unchanged exactly when its PSDU fits the 11-bit length field;
      otherwise the receiver reports a bad format. */
  lemma RoundTrip(payload: seq<bv8>, fcsLen: nat)
    requires fcsLen == 2 || fcsLen == 4
    requires |payload| + fcsLen < 0x1_0000
    ensures Receive(Frame(payload, fcsLen))
         == if |payload| + fcsLen <= PHY_PSDU_MAX then Delivered(payload) else Rejected(BadFormat)
  {
    var frame := Frame(payload, fcsLen);
    FrameParts(payload, fcsLen, frame);
    if |payload| + fcsLen <= PHY_PSDU_MAX {
      HeaderFields(|payload| + fcsLen, fcsLen);
      MatchesIffComputed(payload, frame[2 + |payload|..]);
    } else {
      ElevenBits(Phr(frame));
    }
  }

  /** The header-only parser agrees with the length that was sent. */
  lemma PktLenOfFrame(payload: seq<bv8>, fcsLen: nat)
    requires fcsLen == 2 || fcsLen == 4
    requires |payload| + fcsLen <= PHY_PSDU_MAX
    ensures PktLen(Frame(payload, fcsLen)) == |payload| + fcsLen
  {
    FrameParts(payload, fcsLen, Frame(payload, fcsLen));
    HeaderFields(|payload| + fcsLen, fcsLen);
  }

  lemma HeaderBits(high: bv8, low: bv8)
    ensures Join16(high, low) & 0x07ff == Join16(high & 0x07, low)
    ensures Join16(high, low) & 0xE800 == 0 <==> high & 0xE8 == 0
    ensures Join16(high, low) & 0x1000 != 0 <==> high & 0x10 != 0
  {}

  lemma JoinedIsJoin(high: bv8, low: bv8)
    ensures Join16(high, low) == JoinedWord(high, low)
  {}

  lemma JoinedIs(high: bv8, low: bv8)
    ensures Join16(high, low) as int == 256 * (high as int) + low as int
  {
    hide Join16, JoinedWord;
    JoinedIsJoin(high, low);
  }

  /** The fields of the two header bytes: eleven length bits, the FCS bit, and reserved bits. */
  function LengthBits(high: bv8, low: bv8): nat {
    256 * ((high & 0x07) as int) + low as int
  }

  predicate ShortFcs(high: bv8) { high & 0x10 != 0 }

  predicate Reserved(high: bv8) { high & 0xE8 != 0 }

  lemma HeaderSays(high: bv8, low: bv8)
    ensures PsduLen(Join16(high, low)) == LengthBits(high, low) <= 2047
    ensures HasCrc16(Join16(high, low)) == ShortFcs(high) && ReservedClear(Join16(high, low)) == !Reserved(high)
  {
    hide Join16;
    ElevenBits(Join16(high, low));
    HeaderBits(high, low);
    JoinedIs(high & 0x07, low);
  }

  /** What the header-only parser says about every string, from its first two bytes alone: the
      length bits, unless a reserved bit is set or the length is below that of the FCS. */
  lemma PktLenOfHeader(data: seq<bv8>)
    ensures PktLen(data) ==
      if |data| < 2 then 0
      else
        var n := LengthBits(data[0], data[1]);
        if !Reserved(data[0]) && n >= (if ShortFcs(data[0]) then 2 else 4) then n else 0
  {
    hide PsduLen, HasCrc16, ReservedClear, Join16, LengthBits, ShortFcs, Reserved;
    if |data| >= 2 {
      HeaderSays(data[0], data[1]);
    }
  }

  /** Which error a received string gets, from its bytes: too short for a header; a length that is
      not the announced one, or below that of the FCS; an FCS that is not that of the payload. */
  lemma ErrorOf(frame: seq<bv8>)
    ensures
      if |frame| < 2 then Receive(frame) == Rejected(InvalidArgument)
      else
        var n := LengthBits(frame[0], frame[1]);
        var fcsLen := if ShortFcs(frame[0]) then 2 else 4;
        if |frame| != 2 + n || n < fcsLen then Receive(frame) == Rejected(BadFormat)
        else
          var payload := frame[2..|frame| - fcsLen];
          Receive(frame) ==
            if frame[|frame| - fcsLen..] == Fcs(payload, fcsLen) then Delivered(payload) else Rejected(BadCrc)
  {
    hide FcsMatches, Fcs, PsduLen, HasCrc16, ReservedClear, Join16, LengthBits, ShortFcs, Reserved;
    if |frame| >= 2 {
      HeaderSays(frame[0], frame[1]);
      var fcsLen := PsduMin(Phr(frame));
      if |frame| == 2 + PsduLen(Phr(frame)) && PsduLen(Phr(frame)) >= fcsLen {
        MatchesIffComputed(frame[2..|frame| - fcsLen], frame[|frame| - fcsLen..]);
      }
    }
  }

  /** The bytes of a frame: the header has the length and the FCS bit, and the FCS follows the
      payload, its most significant byte first. */
  lemma FrameBytes(payload: seq<bv8>, fcsLen: nat)
    requires (fcsLen == 2 || fcsLen == 4) && |payload| + fcsLen <= PHY_PSDU_MAX
    ensures var x, n := Frame(payload, fcsLen), |payload| + fcsLen;
      && |x| == 2 + n && x[2..2 + |payload|] == payload
      && n == LengthBits(x[0], x[1]) && !Reserved(x[0]) && (ShortFcs(x[0]) <==> fcsLen == 2)
      && (fcsLen == 2 ==> Join16(x[n], x[n + 1]) == Crc16(0, payload) && Crc16(0, x[2..]) == 0)
      && (fcsLen == 4 ==> Join32(x[n - 2..]) == Fcs32(payload))
  {
    hide Header, Crc16, Fcs32, Join16, Join32, PsduLen, HasCrc16, ReservedClear, LengthBits, ShortFcs, Reserved;
    hide High16, Low16, TopByte;
    var x, n := Frame(payload, fcsLen), |payload| + fcsLen;
    FrameParts(payload, fcsLen, x);
    HeaderFields(n, fcsLen);
    HeaderSays(x[0], x[1]);
    if fcsLen == 2 {
      FcsOfCrc(payload, x[2 + |payload|..]);
      assert x[2..] == payload + [x[n], x[n + 1]];
    } else {
      JoinBytes32(Fcs32(payload));
    }
  }

  lemma FcsOfCrc(payload: seq<bv8>, fcs: seq<bv8>)
    requires fcs == Fcs(payload, 2)
    ensures Join16(fcs[0], fcs[1]) == Crc16(0, payload) && Crc16(0, payload + [fcs[0], fcs[1]]) == 0
  {
    hide Crc16, Join16;
    JoinBytes16(Crc16(CRC16_INIT, payload));
    Crc16SelfCheck(CRC16_INIT, payload, Crc16(CRC16_INIT, payload));
  }

  /** On whole frames the two parsers accept the same lengths, except that only the
      header-only one looks at the reserved bits. */
  lemma ParsersAgree(frame: seq<bv8>)
    ensures PktLen(frame) != 0 && |frame| == PHY_HEADER_LEN + PktLen(frame)
       <==> |frame| >= PHY_HEADER_LEN && ReservedClear(Phr(frame)) && Receive(frame) != Rejected(BadFormat)
  {
    if |frame| >= PHY_HEADER_LEN {
      ElevenBits(Phr(frame));
    }
  }

  lemma HeaderOfLength(len: bv16)
    ensures len as int < 0x1_0000
    ensures Header(len as int, 2) == len | 0x1000 && Header(len as int, 4) == len
  {
    WordOfInt(len);
  }

  lemma HeaderOfFields(phr: bv16)
    requires ReservedClear(phr)
    ensures PsduLen(phr) < 0x1_0000 && Header(PsduLen(phr), PsduMin(phr)) == phr
  {
    if HasCrc16(phr) {
      FlaggedHeader(phr);
    } else {
      PlainHeader(phr);
    }
  }

  lemma FlaggedHeader(phr: bv16)
    requires ReservedClear(phr) && HasCrc16(phr)
    ensures (phr & 0x07ff) as int < 0x1_0000 && Header((phr & 0x07ff) as int, 2) == phr
  {
    HeaderOfLength(phr & 0x07ff);
    FlagAndLength(phr);
  }

  lemma PlainHeader(phr: bv16)
    requires ReservedClear(phr) && !HasCrc16(phr)
    ensures (phr & 0x07ff) as int < 0x1_0000 && Header((phr & 0x07ff) as int, 4) == phr
  {
    HeaderOfLength(phr & 0x07ff);
    FlagAndLength(phr);
  }

  lemma FlagAndLength(phr: bv16)
    requires phr & 0xE800 == 0
    ensures if phr & 0x1000 != 0 then (phr & 0x07ff) | 0x1000 == phr else phr & 0x07ff == phr
  {}

  /** Everything the receiver delivers with clear reserved bits is a frame the sender makes. */
  lemma DeliveredWasSent(frame: seq<bv8>)
    requires |frame| >= PHY_HEADER_LEN && ReservedClear(Phr(frame)) && Receive(frame).Delivered?
    ensures var fcsLen := PsduMin(Phr(frame));
      var payload := Receive(frame).payload;
      |payload| + fcsLen <= PHY_PSDU_MAX && frame == Frame(payload, fcsLen)
  {
    HeaderOfFields(Phr(frame));
    JudgedWasSent(frame, PsduLen(Phr(frame)), PsduMin(Phr(frame)));
  }

  lemma JudgedWasSent(frame: seq<bv8>, psdu: nat, fcsLen: nat)
    requires |frame| >= PHY_HEADER_LEN && (fcsLen == 2 || fcsLen == 4) && psdu < 0x1_0000
    requires Phr(frame) == Header(psdu, fcsLen)
    requires Judge(frame, psdu, fcsLen).Delivered?
    ensures var payload := Judge(frame, psdu, fcsLen).payload;
      |payload| + fcsLen <= PHY_PSDU_MAX && frame == Frame(payload, fcsLen)
  {
    MatchesIffComputed(frame[2..|frame| - fcsLen], frame[|frame| - fcsLen..]);
    FrameOfParts(frame, fcsLen);
  }

  lemma FrameOfParts(frame: seq<bv8>, fcsLen: nat)
    requires fcsLen == 2 || fcsLen == 4
    requires 2 + fcsLen <= |frame| < 0x1_0000
    requires Phr(frame) == Header(|frame| - 2, fcsLen)
    requires frame[|frame| - fcsLen..] == Fcs(frame[2..|frame| - fcsLen], fcsLen)
    ensures frame == Frame(frame[2..|frame| - fcsLen], fcsLen)
  {
    Cut(frame, 2, |frame| - fcsLen);
    SplitJoin16(frame[0], frame[1]);
    assert frame[..2] == Bytes16(Phr(frame));
  }

  lemma ComputedDividesOut16(data: seq<bv8>)
    ensures Crc16(CRC16_INIT, data + Fcs(data, 2)) == 0
  {
    Crc16SelfCheck(CRC16_INIT, data, Crc16(CRC16_INIT, data));
  }

  lemma PsduBurst16(data: seq<bv8>, data': seq<bv8>, fcs': seq<bv8>, start: nat)
    requires |data| == |data'| && |fcs'| == 2 && data + Fcs(data, 2) != data' + fcs'
    requires DifferWithin(MessageBits(data + Fcs(data, 2)), MessageBits(data' + fcs'), start, 16)
    ensures !FcsMatches(data', fcs')
  {
    MatchesIffComputed(data', fcs');
    ComputedDividesOut16(data);
    ComputedDividesOut16(data');
    Crc16DetectsBurst(CRC16_INIT, data + Fcs(data, 2), data' + fcs', start);
  }

  /** The payload bits followed by the register, which is the complement of the checksum. */
  function RegisterBits(data: seq<bv8>, fcs: bv32): Bits {
    MessageBits(data) + Xor(Bits32(fcs), Bits32(CRC32_INIT))
  }

  lemma ComputedDividesOut32(data: seq<bv8>)
    requires |data| >= 4
    ensures Feed(Bits32(CRC32_INIT), RegisterBits(data, Fcs32(data)), Poly32()) == Zeros(32)
  {
    var reg := Crc32(CRC32_INIT, data);
    BitsOfSum(Fcs32(data), CRC32_INIT);
    assert Fcs32(data) ^ CRC32_INIT == reg;
    Crc32IsFeed(CRC32_INIT, data);
    FeedSplit(Bits32(CRC32_INIT), MessageBits(data), Bits32(reg), Poly32());
    PolysEndInOne();
    ZeroAfter(Bits32(reg), Bits32(reg), Poly32());
    assert Bits32(reg) + Zeros(0) == Bits32(reg);
  }

  lemma MessageBitsOfFcs(data: seq<bv8>, fcs: bv32)
    ensures MessageBits(data + Bytes32(fcs)) == MessageBits(data) + Bits32(fcs)
  {
    var b := Bytes32(fcs);
    MessageBitsConcat(data, b);
    assert b == [b[0]] + ([b[1]] + ([b[2]] + [b[3]]));
    MessageBitsConcat([b[0]], [b[1]] + ([b[2]] + [b[3]]));
    MessageBitsConcat([b[1]], [b[2]] + [b[3]]);
    MessageBitsConcat([b[2]], [b[3]]);
    MessageBitsOfByte(b[0]);
    MessageBitsOfByte(b[1]);
    MessageBitsOfByte(b[2]);
    MessageBitsOfByte(b[3]);
    Bits32OfBytes(fcs, fcs << 8, fcs << 16, fcs << 24);
  }

  lemma MessageBitsOfByte(b: bv8)
    ensures MessageBits([b]) == Bits8(b)
  {
    assert [b][1..] == [];
  }

  /** Complementing the checksums moves no difference. */
  lemma SameDifferences(m: Bits, m': Bits, f: Bits, f': Bits, mask: Bits, start: nat, span: nat)
    requires |m| == |m'| && |f| == |f'| == |mask|
    requires DifferWithin(m + f, m' + f', start, span) && m + f != m' + f'
    ensures DifferWithin(m + Xor(f, mask), m' + Xor(f', mask), start, span)
    ensures m + Xor(f, mask) != m' + Xor(f', mask)
  {
    var a, b, c, d := m + f, m' + f', m + Xor(f, mask), m' + Xor(f', mask);
    assert forall i | 0 <= i < |a| :: a[i] == b[i] <==> c[i] == d[i];
  }

  lemma PsduBurst32(data: seq<bv8>, data': seq<bv8>, fcs': seq<bv8>, start: nat)
    requires |data| == |data'| && |fcs'| == 4 && data + Fcs(data, 4) != data' + fcs'
    requires LongEnough(data, 4)
    requires DifferWithin(MessageBits(data + Fcs(data, 4)), MessageBits(data' + fcs'), start, 32)
    ensures !FcsMatches(data', fcs')
  {
    MatchesIffComputed(data', fcs');
    if |data| == 0 {
      assert data == [] && data' == [] && [] + fcs' == fcs' && [] + Fcs([], 4) == Fcs([], 4);
    } else if fcs' == Fcs(data', 4) {
      var f, f' := Fcs32(data), Fcs32(data');
      if MessageBits(data + Fcs(data, 4)) == MessageBits(data' + fcs') {
        MessageBitsInjective(data + Fcs(data, 4), data' + fcs');
      }
      MessageBitsOfFcs(data, f);
      MessageBitsOfFcs(data', f');
      SameDifferences(MessageBits(data), MessageBits(data'), Bits32(f), Bits32(f'), Bits32(CRC32_INIT), start, 32);
      PolysEndInOne();
      DetectsBurst(Bits32(CRC32_INIT), RegisterBits(data, f), RegisterBits(data', f'), start, Poly32());
      ComputedDividesOut32(data);
      ComputedDividesOut32(data');
    }
  }

  /** The frame of the payload arrives with an error burst no longer than its checksum, in
      the payload, in the checksum or across both. */
  predicate HitByBurst(payload: seq<bv8>, fcsLen: nat, hit: seq<bv8>, start: nat)
    requires fcsLen == 2 || fcsLen == 4
    requires |payload| + fcsLen <= PHY_PSDU_MAX
  {
    var frame := Frame(payload, fcsLen);
    |hit| == |frame| && hit != frame && hit[..2] == frame[..2]
    && DifferWithin(MessageBits(frame[2..]), MessageBits(hit[2..]), start, 8 * fcsLen)
  }

  /** Payloads for which the 32-bit check sequence is not taken over a padded message. */
  predicate LongEnough(payload: seq<bv8>, fcsLen: nat) {
    fcsLen == 2 || |payload| == 0 || |payload| >= 4
  }

  lemma BurstRejected(payload: seq<bv8>, fcsLen: nat, hit: seq<bv8>, start: nat)
    requires fcsLen == 2 || fcsLen == 4
    requires |payload| + fcsLen <= PHY_PSDU_MAX && HitByBurst(payload, fcsLen, hit, start)
    requires LongEnough(payload, fcsLen)
    ensures Receive(hit) == Rejected(BadCrc)
  {
    var frame := Frame(payload, fcsLen);
    FrameParts(payload, fcsLen, frame);
    HeaderFields(|payload| + fcsLen, fcsLen);
    SameHeader(frame, hit);
    HitIsJudged(payload, fcsLen, frame, hit, start);
  }

  lemma HitIsJudged(payload: seq<bv8>, fcsLen: nat, frame: seq<bv8>, hit: seq<bv8>, start: nat)
    requires fcsLen == 2 || fcsLen == 4
    requires LongEnough(payload, fcsLen)
    requires |payload| + fcsLen <= PHY_PSDU_MAX && |hit| == |frame| == 2 + |payload| + fcsLen
    requires frame[2..2 + |payload|] == payload && frame[2 + |payload|..] == Fcs(payload, fcsLen)
    requires hit != frame && hit[..2] == frame[..2]
    requires DifferWithin(MessageBits(frame[2..]), MessageBits(hit[2..]), start, 8 * fcsLen)
    ensures Judge(hit, |payload| + fcsLen, fcsLen) == Rejected(BadCrc)
  {
    var end := |hit| - fcsLen;
    Cut(hit, 2, end);
    Cut(frame, 2, end);
    if fcsLen == 2 {
      PsduBurst16(payload, hit[2..end], hit[end..], start);
    } else {
      PsduBurst32(payload, hit[2..end], hit[end..], start);
    }
  }

  /** The payload with its last bit flipped. */
  function Neighbour(payload: seq<bv8>): seq<bv8>
    requires |payload| > 0
  {
    payload[..|payload| - 1] + [Sum8(payload[|payload| - 1], 1)]
  }

  lemma LastOfByte(b: bv8)
    ensures Sum8(b, 1) != b
    ensures forall i | 0 <= i < 7 :: Bits8(Sum8(b, 1))[i] == Bits8(b)[i]
  {
    Bits8Xor(b, 1, Sum8(b, 1));
    forall i | 0 <= i < 7 ensures !Bits8(1)[i] {
      LowMask(i);
    }
  }

  lemma LowMask(i: nat)
    requires i < 7
    ensures Wide8(1) & BitMask(i) == 0
  {
    LeadingMasks();
    TopMask(i);
  }

  lemma BurstEnds(f: bv32)
    ensures Bits32(Sum32(f, SHORT_BURST))[31] == Bits32(f)[31]
  {
    Bits32Xor(f, SHORT_BURST, Sum32(f, SHORT_BURST));
    NextMask(14);
    assert BitMask(15) == 0x0001_0000;
    assert BitMask(31) == 1;
  }

  /** For every payload of one to three bytes there is a burst of 32 bits that turns its
      frame into the frame of another payload. */
  lemma ShortPayloadMistaken(payload: seq<bv8>)
    requires 1 <= |payload| <= 3
    ensures var hit := Frame(Neighbour(payload), 4);
      HitByBurst(payload, 4, hit, 8 * |payload| - 1) && Receive(hit) == Delivered(Neighbour(payload))
      && Neighbour(payload) != payload
  {
    hide Fcs, Header, Bytes16, Neighbour, Receive, MessageBits, DifferWithin;
    NeighbourClose(payload);
    var n := Neighbour(payload);
    RoundTrip(n, 4);
    var frame, hit := Frame(payload, 4), Frame(n, 4);
    var header := Bytes16(Header(|payload| + 4, 4));
    assert frame == header + (payload + Fcs(payload, 4)) && hit == header + (n + Fcs(n, 4));
    AfterHeader(header, payload + Fcs(payload, 4));
    AfterHeader(header, n + Fcs(n, 4));
    assert hit != frame by {
      FrameParts(payload, 4, frame);
      FrameParts(n, 4, hit);
    }
  }

  lemma AfterHeader(header: seq<bv8>, psdu: seq<bv8>)
    requires |header| == 2
    ensures (header + psdu)[2..] == psdu && (header + psdu)[..2] == header
  {}

  lemma NeighbourClose(payload: seq<bv8>)
    requires 1 <= |payload| <= 3
    ensures var n := Neighbour(payload);
      n != payload && |n| == |payload|
      && DifferWithin(MessageBits(payload + Fcs(payload, 4)), MessageBits(n + Fcs(n, 4)), 8 * |payload| - 1, 32)
  {
    hide Fcs32, Sum8, Sum32, Bits8, Bits32, Fcs, MessageBits;
    var init, b := payload[..|payload| - 1], payload[|payload| - 1];
    assert payload == init + [b] && Neighbour(payload) == init + [Sum8(b, 1)];
    LastOfByte(b);
    ShortFcs32(init, b);
    PsduBits(init, b);
    PsduBits(init, Sum8(b, 1));
    BurstEnds(Fcs32(payload));
    CloseBits(MessageBits(init), Bits8(b), Bits8(Sum8(b, 1)), Bits32(Fcs32(payload)), Bits32(Fcs32(Neighbour(payload))));
    assert payload[|init|] != Neighbour(payload)[|init|];
  }

  lemma PsduBits(init: seq<bv8>, b: bv8)
    ensures MessageBits(init + [b] + Fcs(init + [b], 4))
         == MessageBits(init) + Bits8(b) + Bits32(Fcs32(init + [b]))
  {
    hide Fcs32, Bits8, Bits32;
    MessageBitsOfFcs(init + [b], Fcs32(init + [b]));
    MessageBitsConcat(init, [b]);
    MessageBitsOfByte(b);
  }

  lemma CloseBits(init: Bits, b: Bits, b': Bits, f: Bits, f': Bits)
    requires |b| == |b'| == 8 && |f| == |f'| == 32
    requires forall i | 0 <= i < 7 :: b'[i] == b[i]
    requires f'[31] == f[31]
    ensures DifferWithin(init + b + f, init + b' + f', |init| + 7, 32)
  {
    var s, s' := init + b + f, init + b' + f';
    forall i | 0 <= i < |s| && !(|init| + 7 <= i < |init| + 39) ensures s[i] == s'[i] {
      if |init| <= i < |init| + 8 {
        assert s[i] == b[i - |init|] && s'[i] == b'[i - |init|];
      }
    }
  }

  /** A frame whose PSDU is hit by an error burst no longer than its checksum is never
      delivered, exactly when the payload is long enough to need no padding (or empty). */
  lemma BurstsRejectedIff(payload: seq<bv8>, fcsLen: nat)
    requires fcsLen == 2 || fcsLen == 4
    requires |payload| + fcsLen <= PHY_PSDU_MAX
    ensures (forall hit, start | HitByBurst(payload, fcsLen, hit, start) :: Receive(hit) == Rejected(BadCrc))
       <==> LongEnough(payload, fcsLen)
  {
    if LongEnough(payload, fcsLen) {
      forall hit, start | HitByBurst(payload, fcsLen, hit, start) ensures Receive(hit) == Rejected(BadCrc) {
        BurstRejected(payload, fcsLen, hit, start);
      }
    } else {
      ShortPayloadMistaken(payload);
    }
  }

  lemma Cut(s: seq<bv8>, a: nat, b: nat)
    requires a <= b <= |s|
    ensures s == s[..a] + s[a..] && s[a..] == s[a..b] + s[b..]
  {}

  lemma SameHeader(frame: seq<bv8>, hit: seq<bv8>)
    requires |frame| == |hit| >= 2 && hit[..2] == frame[..2]
    ensures Phr(frame) == Phr(hit)
  {
    assert frame[0] == frame[..2][0] && frame[1] == frame[..2][1];
    assert hit[0] == hit[..2][0] && hit[1] == hit[..2][1];
  }
}
