/** What demo/extif/slip.c does, as functions on values.

    The ring is cells[begin .. nextFree), cyclically.  If begin != pktEnd then the bytes
    [begin, pktEnd) are a whole packet whose END byte is at pktEnd. */
module SlipSpec {
  import opened Buffers

  const END: bv8 := 0xC0
  const ESC: bv8 := 0xDB
  const ESC_END: bv8 := 0xDC
  const ESC_ESC: bv8 := 0xDD
  const CHAR_C: bv8 := 0x43
  const CHAR_T: bv8 := 0x54
  const CLIENT: seq<bv8> := [0x43, 0x4C, 0x49, 0x45, 0x4E, 0x54]

  datatype Mode = TwoPackets | Ok | Escape | Rubbish

  datatype Slip = Slip(mode: Mode, begin: nat, nextFree: nat, pktEnd: nat, cells: seq<bv8>)

  predicate Valid(s: Slip) {
    s.begin < |s.cells| && s.nextFree < |s.cells| && s.pktEnd < |s.cells|
  }

  /** The cells from i up to j, going round at the end. */
  function Slice(cells: seq<bv8>, i: nat, j: nat): seq<bv8>
    requires i <= |cells| && j <= |cells|
  {
    if i <= j then cells[i..j] else cells[i..] + cells[..j]
  }

  function Distance(i: nat, j: nat, n: nat): nat
    requires i < n && j < n
  {
    if i <= j then j - i else n - i + j
  }

  function Queue(s: Slip): seq<bv8>
    requires Valid(s)
  {
    Slice(s.cells, s.begin, s.nextFree)
  }

  function Packet(s: Slip): seq<bv8>
    requires Valid(s)
  {
    Slice(s.cells, s.begin, s.pktEnd)
  }

  // ---------------------------------------------------------------- One byte arrives

  /** slip_input_byte: the new state, and whether it posts a poll event. */
  function Input(s: Slip, c: bv8): (r: (Slip, bool))
    requires Valid(s)
    ensures Valid(r.0) && |r.0.cells| == |s.cells|
  {
    if s.mode == Rubbish then
      (if c == END then s.(mode := Ok) else s, false)
    else if s.mode == Escape && c != ESC_END && c != ESC_ESC then
      (s.(mode := Rubbish, nextFree := s.pktEnd), false)
    else
      var mode := if c == ESC then Escape else if s.mode == Escape then Ok else s.mode;
      var free := Next(s.nextFree, |s.cells|);
      if free == s.begin then
        (s.(mode := Rubbish, nextFree := s.pktEnd), false)
      else
        Store(s.(mode := mode), c, free)
  }

  function Store(s: Slip, c: bv8, free: nat): (r: (Slip, bool))
    requires Valid(s) && free < |s.cells|
    ensures Valid(r.0) && |r.0.cells| == |s.cells|
  {
    var stored := s.(cells := s.cells[s.nextFree := c], nextFree := free);
    if c == CHAR_T && stored.cells[s.begin] == CHAR_C then (stored, true)
    else if c != END then (stored, false)
    else if s.nextFree == s.pktEnd then (stored.(nextFree := s.nextFree), false)
    else if s.begin == s.pktEnd then (stored.(pktEnd := s.nextFree), true)
    else (stored, true)
  }

  // ---------------------------------------------------------------- A poll

  /** One byte of the copy loop: what has been copied, and whether an escape is open. */
  function Put(out: seq<bv8>, escaped: bool, c: bv8): (seq<bv8>, bool) {
    if escaped then
      (if c == ESC_ESC then out + [ESC] else if c == ESC_END then out + [END] else out, false)
    else if c == ESC then (out, true)
    else (out + [c], false)
  }

  /** The copy loop over some cells: it gives up, with nothing, once more than limit bytes
      are out and there are still cells to come. */
  function Copied(cells: seq<bv8>, out: seq<bv8>, escaped: bool, limit: nat): (seq<bv8>, bool)
    decreases |cells|
  {
    if cells == [] then (out, escaped)
    else if |out| > limit then ([], escaped)
    else
      var (o, e) := Put(out, escaped, cells[0]);
      Copied(cells[1..], o, e, limit)
  }

  /** The bytes that a poll copies out: one run of the loop, or two when the packet goes
      round the end of the ring. */
  function Delivered(s: Slip, limit: nat): seq<bv8>
    requires Valid(s)
  {
    if s.begin < s.pktEnd then
      Copied(s.cells[s.begin..s.pktEnd], [], false, limit).0
    else
      var (o, e) := Copied(s.cells[s.begin..], [], false, limit);
      Copied(s.cells[..s.pktEnd], o, e, limit).0
  }

  /** How many cells of the output buffer such a copy loop has written when it is done. */
  function Written(cells: seq<bv8>, out: seq<bv8>, escaped: bool, limit: nat): (n: nat)
    ensures |out| <= n
    decreases |cells|
  {
    if cells == [] || |out| > limit then |out|
    else
      var (o, e) := Put(out, escaped, cells[0]);
      Written(cells[1..], o, e, limit)
  }

  /** The cells of the output buffer that a poll with a packet writes. */
  function PollWrites(s: Slip, limit: nat): nat
    requires Valid(s)
  {
    if s.begin < s.pktEnd then
      Written(s.cells[s.begin..s.pktEnd], [], false, limit)
    else
      var n := Written(s.cells[s.begin..], [], false, limit);
      var (o, e) := Copied(s.cells[s.begin..], [], false, limit);
      var m := Written(s.cells[..s.pktEnd], o, e, limit);
      if n < m then m else n
  }

  /** The first END in the ring from i on, or stop. */
  function FindEnd(cells: seq<bv8>, i: nat, stop: nat): (r: nat)
    requires i < |cells| && stop < |cells|
    ensures r < |cells|
    decreases Distance(i, stop, |cells|)
  {
    if i == stop || cells[i] == END then i
    else FindEnd(cells, Next(i, |cells|), stop)
  }

  /** The greeting of a client program, which resets the driver.  It is seen only where the
      ring does not go round. */
  predicate Greeted(s: Slip)
    requires Valid(s)
  {
    s.begin < s.nextFree && s.nextFree - s.begin >= 6 && s.cells[s.begin..s.begin + 6] == CLIENT
  }

  function Reset(s: Slip): (r: Slip)
    requires Valid(s) && Greeted(s)
    ensures Valid(r) && |r.cells| == |s.cells|
  {
    Slip(Ok, 0, 0, 0, s.cells[..s.begin] + [0, 0, 0, 0, 0, 0] + s.cells[s.begin + 6..])
  }

  /** The packet just copied is passed: pkt_end moves on behind its END.  begin stays for now. */
  function Passed(s: Slip): (r: Slip)
    requires Valid(s)
    ensures Valid(r) && |r.cells| == |s.cells|
  {
    s.(pktEnd := Next(s.pktEnd, |s.cells|))
  }

  /** The scan for the END of the next packet, up to the value of next_free read before it; then
      begin moves.  Also whether another poll is posted. */
  function Scanned(s: Slip, stop: nat): (r: (Slip, bool))
    requires Valid(s) && stop < |s.cells|
    ensures Valid(r.0) && |r.0.cells| == |s.cells|
  {
    var found := FindEnd(s.cells, s.pktEnd, stop);
    (s.(begin := s.pktEnd, pktEnd := if found == stop then s.pktEnd else found), found != stop)
  }

  /** slip_poll_handler without an interrupt inside it: the new state, the bytes copied out, and
      whether it posts another poll event. */
  function Poll(s: Slip, limit: nat): (r: (Slip, seq<bv8>, bool))
    requires Valid(s)
    ensures Valid(r.0) && |r.0.cells| == |s.cells|
  {
    if Greeted(s) then (Reset(s), [], false)
    else if s.begin == s.pktEnd then (s, [], false)
    else
      var (t, again) := Scanned(Passed(s), s.nextFree);
      (t, Delivered(s, limit), again)
  }

  // ---------------------------------------------------------------- Framing

  function Escaped(c: bv8): seq<bv8> {
    if c == END then [ESC, ESC_END] else if c == ESC then [ESC, ESC_ESC] else [c]
  }

  /** The payload with its END and ESC bytes escaped, as section "PROTOCOL" of RFC 1055 has it. */
  function Encoded(payload: seq<bv8>): seq<bv8> {
    if payload == [] then [] else Escaped(payload[0]) + Encoded(payload[1..])
  }

  /** A frame is a payload and a closing END.  A sender may also put an END in front, to
      flush what line noise has left behind. */
  datatype Frame = Frame(flush: bool, payload: seq<bv8>)

  function Wire(f: Frame): seq<bv8> {
    (if f.flush then [END] else []) + Encoded(f.payload) + [END]
  }

  function Stream(frames: seq<Frame>): seq<bv8> {
    if frames == [] then [] else Wire(frames[0]) + Stream(frames[1..])
  }

  function Payloads(frames: seq<Frame>): (r: seq<seq<bv8>>)
    ensures |r| == |frames|
    ensures forall i | 0 <= i < |frames| :: r[i] == frames[i].payload
  {
    if frames == [] then [] else [frames[0].payload] + Payloads(frames[1..])
  }

  /** Payloads that the driver can hand on: not empty, not longer than the output buffer
      takes, and not taken for a client's greeting. */
  predicate Sendable(payload: seq<bv8>, limit: nat) {
    0 < |payload| <= limit + 1 && !(CLIENT <= payload)
  }
}
