# Verification of emb6's core components

A model in Dafny of the components of the emb6 network stack that everything else rests on, and
proofs of what they are for. Every component is modelled in the form its C code has: objects
with fields that methods update, arrays changed in place, loops with their invariants. Each such
method is proved against a specification on values, and the properties that span several calls
or whole runs are lemmas about the specification.

- **Common definitions** (`Common`, `Buffers`).
- **Checksums and the PHY framer** (`Gf2`, `Bits`, `Crc`, `CrcCheck`, `Phy`). Polynomials over GF(2) as bit
  sequences; both CRCs are the remainder of polynomial division, so bursts are detected in
  messages of any length; the IEEE 802.15.4g framer and its parser are inverse to each other.
- **Timers on intrusive lists** (`RtTmrSpec`, `RtTmrRuns`, `RtTmrCalls`, `RtTmr`, `List`,
  `EtimerSpec`, `Etimer`). The sorted doubly linked real-time timer queue, with callbacks that may do anything
  the API offers, and the singly linked list of event timers.
- **Events** (`EvprocSpec`, `EvprocRuns`, `Evproc`). The bounded event queue and the callback table.
- **SLIP** (`SlipSpec`, `Slip`, `SlipCopy`, `SlipRuns`, `SlipTiming`, `SlipStray`, `SlipLost`,
  `SlipOverflow`, `SlipGreeting`). The ring-buffer decoder whose packets and escapes may cross the end of the ring, fed by an interrupt
  and emptied by polls that the interrupt may come into.
- **Allocators and buffers** (`MmemSpec`, `Mmem`, `MmemRuns`, `Memb`, `Packetbuf`, `Queuebuf`,
  `RingBufIndex`, `RingBufRuns`). The compacting allocator, the block pool, packet snapshots, and
  the lock-free index ring of one producer and one consumer.
- **Cryptography** (`Ccm`, `CcmBlocks`, `Aes`, `AesInverse`, `AesVector`). CCM* over any block cipher
  after RFC 3610, and AES-128 after FIPS 197, undone by the inverse cipher of that standard.
- **TCP sockets** (`TcpSpec`, `TcpSocket`, `TcpRuns`, `TcpInput`, `TcpLink`, `TcpWindow`). The stream
  buffer with acknowledgements and retransmissions, the input, and the connection below.
- **Link statistics** (`LinkStats`). The fixed-point moving average.

Some properties hold only under a condition that the code does not enforce. There the condition is
proved to be exact, or an input family is proved to break the property:

- With room in the ring, a SLIP stream is handed on as it was sent exactly when no END comes right
  behind the END of a packet not yet copied, and no END closes a packet while the scan of a poll that
  finds nothing is running (`SlipStray.ExactIffTimely`). The repository's own sender puts an END in
  front of every frame; where that one is early, the next payload is handed on with it in front
  (`SlipRuns.LatePollSpoils`). A sender with one END per frame escapes the first kind
  (`SlipTiming.RoomIsEnough`), but not the second: the receive interrupt may come into the poll, and
  then two payloads are handed on as one (`SlipLost.MissedEndMerges`).
- A TCP socket drops what it has last offered to uIP, but uIP's peer acknowledges what was first sent.
  The two are the same exactly when every acknowledgement finds the offer as long as the outstanding
  segment (`TcpLink.InStepIff`), which is so when the segment size stays the same while a segment is
  outstanding (`TcpLink.SyncedIff`). uIP changes it with the window of every segment that comes in. Bytes
  may then never be sent (`TcpWindow.GrowingWindowLoses`), or be sent at a wrong place
  (`TcpWindow.ShrinkingWindowShifts`).
- A SLIP packet that is too long for the buffer is dropped whole by one copy loop. Where it goes round
  the end of the ring and the first loop gives up, the second one hands on what is left as if it were
  a packet, perhaps from the middle of an escape on (`SlipCopy.WholeOrNothingIff`).
- The copy loops check the length before they write, and one byte late: they stay within a buffer of
  the length they are given exactly when the payload fits it (`SlipCopy.WritesFitIff`,
  `SlipTiming.InBufferIff`).
- When the SLIP ring overflows, or an escape is illegal, while a packet waits for its poll, the bytes
  that come next are stored over the END of that packet, and the payload after it is handed on without
  its first byte; without a packet waiting it is handed on whole (`SlipOverflow.RecoversIff`).
- Short messages get one byte of padding before the CRC-32, which is not transmitted; for payloads of
  one to three bytes there are 32-bit bursts that go unnoticed (`Phy.BurstsRejectedIff`).
- The loops of CCM* end exactly for messages of at most 240 bytes and additional data of at most
  254 bytes (`Ccm.MessageLoopEnds`, `Ccm.AdataLoopEnds`).
- The counter blocks of CCM* differ from one another and from the first block that is authenticated,
  except that for a MIC of 2 or 3 bytes, no additional data and a message of at most one byte that block
  is one of them (`CcmBlocks.FirstBlockIsCounterIff`).
- `tcp_socket_register` of a used socket is sound exactly when nothing was waiting to be sent
  (`TcpRuns.RegisterIsSoundIff`, `TcpRuns.StaleRegisterAborts`).
- `mmem_alloc` for a handle in use keeps the memory packed exactly when its block is empty
  (`MmemSpec.AllocKeepsIff`).
- Unregistering a callback hides those behind it from the dispatch
  (`EvprocSpec.UnregisterReachesAllIff`), and a second `evproc_init` keeps the number of waiting
  events but not the events (`Evproc.Processor.Init`).
- An expired event timer leaves the list even when its event finds no room in the queue
  (`EtimerSpec.AllQueuedIffRoom`).
- Without callbacks, the loop of `rt_tmr_update` ends exactly when no periodic timer that is due has a
  period beyond the end of the tick counter (`RtTmrRuns.LoopEndsIff`).

Where a comment and the code differ, the model follows the code: `timer_expired` asks for more
than the interval to have passed, `memb_allocm` with n <= 0 returns the first free block without
marking it, and `evproc_nextEvent` never reports an unknown type, because that code is not 0.

Words are modelled with their widths where they matter: bit-vectors for bytes, checksums, masks and
keys; explicit remainders for 8-bit positions, 16-bit samples and 32-bit ticks. I/O, clocks and calls
into other modules are parameters: the block cipher in CCM*, the tick in the timers, the flags of uIP
in the TCP socket, what callbacks do as functions of the call.

## Model

| member | source | states |
|---|---|---|
| Crc.Crc16Update | utils/src/crc.c:129-145 | The bit loop over one byte is eight steps of the 16-bit shift register, the byte added to the upper half first |
| Crc.Crc16UpdateN | utils/src/crc.c:147-156 | Over a message the register ends in the value of the CRC of the message from the start value |
| Crc.Crc16Calc | utils/src/crc.c:158-169 | The CRC of the whole message from the initial value |
| Crc.Crc32Update | utils/src/crc.c:180-184 | One table step gives the next 32-bit register |
| Crc.Crc32UpdateN | utils/src/crc.c:187-197 | Over a message the register ends in the CRC-32 of the message from the start value |
| Crc.Crc32Calc | utils/src/crc.c:199-217 | The frame check sequence: start value and final complement included |
| Crc.EntryIsRemainder | utils/src/crc.c:54-120 | Every one of the 256 table entries is the remainder of its index times x^32 by the CRC-32 polynomial |
| Crc.Crc16IsTheRemainder | utils/src/crc.c:129-156 | For every message and start value the CRC-16 is the one remainder of the message times x^16 (with the start value added in front) by the generator, and nothing else is |
| Crc.Crc32IsTheRemainder | utils/src/crc.c:180-197 | The same for the table-driven CRC-32 and 0x04c11db7: the fast form is bitwise polynomial division |
| Crc.Crc16Concat | utils/src/crc.c:147-156 | Updating over a concatenation is updating over the parts, one after the other |
| Crc.Crc32Concat | utils/src/crc.c:187-197 | The same for the CRC-32 |
| Crc.Crc16DetectsBurst | utils/src/crc.c:129-156 | Two messages of one length, of any length, that differ but only within 16 consecutive bits have different CRC-16s |
| Crc.Crc32DetectsBurst | utils/src/crc.c:180-197 | The same for 32 consecutive bits and the CRC-32 |
| Crc.Crc16SelfCheck | utils/src/crc.c:129-156 | A message followed by two bytes has CRC 0 exactly when the two bytes are its CRC |
| CrcCheck.Poly16Terms | utils/src/crc.c:129-145 | The generator of the CRC-16 is x^16 + x^12 + x^5 + 1, term by term |
| CrcCheck.Poly32Terms | utils/src/crc.c:54-120 | The generator of the CRC-32 has exactly the terms of 0x04c11db7, down to 1 |
| CrcCheck.CheckValues | utils/src/crc.c:129-217 | The CRC-16 of the digits 1 to 9 is 0x31c3 and their 32-bit checksum 0xfc891918, as catalogues of CRCs list them: start values and final complement included |
| Phy.InsertCrc | emb6/src/phy/phy_802154.c:497-518 | The frame check sequence of either size is written right behind the payload, the rest of the buffer stays |
| Phy.InsertHdr | emb6/src/phy/phy_802154.c:461-489 | The two header bytes with length and FCS bit are written right in front of the payload |
| Phy.Send | emb6/src/phy/phy_802154.c:234-279 | What is handed to the radio is exactly header, payload and frame check sequence; an empty packet is refused |
| Phy.Recv | emb6/src/phy/phy_802154.c:288-436 | The parser delivers or rejects every byte string as the specification says, with the right error |
| Phy.RoundTrip | emb6/src/phy/phy_802154.c:234-436 | Receiving what was sent delivers the very payload exactly when payload and FCS fit the 2047 bytes of a PSDU, and is refused as badly formatted otherwise |
| Phy.DeliveredWasSent | emb6/src/phy/phy_802154.c:288-436 | Conversely, a frame with clear reserved bits that is delivered is byte for byte the frame the sender makes of the delivered payload |
| Phy.BurstRejected | emb6/src/phy/phy_802154.c:361-397 | A frame whose PSDU is hit, not within its header, by a burst no longer than the FCS is rejected with a checksum error, if the payload is long enough to need no padding |
| Phy.ShortPayloadMistaken | emb6/src/phy/phy_802154.c:547-566 | For every payload of one to three bytes there is a 32-bit burst that turns its frame with the 32-bit FCS into the frame of another payload, which is delivered |
| Phy.BurstsRejectedIff | emb6/src/phy/phy_802154.c:361-397 | All bursts no longer than the FCS are rejected exactly when the FCS has 16 bits or the payload is empty or has at least 4 bytes |
| Phy.PktLenOfFrame | emb6/src/phy/phy_framer_802154.c:51-80 | The header-only parser finds the PSDU length of every frame the sender makes |
| Phy.ParsersAgree | emb6/src/phy/phy_framer_802154.c:51-80 | The two parsers accept the same whole frames, but for the reserved bits that only one looks at |
| Phy.PktLenOfHeader | emb6/src/phy/phy_framer_802154.c:51-80 | For every string, also for the two header bytes alone: the eleven length bits, and 0 exactly when a reserved bit is set or the length is below that of the FCS announced |
| Phy.ErrorOf | emb6/src/phy/phy_802154.c:288-436 | Which error, or which payload, every received string gives, said of its bytes |
| Phy.FrameBytes | emb6/src/phy/phy_802154.c:234-279 | Where length, FCS bit, payload and FCS stand in a frame, and in which order of bytes; over payload and 16-bit FCS the CRC is 0 |
| RtTmr.TimerList.FindPlace | utils/src/rt_tmr.c:76-88 | The search stops at the first timer that is not earlier, or at the end |
| RtTmr.TimerList.Link | utils/src/rt_tmr.c:68-113 | The timer is inserted in order; forward and backward walks stay each other's reverse and the quantity stays the length |
| RtTmr.TimerList.Unlink | utils/src/rt_tmr.c:119-149 | The timer is taken out and its links cleared; all the other timers keep their order |
| RtTmr.TimerList.constructor | utils/src/rt_tmr.c:154-160 | The empty list, with the tick at 0 |
| RtTmr.TimerList.Create | utils/src/rt_tmr.c:171-187 | Only an initial or stopped timer with a period is set up; nothing else changes |
| RtTmr.TimerList.Start | utils/src/rt_tmr.c:196-211 | A created or stopped timer gets a counter one period ahead, is linked in order and runs |
| RtTmr.TimerList.Stop | utils/src/rt_tmr.c:219-228 | A running timer is unlinked; in any case the timer is stopped |
| RtTmr.TimerList.Update | utils/src/rt_tmr.c:281-313 | The loop ends although callbacks create, start and stop timers, and then no linked timer is due; the resulting state, the history of expiries and the number of callbacks made are those of the specification, of which RtTmrCalls says what the callbacks do |
| RtTmrSpec.DoKeeps | utils/src/rt_tmr.c:171-228 | Every API call keeps the list well formed (counters in order, linked if and only if running) and touches no timer but its own |
| RtTmrSpec.Rounds | utils/src/rt_tmr.c:290-312 | The number of due timers falls lexicographically in every round, so the loop ends, with every linked counter above the tick |
| RtTmrSpec.ExpireLowersDue | utils/src/rt_tmr.c:293-309 | One round takes exactly the head timer out of the set of due timers |
| RtTmrRuns.PeriodicIsExact | utils/src/rt_tmr.c:281-313 | Over every run of calls, callbacks and ticks a periodic timer left running expires at its counter and once every period after, at exactly these ticks |
| RtTmrRuns.OneShotIsExact | utils/src/rt_tmr.c:281-313 | A one-shot timer left alone expires once, at its counter, and is stopped from then on |
| RtTmrRuns.StartView | utils/src/rt_tmr.c:196-211 | Starting a timer at tick t puts its first expiry at t plus its period |
| RtTmrRuns.RunIsTicks | utils/src/rt_tmr.c:281-313 | For a timer that nobody touches a run is nothing but its ticks |
| RtTmrCalls.RoundMakesCall | utils/src/rt_tmr.c:293-311 | One round makes one callback if the expired timer has one and none otherwise, and leaves what the commands of the callback, done one after the other from the expiry on, leave |
| RtTmrCalls.RunMakesCalls | utils/src/rt_tmr.c:281-313 | Over every run there is one callback for every expiry of a timer that has one at that moment, and no other |
| RtTmrCalls.StartedInCallback | utils/src/rt_tmr.c:196-211 | A timer that a callback starts, even the one that has just expired, first expires one period after that tick, and then, if periodic, once every period |
| RtTmrCalls.CreatedTimerExpires | utils/src/rt_tmr.c:171-211 | From the arguments of rt_tmr_create: a timer created with a period and started at a tick expires one period later and, if periodic, once every period after that, each time with the callback it was given or without |
| RtTmrCalls.StoppedNeverExpires | utils/src/rt_tmr.c:219-228 | A timer that is stopped and left alone never expires |
| RtTmrRuns.LoopEndsIff | utils/src/rt_tmr.c:290-312 | Without callbacks, the loop ends exactly when no linked periodic timer whose time has come has a period that reaches beyond the end of the tick counter |
| RtTmrRuns.WrappedTimerSpins | utils/src/rt_tmr.c:290-312 | Where such a timer is linked, among any others, the head is due after any number of rounds |
| SlipDriver.Driver.InputByte | demo/extif/slip.c:303-370 | The byte handler, with the escape, rubbish, overflow and empty-packet branches, and whether a poll is posted |
| SlipDriver.Driver.AddChar | demo/extif/slip.c:329-369 | Storing the byte and closing a packet |
| SlipDriver.Driver.CopyOut | demo/extif/slip.c:178-201 | One copy loop: unescaping, and giving up once the output is too long; the output buffer needs exactly the cells that are written |
| SlipDriver.Driver.CopyPacket | demo/extif/slip.c:172-247 | One copy loop or two, with the escape carried over from one to the other |
| SlipDriver.Driver.PassPacket | demo/extif/slip.c:249-253 | The end of the packet moves on behind the one copied |
| SlipDriver.Driver.ScanPacket | demo/extif/slip.c:254-278 | The next END up to the free cell as it was read is found and announced, and the ring begins behind the packet copied |
| SlipDriver.Driver.PollHandler | demo/extif/slip.c:122-283 | A poll that no interrupt comes into: reset on a client greeting, copy out with one or two loops, move on |
| SlipDriver.SendPacket | emb6/src/net/slip/slip_net.c:38-60 | The sender puts END, the escaped payload and END on the wire |
| SlipRuns.FindEndFinds | demo/extif/slip.c:256-271 | The scan round the ring stops at the first END behind the packet, or at the free cell |
| SlipRuns.InputAppends | demo/extif/slip.c:325-361 | Without overflow or illegal escape a byte goes to the end of the queue; an END closes the first packet if none is closed, and posts a poll |
| SlipRuns.InputDropsEmpty | demo/extif/slip.c:362-366 | An END in an empty ring leaves no trace |
| SlipOverflow.SpoilsIff | demo/extif/slip.c:314-340 | The driver stops listening exactly on a second half of an escape that is none and on a byte for which there is no cell; what it had of the packet under way is dropped |
| SlipOverflow.ListensAgain | demo/extif/slip.c:306-340 | After that it stores nothing and posts nothing until an END, and listens again behind the packet that waits |
| SlipOverflow.RecoversIff | demo/extif/slip.c:314-345 | The packet after that is handed on whole exactly when no packet was waiting for its poll at the overflow |
| SlipOverflow.WaitingCostsByte | demo/extif/slip.c:335-345 | Otherwise the bytes that come are stored over the END of the waiting packet, and the next payload lacks the first byte that was sent for it |
| SlipGreeting.GreetingResetsIff | demo/extif/slip.c:125-142 | A client greeting in an empty ring posts a poll, and the poll resets the driver exactly when the greeting does not reach the end of the ring |
| SlipRuns.PollDrops | demo/extif/slip.c:249-278 | A poll that no interrupt comes into drops the first packet and its END, knows the next packet, and asks for another poll exactly if there is one |
| SlipRuns.ByteCommutesIff | demo/extif/slip.c:254-275 | A byte that arrives during the scan leaves what it would leave just after the poll, exactly when it is not the END of a packet that the scan does not see |
| SlipRuns.ByteBeforeRead | demo/extif/slip.c:249-255 | A byte that arrives before the free cell is read leaves what it would leave just after the poll |
| SlipCopy.CopiedEncoded | demo/extif/slip.c:181-201 | One copy loop leaves the whole payload or, if it is too long, nothing, and writes at most one cell beyond the limit |
| SlipCopy.CopiedTwice | demo/extif/slip.c:202-247 | Two copy loops over a packet cut anywhere, even within an escape: the whole payload or nothing, unless the first loop gives up, and then what the second makes of the rest alone |
| SlipCopy.WholeOrNothingIff | demo/extif/slip.c:202-247 | A packet that goes round the end of the ring is delivered whole or dropped whole exactly unless the first loop gives up and something, not too long, is left behind it |
| SlipCopy.HalfAnEscapeDelivered | demo/extif/slip.c:202-247 | An input of the failing kind: the second half of an escape is delivered alone |
| SlipCopy.WritesFitIff | demo/extif/slip.c:178-247 | All writes of a poll lie within a buffer of the stated length exactly when the payload fits it; one that is too long writes one cell beyond |
| SlipCopy.DeliveredAcrossEnd | demo/extif/slip.c:202-247 | What a poll hands on of a packet cut in two by the end of the ring, for every cut |
| SlipRuns.DeliversInOrder | demo/extif/slip.c:123-370 | Over every interleaving of bytes and the points of polls, without overflow, without an END too many and without one that a scan misses, the non-empty results are a prefix of the payloads in order, and the bytes waiting plus the bytes to come are the stream of the rest |
| SlipRuns.DeliversEverything | demo/extif/slip.c:123-370 | When all bytes have come and no poll is running or posted, all payloads have been delivered |
| SlipTiming.RoomIsEnough | demo/extif/slip.c:123-370 | For streams with one END after each payload and no other, over every interleaving with room in the ring and no END that a scan misses, the outputs are a prefix of the payloads, and all of them in the end |
| SlipTiming.InBufferIff | demo/extif/slip.c:178-247 | Over every run the polls write within the buffer exactly when every payload handed on fits it |
| SlipStray.StrayIsNotPayload | demo/extif/slip.c:178-247 | With a buffer of at least two bytes, a packet with an END too many in front or behind is never handed on as its payload |
| SlipStray.ExactIffTimely | demo/extif/slip.c:123-370 | With room in the ring and a buffer of at least two bytes: in the end the outputs are the payloads sent exactly when no END came right behind the END of a packet not yet copied, and none closed a packet behind a scan that found nothing |
| SlipLost.MissedEndMerges | demo/extif/slip.c:249-278 | An input of the second kind: one END per frame, room and no early END, but one END during a scan, and two payloads are delivered as one |
| SlipStray.TinyBufferCoincides | demo/extif/slip.c:202-247 | With a smaller buffer a packet with a stray END can, by coincidence, be handed on as its payload |
| SlipRuns.LatePollSpoils | demo/extif/slip.c:348-361 | The usual case of an early END: when the END in front of a frame comes before the poll of the packet before it, the next payload is delivered with that END in front, for all payloads |
| LinkedList.List.Tail | utils/src/list.c:118-130 | The last item, or none |
| LinkedList.List.Remove | utils/src/list.c:240-264 | The item is taken out wherever it is and its link cleared; otherwise nothing happens |
| LinkedList.List.Add | utils/src/list.c:143-160 | The item ends up once, at the end |
| LinkedList.List.Push | utils/src/list.c:165-175 | The item ends up once, in front |
| LinkedList.List.Chop | utils/src/list.c:186-206 | The last item is taken off |
| LinkedList.List.Pop | utils/src/list.c:218-228 | The first item is taken off |
| LinkedList.List.Length | utils/src/list.c:275-286 | The number of items |
| LinkedList.List.Insert | utils/src/list.c:303-313 | The item goes right behind the given one, or in front |
| Mmem.Allocator.constructor | utils/src/mmem.c:151-156 | All memory available, no block |
| Mmem.Allocator.Alloc | utils/src/mmem.c:82-107 | Fails exactly when the memory left is too small; otherwise the handle is last on the list and gets the first free byte |
| Mmem.Allocator.Memmove | utils/src/mmem.c:124-125 | The bytes move down, overlapping as they may |
| Mmem.Allocator.LowerPointers | utils/src/mmem.c:129-131 | Every pointer behind the freed block is lowered by its size, no other one |
| Mmem.Allocator.Free | utils/src/mmem.c:117-140 | Memory, pointers, list and count of available bytes after a free |
| MmemSpec.AllocKeepsIff | utils/src/mmem.c:82-107 | An allocation keeps the blocks packed exactly when the handle is not in use or its block is empty |
| MmemSpec.FreeKeeps | utils/src/mmem.c:117-140 | After a free the blocks tile the used memory again, in list order |
| MmemSpec.FreeKeepsContents | utils/src/mmem.c:117-140 | A free leaves the bytes of every other block as they were, read through the updated pointer |
| MmemSpec.NothingIsLost | utils/src/mmem.c:82-140 | Block sizes and available memory add up to the whole |
| MmemRuns.AllocSucceedsIff | utils/src/mmem.c:82-88 | An allocation succeeds exactly when the blocks in use leave room for it |
| MmemRuns.RunKeepsBytes | utils/src/mmem.c:82-140 | After every run the blocks tile the used memory without gap or overlap, nothing is lost, and a handle that is not freed reads what its own writes put there |
| Ccm.SetIv | utils/src/ccm-star.c:50-60 | The block of flags, nonce and counter |
| Ccm.XorBytes | utils/src/ccm-star.c:76-118 | The inner loops: one buffer is added to another until either ends |
| Ccm.CtrStep | utils/src/ccm-star.c:63-79 | Sixteen bytes, or what is left, are added to the key stream block of the counter; CcmBlocks.CtrBytes says which block that is |
| Ccm.MacLoop | utils/src/ccm-star.c:103-121 | A loop with an 8-bit position runs the block cipher over all chunks, the last one short |
| Ccm.AddLengthBlock | utils/src/ccm-star.c:95-101 | The block with the length of a and its first 14 bytes |
| Ccm.ComputeMic | utils/src/ccm-star.c:81-127 | The MIC of sections 2.2 and 2.3 of RFC 3610, for every block cipher and every length in range, wherever message, a and result lie |
| Ccm.ComputeCtr | utils/src/ccm-star.c:129-141 | Every byte is added to its own byte of the key stream, once, in ceil(m_len / 16) rounds; CcmBlocks.CtrBytes says which byte that is |
| Ccm.Aead | utils/src/ccm-star.c:149-171 | Forward and backward: what message and MIC hold afterwards, also as parts of one buffer, and that nothing else is touched; byte by byte in CcmBlocks.ForwardBytes and CcmBlocks.BackwardBytes |
| Ccm.MacFromIsCbcMac | utils/src/ccm-star.c:103-121 | A short last chunk does what padding with zeros to a block does |
| Ccm.MacOfAuthBlocks | utils/src/ccm-star.c:92-122 | The loops compute the CBC-MAC of B_0, the length-prefixed padded a and the padded m |
| Ccm.AeadRoundTrip | utils/src/ccm-star.c:149-171 | Backward after forward restores the message and gives the same MIC |
| Ccm.FormattingIsPrefixFree | utils/src/ccm-star.c:92-122 | No formatted and padded input is a prefix of another one: nonce, m, a and MIC length are determined by the blocks |
| CcmBlocks.CtrBytes | utils/src/ccm-star.c:63-79 | Byte k of the message is added to byte k % 16 of the cipher of the block 1, nonce, 0, 1 + k / 16 |
| CcmBlocks.MicBytes | utils/src/ccm-star.c:81-127 | The MIC is the CBC-MAC added to the cipher of the block 1, nonce, 0, 0 |
| CcmBlocks.ForwardBytes | utils/src/ccm-star.c:149-171 | What encryption leaves, byte by byte, with all blocks written out |
| CcmBlocks.BackwardBytes | utils/src/ccm-star.c:149-171 | The same for decryption: the MIC is that of the plain message |
| CcmBlocks.CountersDiffer | utils/src/ccm-star.c:50-60 | No two counter blocks of a message are equal |
| CcmBlocks.FirstBlockIsCounterIff | utils/src/ccm-star.c:46-60 | B_0 is a counter block in use exactly for a MIC of 2 or 3 bytes, no additional data and a message of at most one byte |
| CcmBlocks.BlocksBytes | utils/src/ccm-star.c:103-121 | Where each byte of the message stands in its blocks, and zeros behind |
| CcmBlocks.AuthHead | utils/src/ccm-star.c:92-112 | Byte by byte, the blocks in front of those of the message: flags, nonce and length, then the length of a and a |
| CcmBlocks.MacOfLast | utils/src/ccm-star.c:103-121 | The CBC-MAC from its other end: the last block is added to the MAC of the blocks before it, and enciphered |
| Ccm.AuthFlagsFields | utils/src/ccm-star.c:46 | The flags byte has the fields of section 2.2 of RFC 3610 |
| Ccm.MessageLoopEnds | utils/src/ccm-star.c:113-140 | The message loops end exactly for m_len <= 240 |
| Ccm.AdataLoopEnds | utils/src/ccm-star.c:103-110 | The loop over a ends exactly for a_len <= 254 |
| Aes.Mul2IsStep | utils/src/aes-128.c:71-76 | galois_mul2 is multiplication by x modulo x^8 + x^4 + x^3 + x + 1 |
| Aes.Mul2IsProduct | utils/src/aes-128.c:71-76 | It is the product by 2 of section 4.2 of FIPS 197, and with an addition the product by 3 |
| Aes.SboxIsFips | utils/src/aes-128.c:49-65 | Every entry of the table is the affine transformation of the inverse in the field |
| Aes.SboxInjective | utils/src/aes-128.c:49-65 | No value occurs twice in the table |
| Aes.Driver.AddKey | utils/src/aes-128.c:106-108 | AddRoundKey of section 5.1.4 |
| Aes.Driver.ByteSub | utils/src/aes-128.c:112-114 | SubBytes of section 5.1.1 |
| Aes.Driver.ShiftRow | utils/src/aes-128.c:117-134 | ShiftRows of section 5.1.2, in place |
| Aes.ShiftRowsRotates | utils/src/aes-128.c:117-134 | Row r is rotated by r columns |
| Aes.Driver.MixOne | utils/src/aes-128.c:139-159 | One column, in place, becomes its product by the matrix |
| Aes.MixedColumn | utils/src/aes-128.c:139-159 | The three additions and the doubling per byte are the matrix rows 2 3 1 1, 1 2 3 1, 1 1 2 3, 3 1 1 2 |
| Aes.Driver.MixColumnLoop | utils/src/aes-128.c:137-160 | MixColumns of section 5.1.3 |
| Aes.Driver.Encrypt | utils/src/aes-128.c:99-167 | The state becomes the cipher of section 5.1 of FIPS 197 under the schedule in round_keys, which AesInverse.InvCipherUndoes and AesVector.CipherOfExample fix from outside |
| Aes.Driver.SetKey | utils/src/aes-128.c:78-97 | round_keys becomes the key expansion of section 5.2 |
| Aes.NextRoundKey | utils/src/aes-128.c:87-96 | One turn of the loop computes the next four words of the expansion |
| Aes.MixColumnInjective | utils/src/aes-128.c:137-160 | The matrix loses no column |
| Aes.CipherInjective | utils/src/aes-128.c:99-167 | Under every key schedule different blocks are encrypted differently |
| AesInverse.InvCipherUndoes | utils/src/aes-128.c:99-167 | Under every key schedule, the inverse cipher of section 5.3 of FIPS 197 gets every block back |
| AesInverse.InvMixColumnUndoes | utils/src/aes-128.c:137-160 | The matrix with rows 0e 0b 0d 09 and so on undoes one column |
| AesInverse.InvSboxUndoes | utils/src/aes-128.c:49-65 | The inverse S-box undoes the table |
| AesInverse.InvShiftRowsRotates | utils/src/aes-128.c:117-134 | The inverse row shift moves row r back by r columns |
| AesVector.ExpansionOfExample | utils/src/aes-128.c:78-97 | For the key of appendix B of FIPS 197 the expansion gives the eleven round keys of appendix A |
| AesVector.CipherOfExample | utils/src/aes-128.c:78-167 | Schedule and cipher together turn the block of appendix B into its ciphertext, round by round |
| TcpSocket.Socket.Send | emb6/src/sock/tcp-socket.c:337-359 | As much as fits is appended to the output buffer; the rest of the state |
| TcpSocket.Socket.SendData | emb6/src/sock/tcp-socket.c:61-71 | At most a segment from the front of the buffer is given to uIP |
| TcpSocket.Socket.Acked | emb6/src/sock/tcp-socket.c:73-101 | The bytes last sent leave the buffer; or the abort branch |
| TcpSocket.Socket.CopyDown | emb6/src/sock/tcp-socket.c:80-84 | The overlapping copy, as a move |
| TcpSocket.Socket.NewData | emb6/src/sock/tcp-socket.c:103-133 | The application gets the chunks of the segment, all of it and in order (TcpInput.RunReceives) |
| TcpSocket.Socket.AppCall | emb6/src/sock/tcp-socket.c:143-237 | All branches of the call from uIP for a connection of this socket, in order; what the application gets and is told of it over runs in TcpInput |
| TcpSocket.Socket.Register | emb6/src/sock/tcp-socket.c:257-283 | The fields set, and the two that are not |
| TcpSpec.ChunksAreTheSegment | emb6/src/sock/tcp-socket.c:117-132 | The chunks put together are the segment, all of them full but the last |
| TcpSpec.NewDataEnds | emb6/src/sock/tcp-socket.c:117-132 | The loop ends exactly when the input buffer has room or there is nothing to copy |
| TcpInput.RunReceives | emb6/src/sock/tcp-socket.c:103-237 | Over every run the application has received what it had, followed by the data of all the segments that came in for the socket, in order, nothing left out or doubled, in pieces no longer than the input buffer |
| TcpInput.CallOutcome | emb6/src/sock/tcp-socket.c:190-237 | The events of a call in their order, and the end of the connection: closed exactly when asked and empty, given up, listening again |
| TcpInput.ConnectedOutcome | emb6/src/sock/tcp-socket.c:151-187 | A new connection is announced once and its segment size taken over |
| TcpInput.TrafficSends | emb6/src/sock/tcp-socket.c:206-219 | A call sends once, from what the acknowledgement has left, exactly when it is one that sends and there is something to send |
| TcpInput.EventTakes | emb6/src/sock/tcp-socket.c:337-359 | Of what the application answers to an event, as much as fits is accepted |
| TcpInput.RegisteredStartsAnew | emb6/src/sock/tcp-socket.c:257-283 | A socket registered with nothing under way has its whole buffer free, sends the new stream from its first byte, and does not listen again |
| TcpRuns.AckedKeeps | emb6/src/sock/tcp-socket.c:73-101 | An acknowledgement drops the bytes last offered from the front of the buffer and never takes the abort branch |
| TcpRuns.ClosesWhenAllIsDropped | emb6/src/sock/tcp-socket.c:221-229 | The socket closes on its own only with every accepted byte dropped from the buffer |
| TcpRuns.RunKeeps | emb6/src/sock/tcp-socket.c:61-359 | Over every run: dropped bytes followed by the buffer are the accepted bytes, send_nxt <= senddata_len <= data_len <= maxlen, every segment offered carries the accepted bytes of its place by the count of the socket, no abort |
| TcpLink.InStepIff | emb6/src/sock/tcp-socket.c:73-101 | Over every run, the bytes dropped are always those the peer has acknowledged, exactly when every acknowledgement finds the segment last offered as long as the outstanding one |
| TcpLink.SyncedIff | emb6/src/net/ipv6/uip6.c:2121-2166 | Over every run, socket and connection agree on what is outstanding exactly when every transmission meanwhile offers a segment of the same length; then all that goes on the wire are bytes of the stream at their place |
| TcpLink.SegmentRightIff | emb6/src/net/ipv6/uip6.c:2145-2166 | A segment on the wire has the bytes of its place exactly when the socket offers at least what is outstanding |
| TcpLink.ClosesAcknowledgedIff | emb6/src/sock/tcp-socket.c:221-229 | When the socket closes on its own, the peer has acknowledged every accepted byte exactly when the counts of socket and connection agree |
| TcpWindow.GrowingWindowLoses | emb6/src/sock/tcp-socket.c:61-101 | A run that fails: the window grows while a byte is outstanding, its acknowledgement drops two, and the socket closes although the second was never sent |
| TcpWindow.ShrinkingWindowShifts | emb6/src/sock/tcp-socket.c:61-101 | A run that fails: the window shrinks while two bytes are outstanding, and a byte is sent again at the place of the next one |
| TcpRuns.BufferDrains | emb6/src/sock/tcp-socket.c:61-101 | With one segment size, transmission and acknowledgement, repeated, get every accepted byte out of the buffer |
| TcpRuns.RegisterIsSoundIff | emb6/src/sock/tcp-socket.c:257-283 | Registering a used socket keeps the invariant exactly when nothing was waiting to be sent |
| TcpRuns.StaleRegisterAborts | emb6/src/sock/tcp-socket.c:257-283 | Otherwise the first acknowledgement aborts exactly when a transmission was under way |
| Evproc.Processor.PutEvent | utils/src/evproc.c:408-480 | Head, tail and immediate execution, with the full queue and the duplicate; EvprocRuns.PutOutcome says what becomes of the event |
| Evproc.Processor.PushFront | utils/src/evproc.c:450-459 | The queue shifted by one with the event in front |
| Evproc.Processor.NextEvent | utils/src/evproc.c:487-518 | The last event leaves the queue and its callbacks run |
| Evproc.Processor.ProcessEvent | utils/src/evproc.c:195-237 | The callbacks in front of the first empty slot run, each once, in order, with the event; an unknown type runs none |
| Evproc.Processor.LookupEvent | utils/src/evproc.c:251-264 | Whether the event is queued |
| Evproc.Processor.RegCallback | utils/src/evproc.c:287-361 | The row after a registration and the result code |
| Evproc.Processor.UnregCallback | utils/src/evproc.c:368-401 | The row after an unregistration and the result code |
| Evproc.Processor.Init | utils/src/evproc.c:152-180 | A further initialisation turns the waiting events into events of no type and keeps their number |
| EvprocSpec.RunKeeps | utils/src/evproc.c:408-518 | Over every run: at most 20 events, no event of a type below 16 twice, tail events come out first in first out whatever is put at the head, none is lost or doubled |
| EvprocRuns.PutOutcome | utils/src/evproc.c:408-480 | For head and tail: refused exactly when 20 events wait; added exactly when there is room and the event is not of a type below 16 and waiting already; once accepted it is in the queue, next out or last |
| EvprocRuns.HeadIsServedNext | utils/src/evproc.c:416-436 | A head event that was added is the next one served |
| EvprocRuns.RunTakes | utils/src/evproc.c:408-518 | Over every run the queue takes exactly the events offered with room, but for such duplicates, in order |
| EvprocSpec.DispatchedIsPrefix | utils/src/evproc.c:218-233 | The callbacks that run are those in front of the first empty slot |
| EvprocRuns.RegisterOutcome | utils/src/evproc.c:312-347 | The result code tells a callback registered already from a full row; otherwise the first empty slot gets the callback |
| EvprocRuns.RegisteredRunsLast | utils/src/evproc.c:312-347 | Where no callback is behind a hole, a new one runs after all the others |
| EvprocRuns.UnregisterOutcome | utils/src/evproc.c:368-401 | The callback is gone, and no other slot changes |
| EvprocSpec.RegisterKeeps | utils/src/evproc.c:312-347 | Registering keeps the callbacks distinct and reachable |
| EvprocSpec.UnregisterReachesAllIff | utils/src/evproc.c:368-401 | After an unregistration every remaining callback is still reached exactly when the last one was removed |
| Etimer.EventTimers.AddTimer | utils/src/etimer.c:118-123 | The timer ends up once, last, and active |
| Etimer.EventTimers.RequestPoll | utils/src/etimer.c:166-201 | The list keeps exactly the timers not expired, in order; the events of the others are put at the tail; active if and only if listed |
| Etimer.EventTimers.Set | utils/src/etimer.c:208-221 | Interval and start; last on the list; the callback is registered for the expiry event |
| Etimer.EventTimers.Stop | utils/src/etimer.c:228-236 | Off the list and inactive |
| Etimer.EventTimers.Reset | utils/src/etimer.c:243-251 | The start moves on by the interval, modulo 2^32 |
| Etimer.EventTimers.Restart | utils/src/etimer.c:258-266 | The start is now |
| Etimer.EventTimers.TimerExpired | utils/src/timer.c:118-135 | Expired means that the ticks since the start, modulo 2^32, exceed the interval |
| EtimerSpec.ExpiredAfterInterval | utils/src/timer.c:118-135 | A timer has expired from the first tick after its interval on, across the wrap of the counter |
| EtimerSpec.ResetKeepsPhase | utils/src/timer.c:83-86 | After timer_reset of an expired timer the elapsed time is what had passed since the expiry: no drift |
| EtimerSpec.KeptIsNotDue | utils/src/etimer.c:178-199 | A timer stays on the list exactly if it has not expired |
| EtimerSpec.AllQueuedIffRoom | utils/src/etimer.c:184-191 | Every expired timer's event gets into the queue exactly when there is room for those not yet in it |
| EtimerSpec.QueuedInOrder | utils/src/etimer.c:178-199 | With room, the events wait behind the others in list order |
| RingBufIndex.Ring.constructor | utils/src/ringbufindex.c:49-55 | An empty ring; a size of 0 stands for 256 |
| RingBufIndex.Ring.Put | utils/src/ringbufindex.c:57-74 | Refused exactly when full; otherwise the index moves on round the ring |
| RingBufIndex.Ring.PeekPut | utils/src/ringbufindex.c:77-87 | The next slot, or -1 when full |
| RingBufIndex.Ring.Get | utils/src/ringbufindex.c:89-111 | The index of the element removed, or -1 when empty |
| RingBufIndex.Ring.PeekGet | utils/src/ringbufindex.c:114-125 | The index of the first element, or -1 |
| RingBufIndex.Ring.Elements | utils/src/ringbufindex.c:133-137 | The distance from get to put round the ring |
| RingBufIndex.Ring.Full | utils/src/ringbufindex.c:139-143 | One slot short of the size |
| RingBufIndex.Ring.Empty | utils/src/ringbufindex.c:145-149 | No element |
| RingBufIndex.MaskedIsBetween | utils/src/ringbufindex.c:69-120 | For every power of two the masked 8-bit difference is that distance |
| RingBufRuns.ReceivedIsPrefix | utils/src/ringbufindex.c:57-125 | However the single reads and writes of producer and consumer interleave: received values are a prefix of those stored, put and get never fail after a successful peek, and while the producer may write its slot the consumer reads another one |
| RingBufRuns.EveryRunIsSafe | utils/src/ringbufindex.c:49-125 | The same for every run from an empty ring of any size |
| Memb.Pool.constructor | utils/src/memb.c:50-55 | All counts 0 |
| Memb.Pool.Alloc | utils/src/memb.c:57-75 | The lowest free block, or NULL exactly when there is none |
| Memb.Pool.AllocMany | utils/src/memb.c:77-118 | The lowest run of n free blocks, in spite of the skipping search, or NULL exactly when there is none |
| Memb.Pool.Free | utils/src/memb.c:120-142 | The count of the block at the address falls, if it is not 0; -1 exactly when there is no such block |
| Memb.Pool.FreeMany | utils/src/memb.c:144-172 | The same for n blocks |
| Memb.Pool.InMemb | utils/src/memb.c:174-179 | True exactly for the addresses within one of the blocks |
| Memb.Pool.CountFree | utils/src/memb.c:181-194 | The number of free blocks |
| Memb.ReleasedTaken | utils/src/memb.c:77-172 | Freeing the blocks just allocated restores all counts |
| Memb.TakenNumFree | utils/src/memb.c:77-194 | An allocation of n blocks lowers the number of free blocks by n |
| Packetbuf.Packet.CopyFrom | utils/src/packetbuf.c:87-98 | No header, and as data the first 128 bytes given |
| Packetbuf.Packet.Compact | utils/src/packetbuf.c:99-111 | The gap closes; header and data stay |
| Packetbuf.Packet.CopyTo | utils/src/packetbuf.c:113-122 | Header and data, without the gap; a length set too high is refused |
| Packetbuf.Packet.HdrAlloc | utils/src/packetbuf.c:124-139 | Refused exactly when it does not fit; otherwise the header grows in front, old header and data stay |
| Packetbuf.Packet.HdrReduce | utils/src/packetbuf.c:141-151 | Bytes leave the front of the data |
| Packetbuf.Packet.FtrAlloc | utils/src/packetbuf.c:158-168 | The data grows at its end, if it fits |
| Packetbuf.Packet.FtrReduce | utils/src/packetbuf.c:170-179 | Bytes leave the end of the data |
| Queuebuf.Queue.NewFromPacketbuf | utils/src/queuebuf.c:308-368 | A new queuebuf holds header, data and attributes; NULL exactly when a pool is used up; all other queuebufs stay |
| Queuebuf.Queue.UpdateFromPacketbuf | utils/src/queuebuf.c:382-393 | One queuebuf gets a new snapshot, all others stay |
| Queuebuf.Queue.UpdateAttrFromPacketbuf | utils/src/queuebuf.c:370-380 | One queuebuf gets new attributes |
| Queuebuf.Queue.Free | utils/src/queuebuf.c:395-417 | One queuebuf goes, all others stay; freeing one that is not in use, or an address outside the pool, does no harm |
| Queuebuf.LowestAgree | utils/src/queuebuf.c:308-368 | The two pools move in step: the lowest free queuebuf and the lowest free data block have the same number, as long as there is a free data block |
| Queuebuf.Queue.ToPacketbuf | utils/src/queuebuf.c:419-427 | The packet buffer gets back what was stored |
| Queuebuf.Freeing | utils/src/queuebuf.c:395-417 | Live queuebufs never share a data block: freeing one keeps the blocks of all the others |
| Queuebuf.SnapshotSurvives | utils/src/queuebuf.c:308-427 | After any run of operations on the packet buffer and on all other queuebufs, in use before or allocated later, restoring a queuebuf brings back the payload and the attributes it was made of |
| LinkStats.Neighbour.PacketSent | emb6/src/net/link-stats.c:134-168 | The statistics after a transmission, with the 16-bit widths |
| LinkStats.Neighbour.PacketReceived | emb6/src/net/link-stats.c:189-191 | The average of the signal strength, with the quotient cut towards 0; it lies between the old value and the sample |
| LinkStats.ThreeAgingsAreStale | emb6/src/net/link-stats.c:94-101 | Three agings without a transmission make even the freshest statistics stale |
| LinkStats.Neighbour.GuessEtxFromRssi | emb6/src/net/link-stats.c:103-130 | The guess lies between one and three transmissions |
| LinkStats.GuessAntitone | emb6/src/net/link-stats.c:103-130 | A stronger signal never gives a worse guess |
| LinkStats.GuessIs | emb6/src/net/link-stats.c:103-130 | The guess for every signal strength: 128 over a reception ratio that rises linearly from -90 to -60, within one and three transmissions |
| LinkStats.EwmaBetween | emb6/src/net/link-stats.c:165-167 | The average lies between the old value and the sample |
| LinkStats.ConvergesFromAbove | emb6/src/net/link-stats.c:165-167 | Under a constant sample the average reaches it from above, whatever the weights |
| LinkStats.ConvergesFromBelow | emb6/src/net/link-stats.c:165-167 | From below it comes to within 6 of it and stays there |
| LinkStats.SixShortForEver | emb6/src/net/link-stats.c:165-167 | It can stay 6 short for ever |
| LinkStats.EwmaRisesIff | emb6/src/net/link-stats.c:165-167 | The average rises exactly when it is at least 7 short, or 4 with the larger weight |
| LinkStats.EtxStaysInRange | emb6/src/net/link-stats.c:134-168 | With one to ten transmissions a packet the ETX stays within one to ten transmissions over every run |
| LinkStats.SentOutcome | emb6/src/net/link-stats.c:134-168 | An acknowledged packet counts for its own transmissions, another one for ten; old value and sample weigh 85 and 15 for fresh statistics, 70 and 30 for others, rounded down; time and freshness move |
| LinkStats.FreshAfterFour | emb6/src/net/link-stats.c:94-101 | Four transmissions in a row make statistics fresh until the expiration time after the last one |

## Left out

- The PHY framer without IEEE 802.15.4g and with hardware checksums; reading the FCS out of a received frame is modelled as big-endian, which is what the code does on a host where its conversions apply.
- RtTmr.TimerList.Update: no sum of the tick and a period wraps, because the code compares raw counters; `rt_tmr_delay`, a busy wait, is not modelled, and the quantity of timers is unbounded.
- RtTmr callbacks run commands that depend on how many callbacks have run, given by an oracle; a callback that changes timer fields without the API is not covered.
- SlipRuns.DeliversInOrder: no overflow and no illegal escape in these runs; what they cost is in SlipOverflow.
- SlipOverflow.RecoversIff: the packet that waits is polled after the next payload has come. Polled earlier, its scan goes once round the ring, over cells of earlier packets.
- SlipRuns, SlipTiming and SlipStray: a poll event that is posted finds room in the event queue, which drops it when 20 events wait; a client greeting and the driver's reset on it happen in one step. The two assignments at the end of a scan that has found a packet count as one, because an interrupt between them finds a packet announced either way.
- SlipDriver.SendPacket: a length of 65536 or more, which the 16-bit counter of the loop never reaches.
- SLIP: the answer to a MAC address request, an optional build, and the text sent to a client program.
- Aes: the padding of short keys in `aes_128_set_padded_key`.
- TcpSocket.Socket.AppCall: the search for a listening socket for a new incoming connection, and sends by the input callback; the connection functions of uIP appear as a history of calls.
- TcpLink: the bytes that uIP's buffer holds from before, with which it fills up a segment that is too short; what happens to a connection after its FIN.
- Evproc: callbacks that register or unregister callbacks while a dispatch runs; the state before the first `evproc_init`.
- Etimer: `etimer_nextEvent`, which compares raw expiry times and takes 0 for none, and `etimer_adjust`.
- Mmem: `mmem_free` of a handle that is not on the list.
- Memb.Pool.constructor: the clearing of the blocks' bytes in `memb_init`; counts are unbounded numbers, but never exceed 1.
- Queuebuf.SnapshotSurvives: operations that read a packet whose length packetbuf_set_datalen has set beyond the buffer.
- Queuebuf.Queue.ToPacketbuf, Queuebuf.Queue.UpdateFromPacketbuf and Queuebuf.Queue.UpdateAttrFromPacketbuf: only queuebufs in use, as the others have no data block. Pointers count blocks instead of bytes.
- Queuebuf with swapping to a file system, debugging and statistics; packetbuf's extended attributes.
- RingBufRuns: other orders of calls than peek, access, put or get on each side; memory orders weaker than program order.
- LinkStats: the table of neighbours; one neighbour is modelled. A configured replacement for the initial ETX.
- LinkedList.List.Insert: a new item that is on the list already, given an item to insert behind, because the source does not look for it there and the list becomes a cycle or loses items.
- `list_copy` and `list_item_next` of `utils/src/list.c`, as trivial members.
- Everything else in the repository: radio and serial drivers, uIP, RPL, CoAP, DTLS, the MAC layers and the demonstrations.
