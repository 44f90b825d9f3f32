# Eidolon: verified model of the transport, market, codec and simulation cores

A Dafny model of the parts of Eidolon whose correctness is hardest to see by reading: the
reliable channel, the regional order book, the bit-level replication codecs, the fixed-point
arithmetic and jump physics, the priority queues and SHA-256. `dafny verify dfyconfig.toml`
checks everything.

## How it is modelled

- **Words.** Machine words are ranges of the integers; every wrap, saturation and truncation of
  the source is written out. Bitwise operations are defined one binary digit at a time
  (`Bitwise.dfy`), so a shift or a mask means what the code means by it. SHA-256 alone uses
  32-bit bit-vectors.
- **State.** What the source updates in place is a class over arrays (channel, order book, bit
  writer and reader, ring queue, jump body). Each method is proved equal to a function on values,
  and the properties are proved about those functions over whole runs.
- **Transport.** `Transport.dfy` composes sender, network and receiver into one step system.
  Message i of an unbounded history travels as i modulo 2^16; the network may lose, duplicate and
  reorder packets and acknowledgment headers. A payload array with its length is a byte sequence.
- **Market.** The buy and sell branches of the source differ only by swapping the two sides, so
  the model names the sides "own" and "opposing". The fill-or-kill depth is summed in a 32-bit
  word that wraps, as a release build does.
- **Queues.** The ingress and egress queues have the same fields and the same ring; the model
  has one class with two push methods.
- **Formats.** Round trips alone would accept a codec that permutes two fields on both ends;
  `WireLayout.dfy` gives the number each encoding spells, field by field.
- **Hashes.** The specification follows FIPS 180-4 and RFC 2104, and is tied to the former by its
  constants and its example (`Sha256Vectors.dfy`). A message of n bytes records
  8n modulo 2^64, as the source computes it; for messages the standard covers that is 8n.

## What the proofs found

- A caller that drains everything ready never overflows the reorder buffer exactly when
  ORDERED_CAP >= PENDING_CAP - 1: for every smaller buffer there is a run in which an arrival is
  refused (`BufferNeverFull`, `SmallerBufferRefuses`).
- A receiving caller may take one message a call and drain the rest later. The channel stays in
  order exactly when every arrival of the expected message finds room for it and no copy of it
  still waiting to be drained (`RoomIsExact`). Without room the message is lost for good
  (`LostWithoutRoom`); with a copy waiting, that copy blocks its slot (`CopyLeftBehind`). Outputs
  longer than the reorder buffer avoid both (`LongOutputStaysEmpty`).
- An acknowledgment header sent before anything arrived retires a message nobody received
  (`HeaderNeedsArrival`, `EarlyHeaderForgets`).
- Every message the receiver has not accepted is put in the network again within 33 calls of the
  timetable, or the channel times out (`MissingIsResent`).
- An output shorter than the trades a limit order needs leaves a crossed book, exactly when the
  unfinished order can rest (`OutputNeeded`, with a case in `ShortOutputCrosses`). A whole run
  stays sound exactly when no output of it is that short (`EveryRunKeepsInv`).
- A fill-or-kill order is refused although there is depth exactly when the crossing depth is
  2^32 or more and its low 32 bits fall short of the quantity (`FillOrKillIsAllOrNothing`,
  `WrappedDepthRejects`). With an output too short for its trades it is filled in part and still
  accepted (`FillOrKillExactly`).
- A limit order whose rest finds its own side full, or its identifier taken, is answered with an
  error after its trades have been made and kept (`PlaceExactly`).
- Cancelling an order just rested restores the book unless it is an ask whose identifier a bid
  also carries, because bids are searched first (`CancelUndoesRest`, with a case in
  `ShadowedCancelFails`).
- A body comes to rest, whatever the floor, the speed and the saturation on the way, exactly when
  the time step is not zero or it is not above the floor (`EndsExactlyWhenTimePasses`). A
  standard jump at 20 ticks a second lands at tick 20, far short of the watchdog
  (`StandardJumpLands`, `JumpStaysUp`).
- Requantising a dequantised coordinate is not stable: it loses exactly one step every time,
  except at the two ends of the cell (`AxisRequantized`).
- With `max_retries` 255 the saturating retry counter never exceeds the limit, so the channel
  never times out (`TableSchedule`, `LoneRetrySchedule`).
- Morton codes with bit 63 set decode to an x coordinate of 22 bits and do not re-encode to
  themselves (`EncodeDecode`).
- The backpressure documentation speaks of more than 95 percent utilisation; the code refuses
  unreliable ingress packets at 95 percent already, and the model follows the code
  (`RefusedExactly`).

## Model

| member | source | states |
|---|---|---|
| `Transport.StepKeepsInv` | crates/eidolon-net/src/channel.rs:150-324 | every step of sender, caller (receiving into outputs of any size and draining later), lossy, duplicating and reordering network and receiver keeps the system invariant |
| `Transport.RoomIsExact` | crates/eidolon-net/src/channel.rs:217-324 | an arrival keeps the system invariant iff it is out of turn, or the output has room for it and no copy of it is still waiting to be drained |
| `Transport.DrainEmpties` | crates/eidolon-net/src/channel.rs:288-304 | after a drain call nothing is ready iff its output held everything that was |
| `Transport.LongOutputStaysEmpty` | crates/eidolon-net/src/channel.rs:309-324 | a caller whose outputs are longer than the reorder buffer meets these demands at every arrival: nothing is ever left to drain |
| `Transport.QueueIsEnabled` | crates/eidolon-net/src/channel.rs:150-190 | the bound on undelivered messages holds by itself while what is ready plus the pending table is below 2^15 |
| `Transport.HeaderNeedsArrival` | crates/eidolon-net/src/channel.rs:42-92 | sending an acknowledgment header keeps the invariant iff something was received |
| `Transport.EarlyHeaderForgets` | crates/eidolon-net/src/channel.rs:42-92 | otherwise the first message queued is retired although nobody received it |
| `Transport.DeliveredIsPrefix` | crates/eidolon-net/src/channel.rs:217-324 | at every moment of every run the concatenated outputs are exactly the first `e` messages sent, and everything buffered is at or ahead of `e`, under sequence rollover |
| `Transport.RetiredOnlyIfAccepted` | crates/eidolon-net/src/channel.rs:194-211 | in every run a message is out of the sender's table only if the receiver accepted it |
| `Transport.BufferNeverFull` | crates/eidolon-net/src/channel.rs:217-266 | in every run no arrival is refused when nothing is ready and ORDERED_CAP >= PENDING_CAP - 1, or n messages are ready and ORDERED_CAP >= PENDING_CAP + n |
| `TransportCapacity.SmallerBufferRefuses` | crates/eidolon-net/src/channel.rs:217-266 | the first bound is exact: for every smaller ORDERED_CAP there is a run whose next arrival reports QueueFull |
| `Transport.NeverStuck` | crates/eidolon-net/src/channel.rs:150-324 | while anything is undelivered, either the next message is ready and any drain call delivers it, or it is still pending and any arriving copy of it is delivered |
| `TransportProgress.MissingIsResent` | crates/eidolon-net/src/channel.rs:330-357 | however steps interleave, within 33 calls the channel times out, the receiver accepts a missing message, or a fresh copy of it is put in the network |
| `TransportProgress.AcceptedWithin33` | crates/eidolon-net/src/channel.rs:330-357 | in every run, if the copies of a message that the timetable hands out arrive and are not refused, it is accepted within 33 calls or the channel times out |
| `TransportProgress.DeliveredWithin33` | crates/eidolon-net/src/channel.rs:330-357 | and the next message, unless it is there to be drained already, is delivered |
| `SequenceNumbers.IsNewerIsGreater` | crates/eidolon-net/src/channel.rs:60-66 | circular comparison of wire sequences agrees with the order of the unbounded numbers within 2^15 |
| `AckHistory.IngestTracks` | crates/eidolon-net/src/channel.rs:68-94 | one arrival keeps the acknowledgment header an exact record; the result says whether it is the newest |
| `AckHistory.HistoryIsExact` | crates/eidolon-net/src/channel.rs:68-94 | after any run of arrivals within 2^15 of the highest, bit k is set iff sequence highest-1-k arrived |
| `AckHistory.UnreliableSequencer.ProcessIncomingSequence` | crates/eidolon-net/src/channel.rs:68-94 | the in-place update is one step of that history |
| `AckHistory.UnreliableSequencer.NextSequence` | crates/eidolon-net/src/channel.rs:34-38 | hands out the counter and advances it modulo 2^16 |
| `ReplayWindow.CheckIsExact` | crates/eidolon-net/src/auth.rs:297-333 | a sequence is accepted iff it was never accepted and is above highest-64 (the first packet always is); a refusal changes nothing |
| `ReplayWindow.NeverAcceptedTwice` | crates/eidolon-net/src/auth.rs:297-333 | no run of packets accepts a sequence twice |
| `ReplayWindow.Guard.CheckAndUpdate` | crates/eidolon-net/src/auth.rs:297-333 | the in-place update is that check |
| `ReliableSender.SlotSearchNeverFails` | crates/eidolon-net/src/channel.rs:150-190 | behind an open window an empty slot exists, by the pigeonhole principle on distinct ages |
| `ReliableSender.QueueRefuses` | crates/eidolon-net/src/channel.rs:150-190 | queueing fails, changing nothing, exactly for an oversized payload or when the message PENDING_CAP behind is unacknowledged |
| `ReliableSender.QueueAppends` | crates/eidolon-net/src/channel.rs:150-190 | a success numbers the message and adds it, and only it, to the pending set; entries stay distinct with ages 1..PENDING_CAP |
| `ReliableSender.QueueOutcome` | crates/eidolon-net/src/channel.rs:150-190 | for any sender and payload: too large above 256 bytes, full iff a pending packet is a table length behind or no slot is empty, a refusal changes nothing, and a success takes the first empty slot and the next number with a timer of 4 |
| `ReliableSender.AcknowledgeKeeps` | crates/eidolon-net/src/channel.rs:194-211 | an acknowledgment less than 2^15 stale retires exactly the pending messages it names |
| `ReliableSender.TickKeeps` | crates/eidolon-net/src/channel.rs:330-357 | a retransmission tick hands out only pending messages with their own payloads and retires none |
| `ReliableSender.TickExactly` | crates/eidolon-net/src/channel.rs:338-355 | one tick of one packet in any state: the countdown, the saturating retry count, expiry beyond the limit, and waits of 4, 8, 16 and then 32 calls |
| `ReliableReceiver.DrainNextDelivers` | crates/eidolon-net/src/channel.rs:269-283 | draining one packet delivers message `e` iff it is buffered, and removes only it |
| `ReliableReceiver.DrainDelivers` | crates/eidolon-net/src/channel.rs:288-304 | a drain delivers the next stretch of the sent stream in order |
| `ReliableReceiver.DrainCount` | crates/eidolon-net/src/channel.rs:288-304 | its length is the contiguous buffered run, cut off at the room of the output |
| `ReliableReceiver.ArrivalKeeps` | crates/eidolon-net/src/channel.rs:217-324 | for every output length an arrival adds exactly its message to the accepted ones and delivers the next stretch, iff it is out of turn or has room and no ready copy; it is refused only when it needs a slot and none is empty |
| `ReliableReceiver.ArrivalOutcome` | crates/eidolon-net/src/channel.rs:217-266 | for any receiver, sequence and size: too large above 256 bytes, full iff ahead, not buffered and no slot empty; the expected payload is handed out, one ahead takes the first empty slot, and refusals, duplicates and older sequences change nothing |
| `ReliableReceiver.RefusalChangesNothing` | crates/eidolon-net/src/channel.rs:309-324 | the same for arrival and drain in one call |
| `ReliableReceiver.LostWithoutRoom` | crates/eidolon-net/src/channel.rs:309-324 | without room the expected message is lost: nothing is handed out, the expected sequence moves past it, the buffer is unchanged and every later copy is ignored |
| `ReliableReceiver.CopyLeftBehind` | crates/eidolon-net/src/channel.rs:217-324 | with a copy of it still to be drained, that copy stays in its slot behind the expected sequence, whatever is drained |
| `ReliableReceiver.BufferHasRoom` | crates/eidolon-net/src/channel.rs:217-266 | with n messages ready and the flight below e+n+span, a buffer of n+span slots (span-1 when n is 0) has one for every message it does not hold |
| `ReliableReceiver.RoomNeeded` | crates/eidolon-net/src/channel.rs:309-324 | with nothing ready, after the expected message arrives nothing is ready again iff the output has room for it and the whole buffered run behind it |
| `ReliableReceiver.LongOutputEmpties` | crates/eidolon-net/src/channel.rs:309-324 | an output longer than the reorder buffer always has that room |
| `ReliableReceiver.DrainIsComplete` | crates/eidolon-net/src/channel.rs:288-304 | a drain leaves nothing ready iff its room covered the contiguous run |
| `ReliableChannel.Channel.constructor` | crates/eidolon-net/src/channel.rs:136-147 | a fresh channel is the empty sender and receiver |
| `ReliableChannel.Channel.QueueReliableMessage` | crates/eidolon-net/src/channel.rs:150-190 | in place, the specified queueing step, error cases included |
| `ReliableChannel.Channel.ProcessRemoteAck` | crates/eidolon-net/src/channel.rs:194-211 | in place, the specified acknowledgment of every slot |
| `ReliableChannel.Channel.ReceiveReliablePacket` | crates/eidolon-net/src/channel.rs:217-266 | in place, the specified receive step, error cases included |
| `ReliableChannel.Channel.DrainNextOrderedPacket` | crates/eidolon-net/src/channel.rs:269-283 | in place, the specified single drain |
| `ReliableChannel.Channel.DrainOrderedPackets` | crates/eidolon-net/src/channel.rs:288-304 | in place, the specified drain, written to the output and nowhere else |
| `ReliableChannel.Channel.ReceiveAndDrainOrdered` | crates/eidolon-net/src/channel.rs:309-324 | in place, receive and drain, with the rest of the output untouched |
| `ReliableChannel.Channel.CheckRetransmissions` | crates/eidolon-net/src/channel.rs:330-357 | in place, one call of the specified timetable, with the retried packets in order |
| `ReliableChannel.Channel.OldestPendingSeq` | crates/eidolon-net/src/channel.rs:383-394 | a pending sequence of the greatest age, or none when nothing is pending |
| `RetrySchedule.TableSchedule` | crates/eidolon-net/src/channel.rs:330-357 | call by call for any table: every packet keeps its own timetable whatever else is in the table; the channel has timed out iff some packet has outlived its retries, and a call hands out the due packets up to the first that expires |
| `RetrySchedule.NextRetryWithin33` | crates/eidolon-net/src/channel.rs:343-353 | no unacknowledged packet waits more than 33 calls for its next retry, at any age |
| `RetrySchedule.LoneRetrySchedule` | crates/eidolon-net/src/channel.rs:330-357 | call by call: a lone unacknowledged packet is retried at calls 4, 9, 18, 35 and then every 33, and with m <= 254 retries allowed the channel times out at the next due call and for ever; with 255 never |
| `RetrySchedule.RetriedExactly` | crates/eidolon-net/src/channel.rs:330-357 | and it is retried exactly m times in all |
| `RetrySchedule.TimedOutForever` | crates/eidolon-net/src/channel.rs:334-336 | a timed-out channel stays timed out |
| `Matching.BestIsFirst` | crates/eidolon-core/src/market.rs:315-355 | the slot scan finds the first crossing order by (price, placed tick, slot) |
| `Matching.MatchIsSortedWalk` | crates/eidolon-core/src/market.rs:313-431 | the slot-scanning loop makes exactly the trades of walking the crossing orders sorted by (price, placed tick, slot), cut off after as many as the output has room for |
| `Matching.RankingExists` | crates/eidolon-core/src/market.rs:313-431 | such a sorted list always exists, no longer than the side |
| `Matching.MatchLeaves` | crates/eidolon-core/src/market.rs:313-431 | an order that stays differs from the one that rested there in remaining quantity and status alone, and is partially filled exactly where the quantity fell; orders stay positive, trade numbers are consecutive, and an unfilled incoming order removed every order it traded with |
| `Matching.SurvivorsKeepRank` | crates/eidolon-core/src/market.rs:385-429 | an order left by the loop has lost remaining quantity at most and is marked as partially filled exactly then, so two survivors keep their order of service |
| `Matching.MatchExhausts` | crates/eidolon-core/src/market.rs:313-431 | with room for a trade per resting order, at most one trade is made with each and no crossing order survives an unfilled incoming one |
| `Matching.MatchRoom` | crates/eidolon-core/src/market.rs:313-431 | with a shorter output the loop stops part way with more to do, exactly when the trades do not fit |
| `Matching.TradesAreHonest` | crates/eidolon-core/src/market.rs:361-431 | every trade has the resting order's price, is within both limits, names the right parties, station and tick, and is numbered in sequence |
| `MatchingTotals.MatchConserves` | crates/eidolon-core/src/market.rs:366-390 | the incoming decrease, the resting decrease and the traded quantity agree, and so do the money traded and the worth removed |
| `MatchingTotals.FilledIsMinOfDepth` | crates/eidolon-core/src/market.rs:313-431 | the filled quantity is min(requested, crossing depth) |
| `MatchingTotals.MatchCovers` | crates/eidolon-core/src/market.rs:313-431 | with room for n trades the loop takes exactly what the first n crossing orders hold, and stops with more to cross iff there are more than n |
| `MatchingTotals.MatchRespectsPriority` | crates/eidolon-core/src/market.rs:315-355 | an order trades only if every crossing order ahead of it was filled completely |
| `MatchingTotals.EarlierServedFirst` | crates/eidolon-core/src/market.rs:315-355 | price-time priority in plain terms: when anything was taken from an order, every order at a better price, or at the same price and placed earlier, or at the same tick in a lower slot, has been filled completely |
| `MatchingTotals.MatchIsOptimal` | crates/eidolon-core/src/market.rs:313-431 | among all ways to take the same quantity from the crossing orders, a buyer pays the least and a seller receives the most |
| `OrderBook.InsertKeepsSide` | crates/eidolon-core/src/market.rs:205-233 | resting an order fills one empty slot and fails exactly on a full side or a duplicate identifier |
| `OrderBook.InsertExactly` | crates/eidolon-core/src/market.rs:205-233 | an order rests in the first empty slot; a full side is reported before a duplicate identifier |
| `OrderBook.CancelKeepsInv` | crates/eidolon-core/src/market.rs:236-272 | cancellation keeps the book invariant |
| `OrderBook.CancelExactly` | crates/eidolon-core/src/market.rs:236-272 | the first order found under the identifier, bids before asks, leaves its slot and nothing else changes if it carries the caller's account; otherwise the call is refused as unauthorized and the book is untouched |
| `OrderBook.CancelNotFound` | crates/eidolon-core/src/market.rs:236-272 | not found is reported exactly when neither side holds the identifier |
| `OrderBook.OnlyOwnersCancel` | crates/eidolon-core/src/market.rs:256-262 | whatever a cancellation removes carries the caller's account and that identifier, every other slot of both sides is unchanged, and an error leaves the book equal |
| `OrderBook.CancelUndoesRest` | crates/eidolon-core/src/market.rs:236-272 | cancelling a just rested order restores the book iff it is a bid or no bid carries its identifier |
| `OrderBook.ShadowedCancel` | crates/eidolon-core/src/market.rs:236-272 | otherwise the bid is found first: it is cancelled in the ask's place, or the call is refused as unauthorized |
| `OrderBook.ShadowedCancelFails` | crates/eidolon-core/src/market.rs:236-272 | the concrete case: another account's bid bars the owner of the ask from cancelling it |
| `OrderBook.PlaceKeepsInv` | crates/eidolon-core/src/market.rs:278-452 | placement keeps the book uncrossed and positive when the output holds a trade per resting order |
| `OrderBook.PlaceExactly` | crates/eidolon-core/src/market.rs:278-452 | placement in full: refusals at the door touch nothing; otherwise opposing orders change in remaining quantity and status alone, the rest of a limit order takes the first empty slot, and a full side or taken identifier is reported after the trades were made |
| `OrderBook.OutputNeeded` | crates/eidolon-core/src/market.rs:313-449 | placement leaves the book sound, for every output length and order, unless a limit order able to rest is left unfinished by an output with fewer slots than crossing orders it needs; an iff read off the ranked slots |
| `OrderBook.OpKeepsInv` | crates/eidolon-core/src/market.rs:205-452 | the same for any operation, against the computed ranking: the condition reads off the book before the call |
| `OrderBook.ShortOutputCrosses` | crates/eidolon-core/src/market.rs:313-449 | the concrete case: one unit asked, a limit purchase that meets it and an output without room leave a crossed book |
| `OrderBook.FillOrKillExactly` | crates/eidolon-core/src/market.rs:289-449 | for every output length: refused with the book untouched iff the wrapped depth falls short, otherwise it takes what the first `room` crossing orders hold and is filled iff that is enough |
| `OrderBook.FillOrKillIsAllOrNothing` | crates/eidolon-core/src/market.rs:289-308 | a fresh order into a full-size output is rejected with the book untouched or filled completely; it is rejected although there is depth iff the 32-bit depth sum wraps below the quantity |
| `OrderBook.WrappedDepthRejects` | crates/eidolon-core/src/market.rs:290-307 | the concrete case: a sound book with two asks of 2^31 units, and a purchase of one unit is killed |
| `OrderBook.EveryRunKeepsInv` | crates/eidolon-core/src/market.rs:205-452 | over every run of placements and cancellations, at every moment no resting bid reaches a resting ask and every resting order is positive, iff no output of the run is too short for an order that could rest |
| `OrderBook.FullOutputsKeepInv` | crates/eidolon-core/src/market.rs:205-452 | in particular for every run into outputs of 64 records |
| `OrderBookInPlace.RegionalMarket.constructor` | crates/eidolon-core/src/market.rs:173-182 | a fresh book is empty |
| `OrderBookInPlace.RegionalMarket.BestBidPrice` | crates/eidolon-core/src/market.rs:195-197 | the highest resting bid price, or none |
| `OrderBookInPlace.RegionalMarket.BestAskPrice` | crates/eidolon-core/src/market.rs:200-202 | the lowest resting ask price, or none |
| `OrderBookInPlace.RegionalMarket.InsertRestingOrder` | crates/eidolon-core/src/market.rs:205-233 | in place, the specified insertion; counters equal occupied slots |
| `OrderBookInPlace.RegionalMarket.CancelOrder` | crates/eidolon-core/src/market.rs:236-272 | in place, the specified cancellation |
| `OrderBookInPlace.RegionalMarket.AvailableQuantity` | crates/eidolon-core/src/market.rs:290-303 | the running sum is the crossing depth modulo 2^32 |
| `OrderBookInPlace.RegionalMarket.FindBest` | crates/eidolon-core/src/market.rs:315-355 | the scanning loop is the specified best match |
| `OrderBookInPlace.RegionalMarket.ExecuteTrade` | crates/eidolon-core/src/market.rs:361-430 | in place, one specified trade and one output record |
| `OrderBookInPlace.RegionalMarket.MatchIncoming` | crates/eidolon-core/src/market.rs:313-431 | the loop is the specified matching, and it terminates |
| `OrderBookInPlace.RegionalMarket.PlaceOrder` | crates/eidolon-core/src/market.rs:278-452 | in place, the specified placement: book, trades written, rest of the output untouched, result or error |
| `BitStrings.FromToBits` | crates/eidolon-net/src/bitstream.rs:177-247 | n bits of a value, read back, are the value modulo 2^n |
| `BitStrings.ToFromBits` | crates/eidolon-net/src/bitstream.rs:495-558 | reading n bits and writing them back gives the same bits |
| `BitStream.BitWriter.constructor` | crates/eidolon-net/src/bitstream.rs:102-109 | clears the buffer |
| `BitStream.BitWriter.WriteBit` | crates/eidolon-net/src/bitstream.rs:155-174 | writes one bit and disturbs no other |
| `BitStream.BitWriter.WriteAligned` | crates/eidolon-net/src/bitstream.rs:193-219 | the big-endian fast path writes the same bits as the chunked loop |
| `BitStream.BitWriter.WriteChunked` | crates/eidolon-net/src/bitstream.rs:221-247 | the chunked loop writes exactly the n low bits at any alignment |
| `BitStream.BitWriter.WriteBits` | crates/eidolon-net/src/bitstream.rs:177-247 | exact result for every width and room; a success puts the n bits at the cursor and disturbs no other bit |
| `BitStream.BitWriter.WriteU8` | crates/eidolon-net/src/bitstream.rs:251-261 | a byte, aligned or not |
| `BitStream.BitWriter.WriteBytes` | crates/eidolon-net/src/bitstream.rs:324-349 | the bits of the bytes in order, aligned or not, or nothing |
| `BitStream.BitWriter.FlushByteAlignment` | crates/eidolon-net/src/bitstream.rs:352-358 | pads with zeros to the next byte and never fails |
| `BitStream.BigEndianIsBits` | crates/eidolon-net/src/bitstream.rs:508-536 | the big-endian fast path reads the number the bits spell |
| `BitStream.BitReader.ReadBit` | crates/eidolon-net/src/bitstream.rs:477-492 | the bit at the cursor, or end of stream |
| `BitStream.BitReader.ReadChunked` | crates/eidolon-net/src/bitstream.rs:538-558 | the chunked loop reads the number the bits spell |
| `BitStream.BitReader.ReadBits` | crates/eidolon-net/src/bitstream.rs:495-558 | exact result and error for every width; the value is the one the next n bits spell |
| `BitStream.BitReader.ReadU8` | crates/eidolon-net/src/bitstream.rs:562-572 | a byte, aligned or not |
| `BitStream.BitReader.ReadBytes` | crates/eidolon-net/src/bitstream.rs:641-665 | the bytes whose bits come next, aligned or not |
| `BitStream.BitReader.AlignToByte` | crates/eidolon-net/src/bitstream.rs:758-763 | advances to the next byte boundary |
| `WireCodec.FieldsRoundTrip` | crates/eidolon-net/src/bitstream.rs:177-247 | any list of (value, width 0..64) writes at any alignment reads back as each value modulo 2^width, consuming exactly its bits |
| `WireCodec.BytesRoundTrip` | crates/eidolon-net/src/bitstream.rs:641-665 | bytes are recovered from their bits |
| `WireCodec.VarintRoundTrip` | crates/eidolon-net/src/bitstream.rs:617-638 | every 64-bit value round-trips through unsigned LEB128 (section 7.6 of DWARF Version 4) in at most ten bytes |
| `WireCodec.VarintExactly` | crates/eidolon-net/src/bitstream.rs:617-638 | decoding a varint from any bits: it ends at the first byte below 128 and spells the groups up to there; ten bytes without one or a tenth above 1 are invalid; an early end is reported where it is |
| `WireCodec.DeltaRoundTrip` | crates/eidolon-net/src/bitstream.rs:362-705 | decoding an encoded delta gives what its tier keeps of it and consumes exactly its bits |
| `WireCodec.DeltaExactly` | crates/eidolon-net/src/bitstream.rs:668-704 | any bits decode to a delta of the tier they name iff there are enough of them; otherwise the error tells what the field asked for and what was left |
| `WireCodec.TransformRoundTrip` | crates/eidolon-net/src/bitstream.rs:396-735 | the same for multi-resolution transforms of every tier |
| `WireCodec.TransformExactly` | crates/eidolon-net/src/bitstream.rs:707-735 | the same for transforms |
| `WireCodec.SentTransformExactlyInRange` | crates/eidolon-core/src/quant.rs:181-533 | a transform survives the wire unchanged iff its fields are in range |
| `WireCodec.BatchRoundTrip` | crates/eidolon-net/src/bitstream.rs:427-754 | the batch decoder inverts the encoder, consumes exactly its bits, and returns the batch unchanged iff every entry is in range |
| `WireLayout.TacticalLayout` | crates/eidolon-core/src/quant.rs:172-197 | the 7 bytes spell, low bytes first, x from bit 0, z from 16, elevation from 32, yaw from 44 and flags from 52 |
| `WireLayout.MidfieldLayout` | crates/eidolon-core/src/quant.rs:424-440 | the 5 bytes spell x from bit 0, z from 10, elevation from 20, yaw from 28 and flags from 34 |
| `WireLayout.HorizonLayout` | crates/eidolon-core/src/quant.rs:509-523 | the 3 bytes spell x from bit 0, z from 6, elevation from 12, heading from 17 and flags from 21 |
| `WireLayout.PackedLayout` | crates/eidolon-core/src/delta.rs:223-282 | the number each packed delta spells, tag and biased fields at their documented bits |
| `WireLayout.UnpackExactly` | crates/eidolon-core/src/delta.rs:285-334 | unpacking any bytes fails iff there are fewer than the tag asks for, and otherwise gives an in-range delta of that tier with the bytes as its packed form, up to six unread bits |
| `WireLayout.DeltaBits` | crates/eidolon-net/src/bitstream.rs:362-393 | the same for the bit stream, high bits first, where the order of the fields differs |
| `WireLayout.TransformBits` | crates/eidolon-net/src/bitstream.rs:396-424 | a two-bit tag, then the tier's bytes in order |
| `WireLayout.VarintLayout` | crates/eidolon-net/src/bitstream.rs:306-321 | byte i holds bits 7i to 7i+6, its top bit whether a byte follows |
| `WireLayout.VarintLength` | crates/eidolon-net/src/bitstream.rs:306-321 | and there are no more bytes than the value needs |
| `WireLayout.BatchLayout` | crates/eidolon-net/src/bitstream.rs:427-445 | the count, then the entries in order, each its identifier and its transform |
| `ReplicationCodec.WriteFields` | crates/eidolon-net/src/bitstream.rs:177-247 | any list of `write_bits` calls of any widths: whole when it fits, otherwise exactly the fields before the first that does not fit or is wider than 64 bits, with the exact error |
| `ReplicationCodec.StopsAtFirstMisfit` | crates/eidolon-net/src/bitstream.rs:177-190 | a write stops before the first piece that does not fit and reports its size and the room left |
| `ReplicationCodec.TooWideIs` | crates/eidolon-net/src/bitstream.rs:177-190 | the error of a field list names the width of the first field above 64 bits |
| `ReplicationCodec.ReadFields` | crates/eidolon-net/src/bitstream.rs:495-558 | any list of `read_bits` calls of any widths: values, error and cursor as the decoder says, a width above 64 included |
| `ReplicationCodec.WriteVarint` | crates/eidolon-net/src/bitstream.rs:306-321 | writes the bytes of the varint, whole when it fits, otherwise exactly the bytes before the first that does not, with the exact error; returns its byte count |
| `ReplicationCodec.WriteDeltaTransform` | crates/eidolon-net/src/bitstream.rs:362-392 | writes the encoded delta, whole when it fits, otherwise exactly the fields before the first that does not, with the exact error; no other bit changes |
| `ReplicationCodec.WriteMultiresTransform` | crates/eidolon-net/src/bitstream.rs:396-424 | writes the encoded transform, whole when it fits, otherwise exactly the fields before the first that does not, with the exact error; no other bit changes |
| `ReplicationCodec.WriteMultiresBatch` | crates/eidolon-net/src/bitstream.rs:427-437 | writes the count and the entries, whole when it fits, otherwise exactly the fields before the first that does not, with the exact error; no other bit changes |
| `ReplicationCodec.ReadVarint` | crates/eidolon-net/src/bitstream.rs:617-638 | value, error and cursor as the decoder says |
| `ReplicationCodec.ReadDeltaTransform` | crates/eidolon-net/src/bitstream.rs:668-704 | value, error and cursor as the decoder says |
| `ReplicationCodec.ReadMultiresTransform` | crates/eidolon-net/src/bitstream.rs:707-735 | value, error and cursor as the decoder says |
| `ReplicationCodec.ReadMultiresBatch` | crates/eidolon-net/src/bitstream.rs:738-754 | entries, error and cursor as the decoder says; the output is kept when the count cannot be read, and holds the entries before a failure otherwise |
| `ReplicationCodec.FieldsSurvive` | crates/eidolon-net/src/bitstream.rs:177-558 | a list of fields written at any cursor, followed by any later writes, is read back from that cursor as each value modulo 2^width |
| `ReplicationCodec.DeltaSurvives` | crates/eidolon-net/src/bitstream.rs:362-704 | the same for a delta transform, as sent |
| `ReplicationCodec.BatchSurvives` | crates/eidolon-net/src/bitstream.rs:427-754 | a batch written at any cursor, followed by any later writes, is read back from that cursor as sent |
| `FixedPoint.IntegerRoot` | crates/eidolon-core/src/fixed.rs:195-222 | the digit loop terminates with the floor of the square root |
| `FixedPoint.Sqrt` | crates/eidolon-core/src/fixed.rs:195-222 | r*r <= x*2^32 < (r+1)*(r+1) for positive x, zero otherwise; the final clamp never acts |
| `FixedPoint.RootMonotone` | crates/eidolon-core/src/fixed.rs:195-222 | the root is unique and monotone |
| `FixedPoint.RootIsSmall` | crates/eidolon-core/src/fixed.rs:215-221 | the root is far below the saturation value |
| `FixedPoint.DividesTowardZero` | crates/eidolon-core/src/fixed.rs:140-157 | division cuts toward zero and saturates, and by zero gives the extreme of the dividend's sign |
| `FixedPoint.MultipliesDown` | crates/eidolon-core/src/fixed.rs:126-136 | multiplication rounds down and saturates |
| `FixedPoint.DotBound` | crates/eidolon-core/src/fixed.rs:379-399 | the squared magnitude never exceeds the true one and, unsaturated, misses it by less than three units |
| `FixedPoint.Magnitude` | crates/eidolon-core/src/fixed.rs:403-405 | the exact floor root of the sum of the rounded squares, cut off at the largest raw value; never above the true length, and short of it by less than a root unit plus the roundings when the squares fit |
| `JumpPhysics.Body.StepVertical` | crates/eidolon-core/src/kinematics.rs:650-699 | in place, the specified tick |
| `JumpPhysics.Body.TryInitiateJump` | crates/eidolon-core/src/kinematics.rs:704-721 | in place, the specified jump attempt |
| `JumpPhysics.FlagBits` | crates/eidolon-core/src/kinematics.rs:673-695 | flag updates change their own bit only |
| `JumpPhysics.StepShape` | crates/eidolon-core/src/kinematics.rs:650-699 | every tick ends at or above the floor, landed or airborne and counted, unless the body rests below the floor, where it stays; other flags kept; the watchdog trips exactly past 50 airborne ticks |
| `JumpPhysics.StepExactly` | crates/eidolon-core/src/kinematics.rs:650-699 | one tick in full for every body, floor and time step: velocity, position, counter, both flags, the others untouched, and the watchdog's verdict |
| `JumpPhysics.JumpExactly` | crates/eidolon-core/src/kinematics.rs:704-721 | a jump is granted exactly to a body with a clear counter no more than 5 cm above the floor; it keeps the position and the other flags and sets off at 5 m/s, jumping and not falling; a refusal changes nothing |
| `JumpPhysics.EnergyDrops` | crates/eidolon-core/src/kinematics.rs:680-696 | an airborne tick without saturation lands or loses at least gd^2*dt of the energy 2*gd*2^32*(y-floor) + v^2*dt, gd being the gravity step |
| `JumpPhysics.HeightBound` | crates/eidolon-core/src/kinematics.rs:680-682 | height is bounded by energy at every moment |
| `JumpPhysics.HeadroomKeepsUnsaturated` | crates/eidolon-core/src/kinematics.rs:680-682 | under a condition on floor, energy and speed no tick of the flight saturates |
| `JumpPhysics.FlightLosesEnergy` | crates/eidolon-core/src/kinematics.rs:650-699 | absent saturation, after n ticks the body is between floor and apex and rests or has paid n tick costs |
| `JumpPhysics.EnergyEndsFlight` | crates/eidolon-core/src/kinematics.rs:650-699 | absent saturation, the flight is over after energy / (gd^2*dt) + 1 ticks |
| `JumpPhysics.HeadroomFlight` | crates/eidolon-core/src/kinematics.rs:650-699 | under a condition on floor, energy and speed that can be checked at the start, no tick of the whole flight saturates |
| `JumpPhysics.EveryFlightEnds` | crates/eidolon-core/src/kinematics.rs:650-699 | every flight, for every non-zero time step, floor, height and speed, saturating or not, is at rest after its budget of ticks, for good, on the floor unless it rested below it from the start |
| `JumpPhysics.JumpsAgain` | crates/eidolon-core/src/kinematics.rs:650-721 | once its budget is spent any body can jump again, from the floor up because it has landed |
| `JumpPhysics.EndsExactlyWhenTimePasses` | crates/eidolon-core/src/kinematics.rs:650-699 | a body comes to rest iff the time step is not zero or it is not above the floor |
| `JumpPhysics.StandardJumpLands` | crates/eidolon-core/src/kinematics.rs:533-551 | every successful jump, over every floor, is at rest from tick 20 on at 20 ticks a second, and no tick of it trips the 50-tick watchdog |
| `JumpPhysics.StandardJumpRepeats` | crates/eidolon-core/src/kinematics.rs:704-721 | from tick 20 of a standard jump on the body has landed and a jump succeeds |
| `JumpPhysics.JumpStaysUp` | crates/eidolon-core/src/kinematics.rs:533-551 | and not before tick 20: until then height and speed are exactly those of the parabola, where 64 bits hold its top |
| `JumpPhysics.NoJumpInFlight` | crates/eidolon-core/src/kinematics.rs:704-721 | from a jump until its landing every further jump is refused |
| `Quantization.AxisError` | crates/eidolon-core/src/quant.rs:61-130 | dequantising is never above the position and below it by less than a step plus two roundings |
| `Quantization.AxisRequantized` | crates/eidolon-core/src/quant.rs:61-130 | requantising lowers a coordinate by exactly one step, except at the two ends |
| `Quantization.OutsideTheCell` | crates/eidolon-core/src/quant.rs:61-84 | a position outside the cell takes the nearer end of its axis, the upper one exactly from the far face on |
| `Quantization.GlobalError` | crates/eidolon-core/src/quant.rs:133-156 | on the whole 64-bit domain nothing overflows or saturates and the error is below one step plus 128 raw units horizontally (64 vertically) |
| `Quantization.GlobalRequantized` | crates/eidolon-core/src/quant.rs:133-156 | a rebuilt position keeps its cells and drops by one step an axis, except at the ends |
| `Quantization.TacticalRoundTrip` | crates/eidolon-core/src/quant.rs:181-208 | the 7-byte packer returns what its fields keep |
| `Quantization.TacticalIsOnto` | crates/eidolon-core/src/quant.rs:181-208 | every 7-byte buffer is the packing of what it unpacks to |
| `Quantization.MidfieldRoundTrip` | crates/eidolon-core/src/quant.rs:424-452 | the 5-byte packer returns what its fields keep |
| `Quantization.MidfieldIsOnto` | crates/eidolon-core/src/quant.rs:424-452 | a 5-byte buffer repacks to itself but for the two unread bits |
| `Quantization.HorizonRoundTrip` | crates/eidolon-core/src/quant.rs:509-533 | the 3-byte packer returns what its fields keep |
| `Quantization.HorizonIsOnto` | crates/eidolon-core/src/quant.rs:509-533 | every 3-byte buffer is the packing of what it unpacks to |
| `DeltaTransform.PackRoundTrip` | crates/eidolon-core/src/delta.rs:223-334 | unpacking a packed delta, whatever follows it, gives what its tier keeps and its length |
| `DeltaTransform.SentExactlyInRange` | crates/eidolon-core/src/delta.rs:223-334 | a delta survives the wire unchanged iff its fields are in range |
| `DeltaTransform.PackToSlice` | crates/eidolon-core/src/delta.rs:223-282 | writes the packed bytes at the front of the buffer and nothing else, or nothing when they do not fit |
| `DeltaTransform.CheapestTier` | crates/eidolon-core/src/delta.rs:109-190 | the tier from the distances alone: nothing is sent for a move under 16, 2 and 0 steps, a small delta while -136 < dx, dz < 120, -9 < dy < 7 and -18 < turn < 14, a medium one while -1028 < dx, dz < 1020 and -65 < dy < 63, all of it beyond that or with the anchor flag; fields are the nearest steps, halves away from zero |
| `DeltaTransform.AppliesExactly` | crates/eidolon-core/src/delta.rs:193-219 | each coordinate moves by its steps, held within the cell; the heading turns modulo 256 |
| `DeltaTransform.ComputeApplyClose` | crates/eidolon-core/src/delta.rs:109-219 | applying a computed delta lands within the bounds of its tier, and what is computed is in range or exact |
| `DeltaTransform.OneUpdate` | crates/eidolon-core/src/delta.rs:109-334 | one update through the wire leaves both baselines equal and within 15, 1 and 2 units of the target |
| `DeltaTransform.NoDrift` | crates/eidolon-core/src/delta.rs:109-334 | over any run of updates the two baselines stay equal and within those bounds of the last target |
| `Morton.MakeSpreadTable` | crates/eidolon-core/src/morton.rs:14-30 | the nested loops fill the table with every byte's bits three apart |
| `Morton.SpreadBits21` | crates/eidolon-core/src/morton.rs:37-46 | three table look-ups spread the 21 low bits |
| `Morton.CompactBits21Bit` | crates/eidolon-core/src/morton.rs:50-69 | bit k of the compaction is bit 3k of the word |
| `Morton.Encode` | crates/eidolon-core/src/morton.rs:78-80 | the code is the sum of the three spread coordinates, below 2^63 |
| `Morton.DecodeEncode` | crates/eidolon-core/src/morton.rs:78-89 | decoding a code gives the 21 low bits of every coordinate |
| `Morton.EncodeDecode` | crates/eidolon-core/src/morton.rs:78-89 | encoding a decoded code gives it back iff it is below 2^63, and drops bit 63 otherwise |
| `Morton.EncodeMonotone` | crates/eidolon-core/src/morton.rs:78-80 | codes are monotone in the product order, strictly unless the points are equal |
| `Morton.SignedRoundTrip` | crates/eidolon-core/src/morton.rs:96-115 | signed points round-trip iff every coordinate is in -2^20..2^20-1 |
| `Morton.BoxWithinInterval` | crates/eidolon-core/src/morton.rs:96-104 | every point of a box has its code between those of the corners, clamped points included |
| `Morton.IntervalHoldsMore` | crates/eidolon-core/src/morton.rs:78-80 | the interval is only a filter: for a row of points from the origin it holds codes of points outside the row iff the row has at least three points |
| `Morton.CodesDistinct` | crates/eidolon-core/src/morton.rs:96-115 | different points of the span have different codes |
| `PriorityQueues.BoundedQueue.constructor` | crates/eidolon-net/src/backpressure.rs:95-105 | a fresh queue is empty |
| `PriorityQueues.BoundedQueue.Pop` | crates/eidolon-net/src/backpressure.rs:190-208 | in place, the head of the sequence, or nothing from an empty queue |
| `PriorityQueues.BoundedQueue.EnqueueTail` | crates/eidolon-net/src/backpressure.rs:220-226 | in place, appends to the sequence |
| `PriorityQueues.BoundedQueue.FindOldestUnreliable` | crates/eidolon-net/src/backpressure.rs:234-244 | the position of the oldest unreliable packet, if any |
| `PriorityQueues.BoundedQueue.EvictOldestUnreliable` | crates/eidolon-net/src/backpressure.rs:412-447 | in place, removes the oldest unreliable packet from anywhere in the ring and keeps the order of the rest |
| `PriorityQueues.BoundedQueue.EvictStaleIngress` | crates/eidolon-net/src/backpressure.rs:229-268 | the ingress form, which also counts the packet it drops |
| `PriorityQueues.BoundedQueue.PushIngress` | crates/eidolon-net/src/backpressure.rs:156-187 | in place, the specified ingress push, metrics and refusal included |
| `PriorityQueues.BoundedQueue.PushEgress` | crates/eidolon-net/src/backpressure.rs:351-380 | in place, the specified egress push, metrics and refusal included |
| `PriorityQueues.BoundedQueue.DrainInto` | crates/eidolon-net/src/backpressure.rs:211-217 | pops as many packets as there are and fit, in order, and leaves the rest of the destination |
| `PriorityQueues.EvictedSelects` | crates/eidolon-net/src/backpressure.rs:229-268 | eviction leaves the reliable packets alone and takes the first of the others |
| `PriorityQueues.RefusedExactly` | crates/eidolon-net/src/backpressure.rs:156-380 | a push is refused iff the queue is full of reliable packets, or, for unreliable ingress, at 95 percent or more |
| `PriorityQueues.PushExactly` | crates/eidolon-net/src/backpressure.rs:156-380 | a packet that is taken joins the tail; a queue with room gives nothing up for it, and a full one exactly its oldest unreliable packet; every metric moves as the case says |
| `PriorityQueues.EveryRunIsSound` | crates/eidolon-net/src/backpressure.rs:156-447 | over every run accepted reliable packets are popped exactly once and in order, waiting unreliable ones are the newest accepted, nothing is reordered, accepted = popped + waiting + evicted, and every metric is exact: drops are the evictions (plus, for ingress, the unreliable refusals) and saturations the refusals |
| `PriorityQueues.EvictsOnlyWhenFull` | crates/eidolon-net/src/backpressure.rs:156-447 | over every run nothing is evicted iff every packet taken found the queue below its capacity, iff everything taken was popped or waits, in order; then nothing taken is counted as dropped |
| `PriorityQueues.ReliableLeavesInTime` | crates/eidolon-net/src/backpressure.rs:156-447 | whatever is pushed meanwhile, a reliable packet with i packets ahead has been popped after i+1 pops |
| `Sha256.FoldBlock` | crates/eidolon-net/src/crypto.rs:127-189 | compressing one more block extends the fold |
| `Sha256.ProcessBlock` | crates/eidolon-net/src/crypto.rs:127-189 | in place, the compression of section 6.2.2 of FIPS 180-4 |
| `Sha256.BuildTail` | crates/eidolon-net/src/crypto.rs:82-111 | the tail buffer is the end of the padding of section 5.1.1 of FIPS 180-4, one block or two |
| `Sha256.Sha256` | crates/eidolon-net/src/crypto.rs:62-124 | chunks and padded tail compute the fold of compression over the padded message |
| `Sha256.Sha256Concat` | crates/eidolon-net/src/crypto.rs:243-309 | the byte-at-a-time path computes the hash of the concatenation, for all lengths |
| `Sha256.HmacSha256` | crates/eidolon-net/src/crypto.rs:193-240 | both size branches and both key branches compute the definition in section 2 of RFC 2104 |
| `Sha256.HmacIs` | crates/eidolon-net/src/crypto.rs:193-240 | the keyed hash written out byte by byte: key or hashed key padded with zeros, masked with 0x36 inside and 0x5c outside |
| `Sha256.PaddingIsInjective` | crates/eidolon-net/src/crypto.rs:82-111 | messages short of 2^61 bytes with the same padded form are equal |
| `Sha256Vectors.RoundConstantsAreRoots` | crates/eidolon-net/src/crypto.rs:12-22 | the 64 round constants are the first 32 fractional bits of the cube roots of the first 64 primes |
| `Sha256Vectors.InitialValuesAreRoots` | crates/eidolon-net/src/crypto.rs:7-10 | the initial hash values are those of the square roots of the first eight |
| `Sha256Vectors.AbcDigest` | crates/eidolon-net/src/crypto.rs:62-189 | the digest of "abc" is the one FIPS 180-4 publishes |

## Left out

- Transport environment: packets and headers that arrive are less than 2^15 sequence numbers stale, fewer than 2^15 - 1 messages are undelivered when one is queued, and 1 <= PENDING_CAP < 2^15. That the receiving caller leaves room and drains in time, and that headers wait for an arrival, are demands shown to be exact.
- Network liveness: the model proves that a message is sent again within 33 calls and makes progress when a copy arrives, not that the network ever delivers one.
- Counters such as trade numbers, queue metrics and the cursor of a bit stream are unbounded; the source's u64 and usize counters would wrap or trap after 2^64 events.
- FillOrKillIsAllOrNothing: speaks of fresh orders, with the remaining quantity equal to the initial one, and full-size outputs; `FillOrKillExactly` covers the others. A panic on overflow in a debug build is not modelled.
- `BitWriter::from_existing` with an offset past the end of the buffer, and the 16-, 32- and 64-bit read and write wrappers, which only choose a width.
- `read_multires_batch` reserves memory for the announced count first; allocation failure is not modelled.
- The position forms of the Morton functions, which convert a vector and delegate.
- Floating-point constructors of the midfield and horizon coordinates and the conversion of angles; only their packers are modelled.
- The jump tolerance of 5 cm is the source's floating constant converted to raw units; the conversion itself is not modelled.
- The backpressure level enumeration and `BackpressureCoordinator`, which are plain comparisons.
- Handshake messages, cookies and proofs of `auth.rs`, and session expiry; only the replay window is modelled.
- `constant_time_eq`, constant-time behaviour, secrecy and cryptographic strength.
- Dead reckoning, splines and velocity sanitising in `kinematics.rs`; vector operations other than the dot product and the magnitude.
- Sockets, clocks, configuration, the C interface and the other modules of the workspace.
