# Verified model of the tick-to-trade pipeline

A cycle-stepped simulation receives ITCH 5.0 messages over a wire, decodes and checks them block by
block, frames and parses them, keeps an order table and a five-level book, turns each best quote into
an order-flow imbalance (OFI) value and posts a decision record over DMA. This project models that
simulation in Dafny and proves what it computes and when.

The main results, each for every input:

- **The step machine.** `Pipelines.Pipeline` has the seven one-message slots, three rings, the
  dual-port RAM and the three-stage arithmetic pipeline of the original, updated downstream first.
  Its state before every posedge and between posedge and negedge is described by `Before` and
  `Between`, and each posedge and negedge takes the one to the other. `Simulations.Run` then says how
  any run ends: message `i` is posted in cycle `Framed(i) + 9`, where `Start`, `Finish` and `Framed` are
  the queueing recurrence of the wire, the MAC and the parser. For messages of four bytes and more, as all
  supported ones are, nothing waits behind the wire, and the latency is the wait for the wire plus the
  blocks plus 10 (`Schedules.Stream.NothingStalls`). Record, quote and OFI of each message are those of a
  plain sequential interpreter (`Schedules.Stream.After`), and the record reads as id, OFI and best prices;
  and the run fails exactly when some message is unsupported or not accepted, in a cycle that is known in
  advance.
- **Conservation and order.** After every half-step the slots and rings, oldest first, hold exactly
  the messages picked up and not yet posted, in stream order (`Simulations.InFlightBefore`,
  `Simulations.InFlightBetween`).
- **Aggregates agree with what they summarise.** The book against the orders (`RestingOrders`), the
  full-depth book against its orders (`RealBooks`), both books against each other (`Agreement`), and the
  generator's own ledger against the interpreter (`SyntheticLedger`, `SyntheticStreams`). For any seed, or
  any words drawn in place of the generator's, and any length the pipeline delivers the stream that these
  words make, bytes and arrivals, in full (`SyntheticRuns.RunGenerated`). Quantities are those of 32-bit
  registers, and the exact condition under which these hold the true sums is part of the results.
- **CRC-32 and the block codec.** The bitwise loop computes the remainder modulo the generator
  polynomial of section 3.2.9 of IEEE 802.3, is affine, and detects every change of message bits spread
  over at most 32, so every one inside four consecutive message bytes. Of the changes inside four
  consecutive bytes of payload and stored checksum together the decoder misses exactly one
  (`Codewords.CodewordAltered`). The codec round-trips with and without the length.
- **Parsing and framing** invert serialising, exactly, also on truncated input; for arbitrary bytes the
  walker's result is the only run of framed messages in front of bytes where it has to stop.
- **OFI, latency statistics, gap capping.** The branchy form equals the published formula through the
  delayed pipeline; percentiles meet the nearest-rank definition; capped gaps change no latency register
  of a run if and only if a stated condition holds, and the exact cap is known from which on that is so
  for every replay of a given number of messages.

## How it is laid out

One file for each part. `Words`, `SlotMap` and `RingBuffer` hold what several parts share: words as
natural numbers, a searched array of cells seen as a map, a circular buffer seen as a queue.
`OrderTable`, `OrderBook` and `Ledger` are the book keeping of the pipeline (`BookKeeper` groups its table
and its book); `Parser`, `Pcs`, `Crc32`,
`Gf2`, `CrcTheory`, `Codeword`, `Walker` the input side; `Ofi`, `Bram`, `PcieDma` the modules behind the book.
`Schedule` holds the two accounts that know nothing of the pipeline, `PipelineState` its values,
`Pipeline` the step machine and `Simulation` whole runs. `Resting`, `RealBook` and `Agreement` relate
the books; `Synthetic`, `SyntheticStream` and `SyntheticRun` are the generator; `Replay`, `Burst` and
`LatencyStats` the tools around the model.

In `Pipeline`, a clock counts how many messages had moved on to the parser 1 to 10 cycles ago, how many
the MAC had received, and how many had been picked up. The parser takes at most one message in any two
cycles and the MAC and the wire hold one each, so neighbouring counts differ by at most one, and each
stage holds the messages between two of them. Predicates like `DmaHolds(a, b, c, t)` say so for one stage
each.

## Where the code differs from its descriptions

The model follows the code.

- The table refuses an add, but the book takes it all the same; and a level's 32-bit sum can run over.
  With nothing dropped so far the book stays a summary of the orders exactly when the book drops the add,
  or the table accepts it and the level has room: `RestingOrders.KeepsIff`, on every kind of event, with
  an example in `RestingOrders.RefusedAddExample`.
- The full-depth book counts in 64 bits, the five-level book in 32. Over accepted messages in range with
  nothing dropped the two agree exactly as long as every total fits an int32
  (`Agreement.AgreeIffTotalsFit`). Two buy orders of the largest size part them
  (`Agreement.HeavyOrdersExample`).
- The full-depth book overwrites a resting order that is added again and leaves its shares in the
  level. The levels stay the sums of the resting orders exactly when that does not happen
  (`RealBooks.SoundIffFresh`, with an example in `RealBooks.OverwriteExample`).
- `RealBook::apply` is described as returning whether the book changed; it returns whether the type is
  one that touches the book. `RealBooks.UnchangedIff` says exactly when such a message leaves the book as
  it is, and `RealBooks.UnknownDeleteExample` is one.
- Once adds have been dropped, as on the real data, the five-level book is no longer exact. The accounts of
  the orders still agree (`Agreement.OrdersAgree`), and while the levels have room every level shown is a
  real one with at least that quantity, so no delivered quote is better than the real one
  (`Agreement.DeliveredIsNoBetter`).
- The encoder stores the checksum register, which is reflected, most significant byte first. A burst across
  the boundary of payload and checksum is therefore not one of consecutive coefficients: if the last two
  payload bytes are changed by 61 D8 and the first two of the checksum by F4 EE, the decoder reports a valid
  checksum. No other change inside four consecutive bytes escapes (`Pcs.AlterationDetected`).
- `docs/real-itch-results.md` gives the depth of the pipeline as the reason why capped gaps are
  harmless. What matters is the wait for the wire: `Replays.CapHarmlessOnRuns` has the exact condition.
  For replays of at most N accepted messages and a table of C entries the caps that never show are exactly
  those from 6(N-1) plus the lesser of N-1 and half of N-1+C on, and those that no gap exceeds
  (`Bursts.CapThreshold`); for the tool's 20000 messages and 16384 entries those from 138185 on
  (`Bursts.ToolThreshold`). `Bursts.ShowCap` runs, for every cap that can shorten a gap and for a table of
  any size up to 2 to the 64 entries, a burst on which a latency register changes, 37 messages and one more
  for the default cap.

## Model

| member | source | states |
|---|---|---|
| `RingBuffers.RingBuffer.Push` | include/core/aligned_slab.hpp:20-26 | appends to the queue held by the circular buffer; refused exactly when the buffer is full |
| `RingBuffers.RingBuffer.Pop` | include/core/aligned_slab.hpp:27-33 | takes the oldest value of the queue; refused exactly when it is empty |
| `OrderTables.OrderTable.Insert` | include/modules/order_table.hpp:29-38 | the array is a map from reference to order; an insert is refused exactly when the reference is live or every entry is taken, and otherwise adds one binding |
| `OrderTables.OrderTable.Reduce` | include/modules/order_table.hpp:42-55 | takes the lesser of the asked and the remaining shares from a live order, which goes when none remain; refused exactly for a dead reference |
| `OrderBooks.FiveLevelOrderBook.Add` | include/modules/order_book.hpp:28-43 | adds to the level of the price in 32-bit arithmetic, opens one if fewer than five are taken, and otherwise drops and counts the add; the other side stays |
| `OrderBooks.FiveLevelOrderBook.Execute` | include/modules/order_book.hpp:45-54 | takes from the level of the price in 32-bit arithmetic and closes it when nothing is left; unknown prices change nothing |
| `OrderBooks.FiveLevelOrderBook.BestBid` | include/modules/order_book.hpp:58-63 | the scan finds the highest price of the bid side as a map, with its quantity, or the empty level |
| `OrderBooks.FiveLevelOrderBook.BestAsk` | include/modules/order_book.hpp:64-69 | the scan finds the lowest price of the ask side as a map, with its quantity, or the empty level |
| `OrderBooks.BestOfCells` | include/modules/order_book.hpp:58-69 | what a scan over unsorted distinct levels has kept is the best level of the map they form |
| `Crc32.PolynomialIsGenerator` | include/modules/phy_pcs.hpp:11 | the reflected constant is the CRC-32 generator polynomial of section 3.2.9 of IEEE 802.3, less its leading term |
| `Crc32.TurnWord` | include/modules/phy_pcs.hpp:16 | one shift-and-mask step on the word multiplies the register polynomial by x modulo the generator |
| `Crc32.Compute` | include/modules/phy_pcs.hpp:12-19 | the loop returns the CRC of the data as polynomials define it |
| `Crc32.CrcIsUnique` | include/modules/phy_pcs.hpp:12-19 | data has one CRC |
| `CrcTheory.CrcIsRemainder` | include/modules/phy_pcs.hpp:12-19 | a word is the CRC exactly when its complement is the remainder of the message polynomial, with the initial ones, modulo the generator |
| `CrcTheory.CrcIsAffine` | include/modules/phy_pcs.hpp:12-19 | the CRC of the exclusive or of three equally long messages is that of their CRCs |
| `CrcTheory.BitBurstDetected` | include/modules/phy_pcs.hpp:12-19 | equally long messages whose polynomials differ by a power of x times a nonzero polynomial of degree below 32 have different CRCs |
| `CrcTheory.BurstDetected` | include/modules/phy_pcs.hpp:12-19 | messages that differ only inside four consecutive bytes have different CRCs |
| `Codewords.StraddleMissed` | include/modules/phy_pcs.hpp:53-56 | of the differences in the last one to three payload bytes and the rest of four in the stored checksum, only 61 D8 with F4 EE keeps them consistent |
| `Codewords.CodewordAltered` | include/modules/phy_pcs.hpp:50-85 | a payload and stored checksum altered inside four consecutive bytes are consistent exactly if altered by that difference across their boundary |
| `Pcs.Encode` | include/modules/phy_pcs.hpp:41-63 | writes the least number of seven-byte blocks that hold payload and CRC, as packed by the block layout; 0 exactly when so many do not fit |
| `Pcs.LeastCount` | include/modules/phy_pcs.hpp:44-45 | there is one number of seven-byte blocks that hold payload and CRC while one less do not |
| `Pcs.EncodedBytes` | include/modules/phy_pcs.hpp:47-60 | read from the top, every block is the marker and then, byte by byte, payload, CRC with the most significant byte first, and zeros |
| `Pcs.Extract` | include/modules/phy_pcs.hpp:71-77 | the buffer receives the bytes of the marked blocks in order until it is full |
| `Pcs.Decode` | include/modules/phy_pcs.hpp:65-89 | lock, checksum and length as decided by the bytes of the marked blocks, with the length given or inferred |
| `Pcs.BlockRoundTrip` | include/modules/phy_pcs.hpp:49-58 | unpacking a packed block gives its seven bytes |
| `Pcs.RoundTrip` | include/modules/phy_pcs.hpp:41-89 | decoding encoded blocks with the payload's length gives lock, a valid CRC, the length and the bytes, whatever unmarked blocks are put between them |
| `Pcs.DecodedBytes` | include/modules/phy_pcs.hpp:72-77 | the decoder's buffer then starts with the payload |
| `Pcs.InferredLength` | include/modules/phy_pcs.hpp:78-80 | without the length the decoder finds it exactly when payload length plus four is a multiple of seven or the capacity |
| `Pcs.ValidIff` | include/modules/phy_pcs.hpp:69-88 | a valid CRC is reported exactly for codewords of the length given, or of all bytes received if none is; the length is reported exactly where the codeword has arrived, and is 0 otherwise |
| `Pcs.AlterationDetected` | include/modules/phy_pcs.hpp:65-88 | any alteration of the codeword inside four consecutive bytes, in payload, checksum or both, makes the decoder report an invalid CRC, with that one exception |
| `Words.ReadBigEndian` | include/modules/parser_itch50.hpp:72-76 | the shift-and-or loop reads the big-endian value |
| `Words.BigEndianAt` | include/modules/parser_itch50.hpp:72-76 | each byte is found in its place of the value read |
| `Words.ToInt32Is` | include/pipeline/tick_to_trade.hpp:288 | the cast keeps the one int32 that differs by a multiple of 2 to the 32 |
| `Words.PutGet` | include/pipeline/synthetic_itch.hpp:60-65 | reading back bytes that were put most significant first gives the value |
| `Parser.Decode` | include/modules/parser_itch50.hpp:93-130 | succeeds exactly for a whole message of a supported type, and returns its fields |
| `Parser.Itch50Parser.Parse` | include/modules/parser_itch50.hpp:46-62 | stores the events of the longest run of complete supported messages at the front, at most 32; the bytes consumed are theirs; and the status explains what lies behind them |
| `Parser.StatusExplains` | include/modules/parser_itch50.hpp:51-56 | ok means nothing is left, event limit that 32 messages are stored, truncated that a supported message begins and has not arrived in full, unknown type that none begins |
| `Parser.ParseIsUnique` | include/modules/parser_itch50.hpp:51-59 | a buffer has one such run and one such reason |
| `Parser.OneMessage` | include/pipeline/tick_to_trade.hpp:211-212 | one event, status ok and all bytes consumed, exactly when the frame is one supported message |
| `Parser.SerialiseRoundTrip` | include/modules/parser_itch50.hpp:93-130 | reading a serialised event of any type gives the event back, whatever the header and the unread trailer |
| `Parser.ParseRoundTrip` | include/modules/parser_itch50.hpp:46-62 | parsing up to 32 messages put back to back gives exactly them |
| `Walkers.Walker.Next` | tools/itch_analysis.hpp:62-72 | the next framed message, or the reason to stop, from the bytes at the offset |
| `Walkers.Walker.WalkAll` | tools/itch_analysis.hpp:54-73 | walking to the end returns the messages and the reason of the specification |
| `Walkers.PrefixWalk` | tools/itch_analysis.hpp:62-72 | walking any prefix of framed messages returns exactly those wholly inside it, and stops at the end or a truncated tail, never at bad framing |
| `Walkers.WholeIsExact` | tools/itch_analysis.hpp:62-72 | the messages counted as wholly inside end within the prefix, and the next one does not |
| `Walkers.WalkIff` | tools/itch_analysis.hpp:54-73 | for arbitrary bytes, messages and reason are the result exactly when the messages are of the specification, their framing is at the front, and the bytes behind it give that reason |
| `Walkers.EndsIff` | tools/itch_analysis.hpp:62-72 | the walk stops at the end exactly on files that frame messages one after the other |
| `Walkers.BadFramingIsFinal` | tools/itch_analysis.hpp:62-72 | bad framing is the reason exactly when no further bytes change the result |
| `Walkers.CompletableIff` | tools/itch_analysis.hpp:62-72 | some further bytes complete the file exactly when nothing or the beginning of a framed message is left over |
| `Walkers.StrayByteExample` | tools/itch_analysis.hpp:65-67 | a single byte 5 is a truncated tail, and no further bytes complete it |
| `Walkers.WholeFileWalk` | tools/itch_analysis.hpp:54-73 | walking all framed messages returns all of them and stops at the end |
| `Ofi.OfiDsp.Posedge` | include/modules/ofi_dsp.hpp:61-69 | the branchy sum of both sides is the four-indicator imbalance of this and the last quote; the int32 nearest to it enters the first stage and the others move down |
| `Ofi.ImbalanceLaws` | include/modules/ofi_dsp.hpp:85-96 | the imbalance changes its sign with the order of the quotes and with the side of the book, a better bid counts with its quantity and a standing one with its change, the two sides add up, and the first quote counts as against empty levels |
| `Ofi.OfiDsp.PosedgeIdle` | include/modules/ofi_dsp.hpp:73-76 | a bubble enters, and the last quote stays |
| `Ofi.OfiDsp.Drive` | include/modules/ofi_dsp.hpp:42-80 | for any interleaving of quotes and idle cycles the output of cycle t is what entered in cycle t - 2: a bubble, or the formula on that quote and the last one before it |
| `Ofi.OutputsSum` | include/modules/ofi_dsp.hpp:42-80 | for any interleaving of quotes and idle cycles the valid outputs add up to the contributions of the quotes that have come through, each against the one before it |
| `Ofi.QuietOutputs` | include/modules/ofi_dsp.hpp:42-80 | while the best prices stand still and no change saturates, the valid outputs after the first add up to the change in bid quantity less that in ask quantity, and all of them to the last bid quantity less the last ask quantity |
| `Bram.DualPortBram.Posedge` | include/modules/bram_memory.hpp:35-49 | both requests are latched, and a collision is flagged exactly when they touch one address and one of them writes |
| `Bram.CollideIff` | include/modules/bram_memory.hpp:35-49 | requests that do not collide do not depend on the order in which they are served; those that do collide depend on it |
| `Bram.DualPortBram.Negedge` | include/modules/bram_memory.hpp:51-63 | the latched writes are done, then the latched reads answer from the memory they leave |
| `Ledgers.BookKeeper.ApplyToBook` | include/pipeline/tick_to_trade.hpp:286-320 | table and book together do to their maps what the interpreter says of the event, failure included, and the quote is read off the best levels |
| `Ledgers.BookKeeper.Rest` | include/pipeline/tick_to_trade.hpp:292-293 | the book takes the quantity also when the table refuses the order |
| `Ledgers.BookKeeper.Withdraw` | include/pipeline/tick_to_trade.hpp:297-298 | what the table takes from an order the book takes from its level |
| `Schedules.Stream.FinishGrows` | include/pipeline/tick_to_trade.hpp:234-261 | a later message starts only when the earlier one has left the wire, and leaves it only after that one has moved on to the parser |
| `Schedules.Stream.NothingStalls` | include/pipeline/tick_to_trade.hpp:218-261 | among messages of at least four bytes none waits behind the wire: it is handed on with its last block and moves on at once, and its latency is wait plus blocks plus 10, the blocks being the least number of sevens that hold its bytes and four more |
| `Schedules.Stream.Done` | include/pipeline/tick_to_trade.hpp:234-237 | the count of messages moved on by a cycle is the number whose recurrence says so |
| `Schedules.Stream.OneEach` | include/pipeline/tick_to_trade.hpp:234-261 | at most one message is on the wire, and at most one in the MAC |
| `Schedules.Stream.CleanUntil` | include/pipeline/tick_to_trade.hpp:207-212 | the first message that is not accepted decides from which cycle on the pipeline has failed |
| `Schedules.Stream.FailureOrNone` | include/pipeline/tick_to_trade.hpp:118-119 | every stream is accepted as a whole or has a first message that is not |
| `Schedules.Stream.ShortMessageFails` | include/pipeline/tick_to_trade.hpp:207-261 | the first message of one to three bytes fails two cycles after it has been received, or three if the one before it had only just been |
| `Schedules.Stream.TotalIsSum` | include/pipeline/tick_to_trade.hpp:282 | the interpreter's total is that of its quotes, each against the one before it |
| `Schedules.Stream.TotalFits` | include/pipeline/tick_to_trade.hpp:282 | the sum of fewer than 2 to the 31 values stays within an int64 |
| `Pipelines.ReceivePayload` | include/pipeline/tick_to_trade.hpp:253-255 | decoding the blocks of a message never fails and gives its bytes |
| `Pipelines.Pipeline.constructor` | include/pipeline/tick_to_trade.hpp:109 | a new pipeline: free slots, empty rings, reset modules, no storage shared |
| `Pipelines.Pipeline.AtReset` | include/pipeline/tick_to_trade.hpp:357-377 | the reset state is the state before cycle 0 |
| `Pipelines.Pipeline.DmaStage` | include/pipeline/tick_to_trade.hpp:171-176 | the message loaded in the cycle before is posted with its record and latency, a queued one is loaded if the slot was free; nothing fails |
| `Pipelines.Pipeline.PostDecision` | include/pipeline/tick_to_trade.hpp:322-341 | the record and latency due in this cycle go out, the host drains exactly that record, and it reads as the id, OFI and best prices of the message |
| `PipelineState.RecordReads` | include/pipeline/tick_to_trade.hpp:325-334 | read in big-endian words, a record is 16 bytes at address and tag of the message: id, OFI as int32, bid price and ask price; so is every record that a run delivers |
| `Pipelines.Pipeline.OfiStage` | include/pipeline/tick_to_trade.hpp:178-185 | a waiting quote enters the arithmetic pipeline with its id in the ring, otherwise a bubble does; the push never fails |
| `Pipelines.Pipeline.ReadStage` | include/pipeline/tick_to_trade.hpp:187-193 | the read-back slot requests the address of its id and queues the id; the push never fails |
| `Pipelines.Pipeline.ApplyMessage` | include/pipeline/tick_to_trade.hpp:199 | applying message id moves the ledger from before it to after it, succeeds exactly when the interpreter accepts it, and stores the interpreter's quote |
| `Pipelines.Pipeline.BookStage` | include/pipeline/tick_to_trade.hpp:195-205 | the message in the slot is applied, its quote requested to be written, and it moves on; it fails exactly when the message is not accepted |
| `Pipelines.Pipeline.ParseStage` | include/pipeline/tick_to_trade.hpp:207-216 | after two cycles the event is the decoded frame; it fails exactly when the message is not supported |
| `Pipelines.Pipeline.MacStage` | include/pipeline/tick_to_trade.hpp:218-237 | the frame receives the payload in one beat, and the message moves on in the first cycle in which the parser is free; nothing fails |
| `Pipelines.Pipeline.PcsStage` | include/pipeline/tick_to_trade.hpp:239-261 | a message is picked up in the first cycle in which it has arrived and the wire is free, receives one block a cycle, and is decoded and handed on with its last block, or as soon as the MAC is free; nothing fails |
| `Pipelines.Pipeline.ServeRam` | include/pipeline/tick_to_trade.hpp:268 | the RAM answers each read with the quote written for the same id, and never collides |
| `Pipelines.Pipeline.TakeResponse` | include/pipeline/tick_to_trade.hpp:270-276 | the answer goes to the id that asked; the OFI slot is free for it |
| `Pipelines.Pipeline.TakeOutput` | include/pipeline/tick_to_trade.hpp:277-283 | an output goes to the message it belongs to, into the sums, and its id to the DMA queue; neither ring operation fails |
| `Pipelines.Pipeline.NextClock` | include/pipeline/tick_to_trade.hpp:218-261 | how the schedule moves the wire and the MAC in one cycle |
| `Pipelines.Pipeline.DueNow` | include/pipeline/tick_to_trade.hpp:338 | the message in the DMA slot has its latency of the schedule in this cycle |
| `Pipelines.Pipeline.Posedge` | include/pipeline/tick_to_trade.hpp:167-264 | takes the state before a cycle to the state between its edges, with the error flag set exactly if an unsupported message was parsed or an unaccepted one applied; after an error nothing that an accessor shows changes |
| `Pipelines.Pipeline.Negedge` | include/pipeline/tick_to_trade.hpp:266-284 | takes the state between the edges to the state before the next cycle; its failure branches are never taken |
| `Simulations.InFlightBefore` | include/pipeline/tick_to_trade.hpp:171-263 | before every posedge the slots and rings, oldest first, hold the ids from the first not posted to the last picked up |
| `Simulations.InFlightBetween` | include/pipeline/tick_to_trade.hpp:270-283 | so they do between posedge and negedge |
| `Simulations.WireBusyIff` | include/pipeline/tick_to_trade.hpp:126 | before every posedge the wire is busy exactly when some message has started and is not yet handed to the MAC |
| `Simulations.QueueSafety` | include/pipeline/tick_to_trade.hpp:270-280 | after every negedge no id waits for the RAM, at most one for the DMA, and the OFI ring lists in order the ids of exactly the valid stages |
| `Simulations.Step` | include/core/discrete_engine.hpp:45-49 | one posedge and one negedge of the pipeline, in the engine's order, keep the run on the schedule |
| `Simulations.Ended` | main.cpp:48 | when the loop stops: at the end of the schedule, at the limit, or in the cycle after the first failure |
| `Simulations.Run` | main.cpp:48 | for any limit: the run ends with an error exactly if the first unaccepted message fails before the limit; the engine's final cycle; the number completed, which is the number posted by the DMA; every posted message has the latency, record, frame, event, quote and OFI of schedule and interpreter; the sum and last value of OFI and the count of dropped adds, with an error or without |
| `Simulations.Reached` | include/pipeline/tick_to_trade.hpp:322-341 | the messages posted when the engine stands at cycle t are those that left the wire by t - 10, in order, each delivered |
| `Simulations.CompleteRun` | tests/test_pipeline_golden.cpp:32 | a stream of accepted messages with enough cycles is delivered in full, in the cycle where the schedule ends, with as many records posted, and OFI sum and dropped adds are the interpreter's |
| `Simulations.Simulate` | main.cpp:48 | a new pipeline run on any stream ends so |
| `RestingOrders.RestingWithout` | include/modules/order_table.hpp:42-55 | what rests at a price is the sum over the live orders in any order |
| `RestingOrders.AlwaysNarrow` | include/pipeline/tick_to_trade.hpp:286-316 | after any messages at all every share count and quantity fits its int32 |
| `RestingOrders.OrdersAfter` | include/pipeline/tick_to_trade.hpp:286-316 | what each type of accepted message in range does to the orders, in whole numbers |
| `RestingOrders.DropsCounted` | include/modules/order_book.hpp:35-43 | the counter of dropped adds is the number of messages whose order is at a price that its side does not list afterwards |
| `RestingOrders.AcceptedKeepsIff` | include/pipeline/tick_to_trade.hpp:286-316 | an accepted message in range keeps every level positive and at most what rests there, and exactly that while no add has been dropped, exactly when the level it adds to has room, whatever has been dropped before |
| `RestingOrders.KeepsIff` | include/pipeline/tick_to_trade.hpp:286-316 | with no add dropped so far, an event in range keeps it exactly when its add is dropped by the book, or finds a free reference, a free entry and room in its level; other events always do |
| `RestingOrders.RefusedAddExample` | include/pipeline/tick_to_trade.hpp:292-293 | an order added again under its reference is refused by the table and doubled in the book |
| `RestingOrders.BookSummarisesOrders` | include/pipeline/tick_to_trade.hpp:286-316 | the same after any failure-free sequence of messages in range whose totals at each price fit an int32 |
| `RestingOrders.SummaryIffRoom` | include/pipeline/tick_to_trade.hpp:286-316 | over such a sequence, with any number of drops, the book summarises the orders at every step exactly when each add has found room |
| `RestingOrders.SummaryIffTotalsFit` | include/pipeline/tick_to_trade.hpp:286-316 | with no add dropped, that the totals fit is exactly what it takes |
| `RestingOrders.BestIsExtreme` | include/modules/order_book.hpp:56-69 | the best level of an exact side is the extreme price at which an order rests, with all that rests there |
| `RestingOrders.QuoteShowsOrders` | include/pipeline/tick_to_trade.hpp:317-319 | with no add dropped, the quote is the extreme resting prices and what rests there, or the fixed values of empty sides |
| `RealBooks.RealBook.Apply` | tools/itch_analysis.hpp:80-96 | does to the book what the parsed event says, and returns whether the type touches the book |
| `RealBooks.RealBook.Reduce` | tools/itch_analysis.hpp:111-119 | takes the lesser of asked and remaining shares from order and level, or counts an unknown reference |
| `RealBooks.RealBook.Remove` | tools/itch_analysis.hpp:120-125 | takes the whole order out of both, or counts an unknown reference |
| `RealBooks.RealBook.BestBid` | tools/itch_analysis.hpp:102 | the highest bid price, unless there is none |
| `RealBooks.RealBook.BestAsk` | tools/itch_analysis.hpp:103 | the lowest ask price, unless there is none |
| `RealBooks.SoundIffFresh` | tools/itch_analysis.hpp:80-132 | from a sound book, with positive shares, the levels are again the sums of the resting orders exactly when no resting reference is added again |
| `RealBooks.OverwriteExample` | tools/itch_analysis.hpp:107-110 | adding a reference twice leaves a level of twice the shares that rest |
| `RealBooks.UnchangedIff` | tools/itch_analysis.hpp:78-96 | from a sound book, with positive shares where shares are added, a message leaves orders and levels as they are exactly when it names an unknown reference, takes no shares or replaces an order by itself |
| `RealBooks.UnknownDeleteExample` | tools/itch_analysis.hpp:84 | deleting an order that is not there is a supported message and leaves the book as it is |
| `RealBooks.UnknownCounted` | tools/itch_analysis.hpp:111-125 | the book counts exactly the messages that take from, delete or replace an order not resting then, and these change nothing else |
| `RealBooks.DepthIsSum` | tools/itch_analysis.hpp:80-132 | through every sequence with positive shares and fresh references each level is the sum of its resting orders, and present exactly when that is positive |
| `RealBooks.BestIsResting` | tools/itch_analysis.hpp:101-103 | the best prices are then the extreme ones at which orders rest |
| `Agreement.EventAgreesIff` | include/pipeline/tick_to_trade.hpp:286-320 | an accepted message in range that drops nothing does the same to table and book as to the full-depth book exactly when the level it adds to has room |
| `Agreement.TwoBooksAgree` | tools/itch_analysis.hpp:80-132 | after every sequence of accepted messages in range with nothing dropped and totals that fit an int32, both accounts have the same orders and the same levels with the same quantities, and no reference was unknown |
| `Agreement.AgreeIffTotalsFit` | tools/itch_analysis.hpp:80-132 | that the totals fit is exactly what it takes |
| `Agreement.OrdersAgree` | tools/itch_analysis.hpp:80-132 | after every sequence of accepted messages in range, with any number of drops and any totals, both accounts have the same orders, no reference was unknown, and the full-depth levels are the sums of the orders |
| `Agreement.ShownIsReal` | include/modules/order_book.hpp:28-43 | and while each add finds room, every level of the five-level book is one of the full-depth book, with at least that quantity there |
| `Agreement.DeliveredIsNoBetter` | include/pipeline/tick_to_trade.hpp:122 | so a delivered quote names real levels, no more than rests there, and prices no better than the real best ones |
| `Agreement.HeavyOrdersExample` | include/modules/order_book.hpp:30-34 | two accepted orders of the largest size at one price, on which the two books differ |
| `Agreement.SameBestPrices` | tools/itch_analysis.hpp:101-103 | then both show the same best prices, and a quantity of zero means an empty side |
| `Agreement.QuoteIsRealBest` | include/pipeline/tick_to_trade.hpp:317-319 | the quote computed for a message, with totals that fit, is the best prices and quantities of the full-depth book after it |
| `Agreement.DeliveredIsRealBest` | include/pipeline/tick_to_trade.hpp:122 | so is the quote that a run delivers, and its quantities are the true sums of the resting shares |
| `SyntheticLedger.RoomForLevel` | include/pipeline/synthetic_itch.hpp:32-33 | with five prices a side a generated add never overflows the five-level book |
| `SyntheticLedger.ListsLight` | include/pipeline/synthetic_itch.hpp:116-142 | nothing rests beyond 500 shares for each live order, so no register runs over |
| `SyntheticLedger.TracksAdd` | include/pipeline/synthetic_itch.hpp:127-128 | a remembered order keeps the generator's list and quantities a true account of the interpreter's ledger, and the table accepts it |
| `SyntheticLedger.TracksReduce` | include/pipeline/synthetic_itch.hpp:140-142 | so does a reduction, also when the last order takes the place of one used up |
| `SyntheticLedger.TracksQuote` | include/pipeline/synthetic_itch.hpp:84-93 | the first levels with a quantity give the interpreter's quote |
| `SyntheticStreams.Put` | include/pipeline/synthetic_itch.hpp:60-65 | writes the value most significant byte first, and nothing else |
| `SyntheticStreams.MakeHeader` | include/pipeline/synthetic_itch.hpp:71-77 | type, locate word and sequence number at their offsets |
| `SyntheticStreams.AddBytes` | include/pipeline/synthetic_itch.hpp:120-126 | the bytes are the Add Order message of the order |
| `SyntheticStreams.ReduceBytes` | include/pipeline/synthetic_itch.hpp:137-139 | the bytes are the execution or cancellation of the order |
| `SyntheticStreams.SyntheticItchStream.Next` | include/pipeline/synthetic_itch.hpp:56-59 | draws the next word: one step of the 32-bit xorshift generator, or of any sequence in its place |
| `SyntheticStreams.XorShiftBit` | include/pipeline/synthetic_itch.hpp:57 | one step, bit by bit |
| `SyntheticStreams.SyntheticItchStream.AddOrder` | include/pipeline/synthetic_itch.hpp:116-130 | level and shares are those of the three words drawn, price and symbol those of the source; the message reads back as the order, and the interpreter accepts it |
| `SyntheticStreams.SyntheticItchStream.ReduceOrder` | include/pipeline/synthetic_itch.hpp:132-144 | the order drawn by the first word gives all it has, or 100 shares, by the second; the message reads back so, the list closes up, and the interpreter accepts it |
| `SyntheticStreams.SyntheticItchStream.UpdateQuote` | include/pipeline/synthetic_itch.hpp:84-93 | the quote read off the quantities is the interpreter's |
| `SyntheticStreams.SyntheticItchStream.Send` | include/pipeline/synthetic_itch.hpp:98-109 | which kind of message is sent, for which side or order and with what shares, from the words drawn and the live orders |
| `SyntheticStreams.SyntheticItchStream.Generate` | include/pipeline/synthetic_itch.hpp:95-114 | for any words and any length the stream is the one that the words make, message by message, with the gaps they draw; every message is supported, in range and accepted, drops no level, leaves at most 100 live orders and totals far below an int32, and has the expected quote; the three counters are right |
| `SyntheticStreams.GeneratedIsUnique` | include/pipeline/synthetic_itch.hpp:95-144 | the words determine every byte and arrival of the stream |
| `SyntheticRuns.GeneratedFinish` | include/pipeline/synthetic_itch.hpp:110-111 | a generated message is off the wire by cycle 11 plus 46 for each before it |
| `SyntheticRuns.GeneratedInRange` | include/pipeline/synthetic_itch.hpp:95-114 | the generated stream meets the conditions of the results about the books |
| `SyntheticRuns.RunGenerated` | tests/test_pipeline_golden.cpp:32 | for any words drawn and any length the pipeline delivers the stream that they make without an error within a linear number of cycles, and shows the expected quote after each message |
| `Replays.Replay` | tools/itch_replay.cpp:125-144 | the first so many messages of one stock are replayed; the first arrives in cycle 0, each later one after the whole number of 512/165 ns periods between the timestamps, at most the cap, and at once if its timestamp is not later |
| `Replays.SelectedAre` | tools/itch_replay.cpp:126 | the messages of a stock are exactly those of a supported type with its locate word, in their order |
| `Replays.WaitStep` | include/pipeline/tick_to_trade.hpp:240-261 | the wait for the wire is what is left of the previous wait and blocks after the gap |
| `Replays.CapHarmlessIff` | tools/itch_replay.cpp:134-143 | capped and uncapped arrivals give all messages the same latencies exactly when at every gap above the cap the cap is at least the latency before it less ten |
| `Replays.SameAcceptance` | include/pipeline/tick_to_trade.hpp:286-320 | whether messages are accepted does not depend on when they arrive |
| `Replays.CapHarmlessOnRuns` | include/pipeline/tick_to_trade.hpp:338 | two complete runs of the same messages, with and without the cap, have the same latency registers under exactly that condition |
| `Replays.ReplayBoth` | tools/itch_replay.cpp:125-157 | replaying the same messages with the cap and without one and running both: if they are accepted both runs are complete, and their latency registers agree under exactly that condition |
| `Replays.LongCapIsWide` | tools/itch_replay.cpp:136-139 | no gap between 48-bit timestamps exceeds the longest one, so a cap from there on never shortens a gap |
| `Bursts.LoadBounded` | include/pipeline/tick_to_trade.hpp:240-261 | the blocks of n accepted messages with a table of C entries are at most 6n plus the lesser of n and half of n + C |
| `Bursts.CapThreshold` | docs/real-itch-results.md:15 | for every N and C up to 2 to the 64: a cap leaves the latencies of all accepted replays of at most N messages as they are exactly when it is at least that bound for N - 1 messages, or no gap exceeds it |
| `Bursts.ToolThreshold` | tools/itch_replay.cpp:33-34 | for the capacities of the tool that is from 138185 cycles on |
| `Bursts.LongCapOnRuns` | include/pipeline/tick_to_trade.hpp:338 | two complete runs with and without such a cap have the same latency registers |
| `Bursts.EveryCapCanShow` | docs/real-itch-results.md:15 | any two complete runs, with and without a cap that can shorten a gap, of a burst that outlasts it by at most seven cycles differ in the last latency register |
| `Bursts.RunBurst` | tools/itch_replay.cpp:125-157 | replaying and running a burst of any length delivers it in full, and its last latency register is what the cap has left of the queue, plus the blocks of that message, plus 10 |
| `Bursts.ShowCap` | tools/itch_replay.cpp:125-157 | for every cap that can shorten a gap and every table of 1 to 2 to the 64 entries: two complete runs of one burst of accepted messages whose last latency registers differ |
| `Statistics.Sort` | include/pipeline/tick_to_trade.hpp:80 | the first n elements become their sort, the rest stays |
| `Statistics.SortOfSorts` | include/pipeline/tick_to_trade.hpp:80 | the sort is sorted and a permutation |
| `Statistics.SortIsUnique` | include/pipeline/tick_to_trade.hpp:80 | there is only one such sequence |
| `Statistics.RankInRange` | include/pipeline/tick_to_trade.hpp:84-85 | the rank index is in range for every percentage from 1 to 100 |
| `Statistics.RankIsPercentile` | include/pipeline/tick_to_trade.hpp:84-85 | the element at the rank is the least sample with at least that percentage of the samples at or below it |
| `Statistics.PercentileMonotone` | tools/itch_analysis.hpp:138-143 | percentiles grow with the percentage, and each is unique |
| `Statistics.Percentile` | tools/itch_analysis.hpp:138-143 | the nearest-rank percentile, or 0 without samples |
| `Statistics.StatsOrdered` | include/pipeline/tick_to_trade.hpp:82-85 | least, median, 99th percentile and greatest are in this order |
| `Statistics.HistogramSums` | include/pipeline/tick_to_trade.hpp:86-90 | the histogram counts every sample once |
| `Statistics.StatsPermuted` | include/pipeline/tick_to_trade.hpp:76-92 | the statistics are unique and do not depend on the order of the samples |
| `Statistics.ComputeWith` | include/pipeline/tick_to_trade.hpp:76-92 | least, greatest, both percentiles and the histogram of the samples: two cycles a bin, and all from 62 on in the last of the 32 |

## Left out

- Simulations.Simulate: messages have 1 to 44 bytes, where the replay stream takes 1 to 40; empty and longer ones, which no stream holds, are not modelled.
- Simulations.Step: the engine's arrays of callbacks; the pipeline is the only component.
- Pipelines.Pipeline.MacStage: with these lengths there is always one 64-byte beat; the byte enables of the beat are not modelled.
- Pipelines.Pipeline.Posedge: cycle numbers are unbounded; the wrap of a 64-bit counter is not modelled.
- OrderBooks.FiveLevelOrderBook.Add: where a signed 32-bit sum of the source overflows, the language leaves its behaviour undefined; the model keeps the low 32 bits, as two's complement machines do. Results that speak of true sums name the condition under which none overflows.
- RealBooks.RealBook.Apply: sums are unbounded, where the source has int64; fewer than 2 to the 31 messages cannot overflow that. The message is one the walker has framed, as at its only call.
- Replays.CapHarmlessOnRuns: latencies below 2 to the 32, the width of the registers.
- Bursts.ShowCap: the run takes as many messages and cycles as it needs; the limits of the tool, 20000 messages and 100000 cycles after the last arrival, are not part of the method.
- Bram.DualPortBram.Posedge: only the one-cycle latency that is instantiated; the assertion on a collision is a flag here, and the pipeline is proved never to raise it.
- Pcs.Decode: null pointers; the payload buffer is always there.
- Statistics.Sort: the library sort is replaced by insertion.
- SyntheticStreams.SyntheticItchStream.Generate: messages and quotes are growing sequences, not arrays of 256; references stay below 2 to the 64.
- Replays.Replay: the full-depth book and the statistics kept in the same loop, and the report.
- The fields of a message's state are a value in an array; blocks, payload and frame are replaced as sequences, not written byte by byte.
- `reset` functions, level accessors, counters of the statistics overload for at most 256 samples, and conversions of cycles to nanoseconds: easy.
- `MicroPriceLut`, the VCD writer, the printing and file handling of the tools, `ReplayStream`.
- Full 64b/66b line coding: the source does not implement it.
