/** The cycle-stepped pipeline of include/pipeline/tick_to_trade.hpp, proved against the wire schedule
    and the sequential interpreter of Schedules. */
module Pipelines {
  import opened Words
  import opened RingBuffers
  import opened Parser
  import opened Ofi
  import opened Ledgers
  import opened Bram
  import opened PcieDma
  import opened Schedules
  import opened PipelineState
  import Pcs

  /** What the decoder makes of an encoded message, in the pipeline's payload buffer. */
  method ReceivePayload(blocks: seq<nat>, buffer: seq<byte>, length: nat, ghost bytes: seq<byte>)
    returns (ok: bool, payload: seq<byte>)
    requires Pcs.IsEncoding(blocks, bytes) && |bytes| == length
    requires 1 <= length && length + 4 <= PAYLOAD_CAPACITY == |buffer|
    ensures ok && |payload| == PAYLOAD_CAPACITY && payload[..length] == bytes
  {
    var out := new byte[|buffer|](i requires 0 <= i < |buffer| => buffer[i]);
    var r := Pcs.Decode(blocks, out, length);
    Pcs.EncodedIsMarked(blocks, bytes);
    Pcs.RoundTrip(blocks, bytes, PAYLOAD_CAPACITY);
    Pcs.DecodedBytes(out[..], blocks, bytes);
    ok := r.blockLock && r.crcValid && r.payloadLength == length;
    payload := out[..];
  }

  /** The two rings of ids in flight and the queue in front of the DMA do not share storage. */
  ghost predicate QueuesWired(bramRing: RingBuffer<int>, ofiRing: RingBuffer<int>, dmaQueue: RingBuffer<int>)
  {
    && bramRing.slab.Length == ofiRing.slab.Length == 16 && dmaQueue.slab.Length == 64
    && bramRing != ofiRing && bramRing != dmaQueue && ofiRing != dmaQueue
    && bramRing.slab != ofiRing.slab && bramRing.slab != dmaQueue.slab && ofiRing.slab != dmaQueue.slab
  }

  ghost function QueueParts(bramRing: RingBuffer<int>, ofiRing: RingBuffer<int>, dmaQueue: RingBuffer<int>): set<object>
  {
    {bramRing, bramRing.slab, ofiRing, ofiRing.slab, dmaQueue, dmaQueue.slab}
  }

  ghost predicate QueuesReset(bramRing: RingBuffer<int>, ofiRing: RingBuffer<int>, dmaQueue: RingBuffer<int>)
    reads bramRing, bramRing.slab, ofiRing, ofiRing.slab, dmaQueue, dmaQueue.slab
  {
    && bramRing.Valid() && ofiRing.Valid() && dmaQueue.Valid()
    && bramRing.Contents() == ofiRing.Contents() == dmaQueue.Contents() == []
  }

  method NewQueues() returns (bramRing: RingBuffer<int>, ofiRing: RingBuffer<int>, dmaQueue: RingBuffer<int>)
    ensures fresh(QueueParts(bramRing, ofiRing, dmaQueue))
    ensures QueuesWired(bramRing, ofiRing, dmaQueue) && QueuesReset(bramRing, ofiRing, dmaQueue)
  {
    hide RingBuffer.Contents, RingBuffer.Valid;
    bramRing := new RingBuffer(16, 0);
    ofiRing := new RingBuffer(16, 0);
    dmaQueue := new RingBuffer(64, 0);
  }

  ghost predicate BackWired(bram: DualPortBram<BookQuote>, ofi: OfiDsp)
  {
    bram.memory.Length == RAM_DEPTH && bram.zero == NO_QUOTE && ofi.Valid()
  }

  ghost function BackParts(bram: DualPortBram<BookQuote>, ofi: OfiDsp, engine: DmaEngine): set<object>
  {
    {bram, bram.memory, ofi, ofi.pipeline, engine, engine.ring, engine.ring.slab}
  }

  ghost predicate BackReset(bram: DualPortBram<BookQuote>, ofi: OfiDsp, engine: DmaEngine)
    requires ofi.Valid()
    reads bram, ofi, ofi.pipeline, engine, engine.ring, engine.ring.slab
  {
    && !bram.collision
    && ofi.Last() == None && ofi.pipeline[..] == [BUBBLE, BUBBLE, BUBBLE]
    && engine.Valid() && engine.ring.Contents() == [] && engine.posted == 0 && !engine.msix
  }

  method NewBackEnd() returns (bram: DualPortBram<BookQuote>, ofi: OfiDsp, engine: DmaEngine)
    ensures fresh(BackParts(bram, ofi, engine))
    ensures BackWired(bram, ofi) && BackReset(bram, ofi, engine)
  {
    bram := new DualPortBram(RAM_DEPTH, NO_QUOTE);
    ofi := new OfiDsp();
    engine := new DmaEngine();
  }

  ghost predicate FrontWired(parser: Itch50Parser, keeper: BookKeeper, capacity: nat)
  {
    parser.events.Length == MAX_EVENTS && keeper.orders.entries.Length == capacity
  }

  ghost function FrontParts(framer: MacFramer, parser: Itch50Parser, keeper: BookKeeper): set<object>
  {
    {framer, parser, parser.events, keeper, keeper.orders, keeper.orders.entries, keeper.book, keeper.book.bids,
     keeper.book.asks}
  }

  ghost predicate FrontReset(framer: MacFramer, parser: Itch50Parser, keeper: BookKeeper)
    reads parser, keeper, keeper.orders, keeper.orders.entries, keeper.book, keeper.book.bids, keeper.book.asks
  {
    parser.Valid() && keeper.Valid() && keeper.contents == EMPTY
  }

  method NewFrontEnd(capacity: nat) returns (framer: MacFramer, parser: Itch50Parser, keeper: BookKeeper)
    ensures fresh(FrontParts(framer, parser, keeper))
    ensures FrontWired(parser, keeper, capacity) && FrontReset(framer, parser, keeper)
  {
    framer := new MacFramer();
    parser := new Itch50Parser();
    keeper := new BookKeeper(capacity);
  }

  class Pipeline {
    const stream: Stream
    const framer: MacFramer
    const parser: Itch50Parser
    const keeper: BookKeeper
    const bram: DualPortBram<BookQuote>
    const ofi: OfiDsp
    const engine: DmaEngine
    const bramRing: RingBuffer<int>
    const ofiRing: RingBuffer<int>
    const dmaQueue: RingBuffer<int>
    const state: array<MsgState>
    const latency: array<int>

    /** The outcomes of all messages; Expected says so. */
    ghost const expected: seq<Outcome>
    /** The ledger before each message, and after the last; Expected says so. */
    ghost const ledgers: seq<Ledger>

    var pcs: Slot
    var mac: Slot
    var parse: Slot
    var bookSlot: Slot
    var rd: Slot
    var ofiIn: Slot
    var dma: Slot
    var macBeatsTotal: nat
    var nextMsg: nat
    var completed: nat
    var cumulativeOfi: int
    var lastOfi: int
    var error: bool
    /** The records the host has drained, in order. */
    ghost var records: seq<Tlp>
    /** How far the messages have got, by the schedule. */
    ghost var clock: Clock

    /** What never changes: the sizes of the parts, and that no two share storage. */
    ghost predicate Wired()
    {
      && stream.Fits()
      && state.Length == latency.Length == |expected| == stream.Count()
      && |ledgers| == stream.Count() + 1
      && FrontWired(parser, keeper, stream.orderCapacity)
      && BackWired(bram, ofi)
      && QueuesWired(bramRing, ofiRing, dmaQueue)
      && latency != bramRing.slab && latency != ofiRing.slab && latency != dmaQueue.slab
    }

    ghost predicate Expected()
    {
      Describes(stream, expected, ledgers)
    }

    /** Every object the pipeline owns. */
    ghost function Parts(): set<object>
    {
      {this, state, latency} + FrontParts(framer, parser, keeper) + BackParts(bram, ofi, engine)
      + QueueParts(bramRing, ofiRing, dmaQueue)
    }

    ghost predicate SlotsReset()
      requires stream.Fits()
      reads this, state
    {
      && pcs == mac == parse == bookSlot == rd == ofiIn == dma == FREE_SLOT
      && nextMsg == completed == 0 && cumulativeOfi == lastOfi == 0 && !error && records == []
      && clock == stream.ClockAt(0)
      && forall i :: 0 <= i < state.Length ==> state[i] == EMPTY_STATE
    }

    constructor (stream: Stream)
      requires stream.Fits()
      ensures this.stream == stream && Wired() && Expected()
      ensures fresh(FrontParts(framer, parser, keeper)) && fresh(BackParts(bram, ofi, engine))
      ensures fresh(QueueParts(bramRing, ofiRing, dmaQueue)) && fresh(state) && fresh(latency)
      ensures SlotsReset() && QueuesReset(bramRing, ofiRing, dmaQueue)
      ensures FrontReset(framer, parser, keeper) && BackReset(bram, ofi, engine)
    {
      hide Describes, Outcomes, LedgersOf, Stream.Fits, FrontReset, BackReset, QueuesReset, FrontWired,
        BackWired, QueuesWired, Stream.ClockAt, EMPTY_STATE;
      this.stream := stream;
      TablesDescribe(stream);
      expected, ledgers := Outcomes(stream), LedgersOf(stream);
      var sync, reader, books := NewFrontEnd(stream.orderCapacity);
      framer, parser, keeper := sync, reader, books;
      var memory, arithmetic, host := NewBackEnd();
      bram, ofi, engine := memory, arithmetic, host;
      var ids, values, posts := NewQueues();
      bramRing, ofiRing, dmaQueue := ids, values, posts;
      state := new MsgState[stream.Count()](_ => EMPTY_STATE);
      latency := new int[stream.Count()](_ => 0);
      pcs, mac, parse, bookSlot := FREE_SLOT, FREE_SLOT, FREE_SLOT, FREE_SLOT;
      rd, ofiIn, dma := FREE_SLOT, FREE_SLOT, FREE_SLOT;
      macBeatsTotal, nextMsg, completed := 0, 0, 0;
      cumulativeOfi, lastOfi, error := 0, 0, false;
      records := [];
      clock := stream.ClockAt(0);
    }

    /** The records of all messages are filled in as far as the bounds say. */
    ghost predicate Filled(b: Bounds)
      reads state
    {
      Data(stream, expected, state[..], b)
    }

    // ---- DMA ----

    ghost predicate EngineIdle()
      reads engine, engine.ring, engine.ring.slab
    {
      engine.Valid() && engine.ring.Contents() == [] && !engine.msix
    }

    /** The first k messages are posted: their latencies and records are out. */
    ghost predicate Posted(k: int)
      reads latency, this`completed, this`records
    {
      && k == completed == |records| <= |expected| == latency.Length
      && forall i :: 0 <= i < k ==> latency[i] == expected[i].latency && records[i] == expected[i].record
    }

    /** Messages before a are posted, a is in the slot if a < b, and b..c-1 are queued. */
    ghost predicate DmaHolds(a: int, b: int, c: int, cycle: int)
      reads this`dma, this`completed, this`records, latency
      reads engine, engine.ring, engine.ring.slab, dmaQueue, dmaQueue.slab
    {
      && EngineIdle() && Posted(a) && engine.posted == a
      && Holds(dma, a, b, cycle - 1, 1)
      && dmaQueue.Valid() && dmaQueue.Contents() == Ids(b, c)
    }

    /** Posting a record and draining it on the host side at once. */
    method PostAndDrain(tlp: Tlp) returns (ok: bool)
      requires EngineIdle()
      modifies engine, engine.ring, engine.ring.slab, `records
      ensures EngineIdle() && engine.posted == old(engine.posted) + 1
      ensures ok && records == old(records) + [tlp]
    {
      ok := engine.PostWrite(tlp);
      ok := ok && engine.msix;
      var drained, got := engine.Consume();
      engine.ClearMsix();
      ok := ok && drained && got.tag == tlp.tag;
      records := records + [got];
    }

    /** In this cycle message i is due, with the quote and OFI that have been computed for it. */
    ghost predicate Due(i: int, cycle: nat)
      reads state
    {
      && 0 <= i < |expected| == stream.Count() == state.Length
      && (cycle + 1 - stream.messages[i].arrival) % 0x1_0000_0000 == expected[i].latency
      && DecisionRecord(i, state[i].ofi, state[i].quote) == expected[i].record
    }

    method PostDecision(cycle: nat)
      requires Wired() && EngineIdle() && Posted(dma.msg) && Due(dma.msg, cycle)
      modifies `dma, `completed, `error, `records, engine, engine.ring, engine.ring.slab, latency
      ensures EngineIdle() && engine.posted == old(engine.posted) + 1
      ensures error == old(error) && dma.Free() && Posted(old(dma.msg) + 1)
      ensures var i := old(dma.msg);
        IsInt32(state[i].ofi) ==> ReadsAs(records[i], i, state[i].ofi, state[i].quote)
    {
      hide EngineIdle, DecisionRecord, Wired, ReadsAs;
      var id := dma.msg;
      var s := state[id];
      if IsInt32(s.ofi) { RecordReads(id, s.ofi, s.quote); }
      var ok := PostAndDrain(DecisionRecord(id, s.ofi, s.quote));
      error := error || !ok;
      latency[id] := (cycle - stream.messages[id].arrival + 1) % 0x1_0000_0000;
      dma := dma.(msg := -1);
      completed := completed + 1;
    }

    /** Message a is posted if it was here; b is taken from the queue if it was there. */
    method DmaStage(cycle: nat, ghost a: int, ghost b: int, ghost c: int)
      requires Wired() && 0 <= a <= b <= c <= a + 1 && DmaHolds(a, b, c, cycle)
      requires a < b ==> Due(a, cycle)
      modifies `dma, `completed, `error, `records, engine, engine.ring, engine.ring.slab, latency, dmaQueue
      ensures DmaHolds(b, c, c, cycle + 1) && error == old(error)
    {
      hide EngineIdle, Posted, Due, RingBuffer.Valid, RingBuffer.Contents;
      if dma.Free() {
        var ok, id := dmaQueue.Pop(-1);
        if ok {
          dma := Slot(id, cycle, DMA_POST_CYCLES);
        }
      }
      var worked := 0 <= dma.msg && dma.avail <= cycle && 0 < dma.left;
      dma := dma.Work(cycle);
      if worked && dma.left == 0 {
        PostDecision(cycle);
      }
    }

    // ---- OFI ----

    /** The pipeline register that message lo leaves behind, if lo < hi. */
    ghost function StageOf(lo: int, hi: int): Stage
      requires lo < hi ==> 0 <= lo < |expected|
    {
      if lo < hi then Stage(true, expected[lo].ofi) else BUBBLE
    }

    ghost function PreviousQuote(k: int): Option<BookQuote>
      requires 0 <= k <= |expected|
    {
      if k == 0 then None else Some(expected[k - 1].quote)
    }

    /** The last two issues of the arithmetic pipeline, and the ids whose values it still owes. */
    ghost predicate OfiHolds(a: int, b: int, c: int, owed: int)
      reads ofi`previous, ofi`validPrevious, ofi.pipeline, ofiRing, ofiRing.slab
    {
      && 0 <= owed <= a <= b <= c <= |expected| && ofi.Valid()
      && ofi.Last() == PreviousQuote(c)
      && ofi.pipeline[0] == StageOf(b, c) && ofi.pipeline[1] == StageOf(a, b)
      && ofiRing.Valid() && ofiRing.Contents() == Ids(owed, c)
    }

    /** Message c's quote, if it waits here, enters the arithmetic pipeline; otherwise a bubble does. */
    method OfiStage(cycle: nat, ghost a: int, ghost b: int, ghost c: int, ghost d: int)
      requires Wired() && c <= d <= c + 1 && d <= stream.Count() && c <= a + 1
      requires OfiHolds(a, b, c, a) && Holds(ofiIn, c, d, cycle, 0)
      requires c < d ==> state[c].quote == expected[c].quote
      requires c < d ==> expected[c].ofi == Contribution(PreviousQuote(c), expected[c].quote)
      modifies `ofiIn, `error, ofiRing, ofiRing.slab, ofi, ofi.pipeline
      ensures OfiHolds(b, c, d, a) && ofi.pipeline[2] == StageOf(a, b)
      ensures ofiIn.Free() && error == old(error)
    {
      hide FrontWired, RingBuffer.Valid, RingBuffer.Contents, Contribution;
      ghost var was := ofi.pipeline[..2];
      if 0 <= ofiIn.msg && ofiIn.avail <= cycle {
        ofi.Posedge(state[ofiIn.msg].quote);
        var ok := ofiRing.Push(ofiIn.msg);
        error := error || !ok;
        ofiIn := ofiIn.(msg := -1);
      } else {
        ofi.PosedgeIdle();
      }
      assert ofi.pipeline[..][1] == was[0] && ofi.pipeline[..][2] == was[1];
    }

    // ---- quote RAM ----

    /** Message b's quote is in the RAM if it is to be read next, and a..b-1 await their answer. */
    ghost predicate RamHolds(a: int, b: int, c: int)
      reads bram, bram.memory, bramRing, bramRing.slab
    {
      && bramRing.Valid() && bramRing.Contents() == Ids(a, b) && !bram.collision
      && 0 <= a <= b <= c <= |expected| && bram.memory.Length == RAM_DEPTH
      && (a < c ==> bram.memory[a % RAM_DEPTH] == expected[a].quote)
    }

    method ReadStage(cycle: nat, ghost a: int, ghost b: int) returns (request: Request<BookQuote>)
      requires Wired() && 0 <= a <= b <= a + 1 && RamHolds(a, a, b) && Holds(rd, a, b, cycle, 1)
      modifies `rd, `error, bramRing, bramRing.slab
      ensures RamHolds(a, b, b) && rd.Free() && error == old(error) && request == ReadRequest(a, b)
    {
      hide FrontWired, RingBuffer.Valid, RingBuffer.Contents, Stream.Fits;
      request := bram.Idle();
      if 0 <= rd.msg && rd.avail <= cycle {
        request := request.(read := true, address := rd.msg % RAM_DEPTH);
        var ok := bramRing.Push(rd.msg);
        error := error || !ok;
        rd := rd.(msg := -1);
      }
    }

    // ---- BOOK ----

    /** The table and the book are those of the interpreter before message k. */
    ghost predicate BookHolds(k: int)
      reads keeper, keeper.orders, keeper.orders.entries, keeper.book, keeper.book.bids, keeper.book.asks
    {
      0 <= k < |ledgers| && keeper.Valid() && keeper.contents == ledgers[k]
    }

    /** Message id is applied to the table and the book, and its quote is read off. */
    method ApplyMessage(id: nat) returns (ok: bool)
      requires Wired() && Expected() && id < stream.Count() && BookHolds(id)
      requires Supported(stream.messages[id].bytes) && state[id].event == EventOf(stream.messages[id].bytes)
      modifies state, keeper, keeper.orders.entries, keeper.book, keeper.book.bids, keeper.book.asks
      ensures BookHolds(id + 1) && ok == expected[id].accepted
      ensures state[..] == old(state[..])[id := old(state[id]).(quote := expected[id].quote)]
    {
      var quote;
      ok, quote := keeper.ApplyToBook(state[id].event, stream.emptyAsk);
      assert At(id);
      state[id] := state[id].(quote := quote);
    }

    /** Applies message a, writes its quote to port A and hands it to the read-back slot. */
    method BookStage(cycle: nat, ghost a: int, ghost b: int, ghost bounds: Bounds) returns (request: Request<BookQuote>)
      requires Wired() && Expected() && 0 <= a <= b <= a + 1 && b <= stream.Count()
      requires Holds(bookSlot, a, b, cycle, 1) && rd.Free() && BookHolds(a)
      requires Filled(bounds) && bounds.quotes == a && b <= bounds.events
      requires a < b ==> Supported(stream.messages[a].bytes)
      modifies `bookSlot, `rd, `error, state
      modifies keeper, keeper.orders.entries, keeper.book, keeper.book.bids, keeper.book.asks
      ensures bookSlot.Free() && Holds(rd, a, b, cycle + 1, 1) && BookHolds(b)
      ensures Filled(bounds.(quotes := b))
      ensures error == (old(error) || (a < b && !expected[a].accepted))
      ensures request == WriteRequest(a, b, if a < b then expected[a].quote else NO_QUOTE)
    {
      hide BookHolds, Data, Supported, Describes, QueuesWired, FrontWired;
      request := bram.Idle();
      bookSlot := bookSlot.Work(cycle);
      ghost var was := state[..];
      if bookSlot.Finished(cycle) && rd.Free() {
        var id := bookSlot.msg;
        DataAt(stream, expected, was, bounds, id);
        var ok := ApplyMessage(id);
        error := error || !ok;
        request := request.(write := true, address := id % RAM_DEPTH, data := state[id].quote);
        rd := Slot(bookSlot.msg, cycle + 1, 1);
        bookSlot := bookSlot.(msg := -1);
      }
      DataQuote(stream, expected, was, state[..], bounds, b);
    }

    // ---- PARSE ----

    /** The parse slot: message b has waited zero cycles, or message a one. */
    ghost predicate ParseHolds(a: int, b: int, c: int, cycle: int)
      reads this`parse
    {
      if a < b then parse == Slot(a, cycle - 1, 1) else Holds(parse, b, c, cycle, PARSER_CYCLES)
    }

    ghost predicate ParserReady()
      reads parser
    {
      parser.Valid()
    }

    /** Message a finishes, or message b works its first cycle. */
    method ParseStage(cycle: nat, ghost a: int, ghost b: int, ghost c: int, ghost bounds: Bounds)
      requires Wired() && 0 <= a <= b <= c <= a + 1 && c <= stream.Count()
      requires ParserReady() && ParseHolds(a, b, c, cycle) && bookSlot.Free()
      requires Filled(bounds) && bounds.events == a && b <= bounds.frames && b <= bounds.payloads
      modifies `bookSlot, `parse, `error, state, parser, parser.events
      ensures ParserReady() && Holds(bookSlot, a, b, cycle + 1, 1) && Holds(parse, b, c, cycle, 1)
      ensures Filled(bounds.(events := b))
      ensures error == (old(error) || (a < b && !Supported(stream.messages[a].bytes)))
    {
      hide Data, QueuesWired, BackWired, Supported, Stream.Fits, Describes;
      parse := parse.Work(cycle);
      ghost var was := state[..];
      if parse.Finished(cycle) && bookSlot.Free() {
        var s := state[parse.msg];
        DataAt(stream, expected, was, bounds, parse.msg);
        var count, messages := parser.Parse(s.frame[..s.frameLen]);
        OneMessage(s.frame[..s.frameLen], messages, parser.status);
        error := error || count != 1 || parser.status != Ok || parser.consumed != s.frameLen;
        state[parse.msg] := s.(event := parser.events[0]);
        bookSlot := Slot(parse.msg, cycle + 1, BOOK_CYCLES);
        parse := parse.(msg := -1);
      }
      DataEvent(stream, expected, was, state[..], bounds, b);
    }

    // ---- MAC ----

    /** The MAC slot, with the framer set up for the one beat: message a is in it if a < b, and its beat
        is out if a < m. */
    ghost predicate MacHolds(a: int, m: int, b: int, cycle: int)
      reads this`mac, this`macBeatsTotal, framer
    {
      if a < b then
        && mac.msg == a && mac.avail <= cycle && mac.left == (if a < m then 0 else 1)
        && macBeatsTotal == 1 && framer.ipgValid
      else mac.Free()
    }

    /** Message y's only beat is framed if that has not been done, and the message is handed to the parser
        if that is free: then w is y + 1. */
    method MacStage(cycle: nat, ghost x: int, ghost y: int, ghost m: int, ghost z: int, ghost w: int, ghost bounds: Bounds)
      requires Wired() && 0 <= x <= y <= m <= z <= y + 1 && z <= stream.Count()
      requires y <= w <= z && (y < w <==> x == y < z)
      requires Holds(parse, x, y, cycle, 1) && MacHolds(y, m, z, cycle)
      requires Filled(bounds) && bounds.frames == m && z <= bounds.payloads
      modifies `mac, `parse, `error, state, framer
      ensures MacHolds(w, z, z, cycle + 1) && ParseHolds(x, y, w, cycle + 1) && error == old(error)
      ensures Filled(bounds.(frames := z))
    {
      hide Data, QueuesWired, BackWired, FrontWired, Stream.Fits;
      ghost var was := state[..];
      if 0 <= mac.msg && mac.avail <= cycle && 0 < mac.left {
        var s := state[mac.msg];
        DataAt(stream, expected, was, bounds, mac.msg);
        var offset := (macBeatsTotal - mac.left) * 64;
        var remaining := s.frameLen - offset;
        var n := if remaining < 64 then remaining else 64;
        var accepted := framer.Accept(mac.left == 1);
        error := error || !accepted;
        var frame := s.frame[..offset] + s.payload[offset..offset + n] + s.frame[offset + n..];
        assert frame == s.payload[..s.frameLen] + s.frame[s.frameLen..];
        state[mac.msg] := s.(frame := frame);
        mac := mac.(left := mac.left - 1);
      }
      if mac.Finished(cycle) && parse.Free() {
        parse := Slot(mac.msg, cycle + 1, PARSER_CYCLES);
        mac := mac.(msg := -1);
      }
      DataFrame(stream, expected, was, state[..], bounds, z);
    }

    // ---- PCS ----

    /** The wire: the next message is encoded into blocks when it has arrived. */
    method PickUp(cycle: nat)
      requires Wired() && nextMsg < stream.Count()
      modifies `pcs, `nextMsg, `error, state
      ensures nextMsg == old(nextMsg) + 1 && error == old(error)
      ensures pcs == Slot(old(nextMsg), cycle, stream.Blocks(old(nextMsg)))
      ensures var i := old(nextMsg); var s := state[i];
        && state[..] == old(state[..])[i := old(state[i]).(blocks := s.blocks, blockCount := s.blockCount)]
        && |s.blocks| == BLOCK_CAPACITY && s.blockCount == stream.Blocks(i) <= BLOCK_CAPACITY
        && Pcs.IsEncoding(s.blocks[..s.blockCount], stream.messages[i].bytes)
    {
      var m := stream.messages[nextMsg];
      var blocks := new nat[BLOCK_CAPACITY](_ => 0);
      var count := Pcs.Encode(m.bytes, blocks);
      error := error || count == 0;
      state[nextMsg] := state[nextMsg].(blocks := blocks[..], blockCount := count);
      pcs := Slot(nextMsg, cycle, count);
      nextMsg := nextMsg + 1;
    }

    /** The last block is in: the payload is decoded, and checked, for the MAC. */
    method HandOver(cycle: nat, id: nat)
      requires Wired() && id < stream.Count()
      requires |state[id].payload| == PAYLOAD_CAPACITY && state[id].blockCount <= |state[id].blocks|
      requires Pcs.IsEncoding(state[id].blocks[..state[id].blockCount], stream.messages[id].bytes)
      modifies `mac, `macBeatsTotal, `error, state, framer
      ensures error == old(error) && MacHolds(id, id, id + 1, cycle + 1)
      ensures var s, bytes := state[id], stream.messages[id].bytes;
        && state[..] == old(state[..])[id := old(state[id]).(payload := s.payload, frameLen := |bytes|)]
        && |s.payload| == PAYLOAD_CAPACITY && s.payload[..|bytes|] == bytes
    {
      var s := state[id];
      var length := |stream.messages[id].bytes|;
      var ok, payload := ReceivePayload(s.blocks[..s.blockCount], s.payload, length, stream.messages[id].bytes);
      error := error || !ok;
      state[id] := s.(payload := payload, frameLen := length);
      macBeatsTotal := (length + 63) / 64;
      var spaced := framer.VerifyIpg(MAC_IPG_IDLE_BYTES);
      error := error || !spaced;
      mac := Slot(id, cycle + 1, macBeatsTotal);
    }

    /** Messages before s are picked up; message d is on the wire with `left` blocks to come if d < s. */
    ghost predicate WireHolds(d: int, s: int, cycle: int, left: int)
      reads this`pcs, this`nextMsg
    {
      && nextMsg == s
      && if d < s then pcs.msg == d && pcs.avail <= cycle && pcs.left == left else pcs.Free()
    }

    /** Picks up message s if it has arrived and the wire is free, and receives one block; message d is
        handed over with its last one, or when the MAC is free again. */
    method PcsStage(cycle: nat, ghost x: int, ghost d: int, ghost e: int, ghost s: int, ghost u: int, ghost left: int,
                    ghost bounds: Bounds)
      requires Wired() && 0 <= x <= d && MacHolds(x, d, d, cycle + 1) && WireHolds(d, s, cycle, left)
      requires d <= x + 1 && d <= s <= u <= d + 1 && u <= stream.Count() && d <= e <= u
      requires d == s ==> (s < u <==> s < stream.Count() && stream.messages[s].arrival <= cycle)
      requires d == s < u ==> left == stream.Blocks(s)
      requires d < u ==> 0 <= left && (d < e <==> left <= 1 && x == d)
      requires Filled(bounds) && bounds.blocks == s && bounds.payloads == d && bounds.frames <= d
      modifies `pcs, `nextMsg, `mac, `macBeatsTotal, `error, state, framer
      ensures WireHolds(e, u, cycle + 1, Max(0, left - 1)) && MacHolds(x, d, e, cycle + 1) && error == old(error)
      ensures Filled(bounds.(blocks := u, payloads := e))
    {
      hide Data, Pcs.IsEncoding, QueuesWired, BackWired, FrontWired;
      ghost var was := state[..];
      if d < u { DataAt(stream, expected, was, bounds, d); }
      if pcs.Free() && nextMsg < stream.Count() && stream.messages[nextMsg].arrival <= cycle {
        PickUp(cycle);
      }
      pcs := pcs.Work(cycle);
      if pcs.Finished(cycle) && mac.Free() {
        HandOver(cycle, pcs.msg);
        pcs := pcs.(msg := -1);
      }
      DataReceived(stream, expected, was, state[..], bounds, e, u);
    }

    // ---- the negedge ----

    /** What the posedge has latched at the RAM's ports: a is read, b is written. */
    ghost predicate RamLatched(a: int, b: int, c: int)
      requires Wired() && 0 <= a <= b <= c <= stream.Count()
      reads bram
    {
      && bram.pendingA == WriteRequest(b, c, if b < c then expected[b].quote else NO_QUOTE)
      && bram.pendingB == ReadRequest(a, b)
    }

    /** The RAM has answered for a, whose id still waits, and has taken b's quote. */
    ghost predicate RamServed(a: int, b: int, c: int)
      reads bram, bram.memory, bramRing, bramRing.slab
    {
      && bramRing.Valid() && bramRing.Contents() == Ids(a, b) && !bram.collision
      && 0 <= a <= b <= c <= |expected| && bram.memory.Length == RAM_DEPTH
      && (b < c ==> bram.memory[b % RAM_DEPTH] == expected[b].quote)
      && bram.responseB.valid == (a < b) && (a < b ==> bram.responseB.data == expected[a].quote)
    }

    /** Serves the RAM: b's quote is written and a's is read. */
    method ServeRam(ghost a: int, ghost b: int, ghost c: int)
      requires Wired() && 0 <= a <= b <= c <= a + 1 && c <= stream.Count()
      requires RamLatched(a, b, c) && RamHolds(a, b, b)
      modifies bram, bram.memory
      ensures RamServed(a, b, c)
    {
      ghost var memory := bram.memory[..];
      bram.Negedge();
      assert bram.memory[..] == if b < c then memory[b % RAM_DEPTH := expected[b].quote] else memory;
      assert a < b ==> bram.memory[..][a % RAM_DEPTH] == expected[a].quote;
      assert b < c ==> bram.memory[..][b % RAM_DEPTH] == expected[b].quote;
    }

    /** A valid response goes to the OFI slot, under the id that asked for it. */
    method TakeResponse(cycle: nat, ghost a: int, ghost b: int, ghost c: int) returns (ok: bool)
      requires Wired() && RamServed(a, b, c) && ofiIn.Free() && b <= a + 1
      requires a < b ==> state[a].quote == expected[a].quote
      modifies `ofiIn, state, bramRing
      ensures ok && RamHolds(b, b, c)
      ensures Holds(ofiIn, a, b, cycle + 1, 0) && state[..] == old(state[..])
    {
      ok := true;
      if bram.responseB.valid {
        var id;
        ok, id := bramRing.Pop(-1);
        ok := ok && ofiIn.Free();
        if ok {
          state[id] := state[id].(quote := bram.responseB.data);
          ofiIn := Slot(id, cycle + 1, 0);
        }
      }
    }

    /** The sums so far: those of the first k messages. */
    ghost predicate Summed(k: int)
      reads this`cumulativeOfi, this`lastOfi
    {
      && 0 <= k <= |expected|
      && cumulativeOfi == SumOfi(k)
      && lastOfi == if k == 0 then 0 else expected[k - 1].ofi
    }

    ghost function SumOfi(k: int): int
      requires 0 <= k <= |expected|
      decreases k
    {
      if k == 0 then 0 else SumOfi(k - 1) + expected[k - 1].ofi
    }

    /** The oldest id that waits for its OFI value moves to the DMA queue. */
    method PassOn(ghost a: int, ghost c: int) returns (ok: bool, id: int)
      requires Wired() && ofiRing.Valid() && dmaQueue.Valid() && a < c
      requires ofiRing.Contents() == Ids(a, c) && dmaQueue.Contents() == []
      modifies ofiRing, dmaQueue, dmaQueue.slab
      ensures ok && id == a && ofiRing.Valid() && dmaQueue.Valid()
      ensures ofiRing.Contents() == Ids(a + 1, c) && dmaQueue.Contents() == Ids(a, a + 1)
    {
      hide RingBuffer.Valid, RingBuffer.Contents;
      IdsFirst(a, c);
      ok, id := ofiRing.Pop(-1);
      if ok {
        ok := dmaQueue.Push(id);
      }
    }

    /** The OFI value goes to its message and into the sums. */
    method RecordOutput(id: int, ghost bounds: Bounds)
      requires Wired() && 0 <= id < stream.Count() && ofi.output.value == expected[id].ofi && Summed(id)
      requires Filled(bounds) && bounds.outputs == id
      modifies `lastOfi, `cumulativeOfi, state
      ensures Summed(id + 1) && Filled(bounds.(outputs := id + 1))
    {
      ghost var was := state[..];
      state[id] := state[id].(ofi := ofi.output.value);
      DataOutput(stream, expected, was, state[..], bounds, id + 1);
      lastOfi := ofi.output.value;
      cumulativeOfi := cumulativeOfi + ofi.output.value;
    }

    /** The output of the arithmetic pipeline, if there is one, goes to its message, and the id of that
        message from the ring to the queue. */
    method TakeOutput(ghost a: int, ghost b: int, ghost c: int, ghost bounds: Bounds) returns (ok: bool)
      requires Wired() && ofiRing.Valid() && dmaQueue.Valid() && ofiRing != dmaQueue && ofiRing.slab != dmaQueue.slab
      requires 0 <= a <= b <= c && b <= a + 1 && b <= stream.Count() == |expected|
      requires ofi.output == StageOf(a, b)
      requires ofiRing.Contents() == Ids(a, c) && dmaQueue.Contents() == []
      requires Summed(a) && Filled(bounds) && bounds.outputs == a
      modifies `lastOfi, `cumulativeOfi, state, ofiRing, dmaQueue, dmaQueue.slab
      ensures ok && ofiRing.Valid() && dmaQueue.Valid()
      ensures ofiRing.Contents() == Ids(b, c) && dmaQueue.Contents() == Ids(a, b)
      ensures Summed(b) && Filled(bounds.(outputs := b))
    {
      hide RingBuffer.Valid, RingBuffer.Contents, Ids, Wired, Summed, Filled;
      IdsEmpty(a);
      ok := true;
      if ofi.output.valid {
        var id;
        ok, id := PassOn(a, c);
        if ok {
          RecordOutput(id, bounds);
        }
      }
    }

    /** The output side of the negedge. */
    method OutputStage(cycle: nat, ghost n: Clock, ghost bounds: Bounds) returns (ok: bool)
      requires Wired() && n.Spaced(stream.Count())
      requires OfiHolds(n.d8, n.d7, n.d6, n.d9) && ofi.output == StageOf(n.d9, n.d8)
      requires DmaHolds(n.d10, n.d9, n.d9, cycle) && Summed(n.d9)
      requires Filled(bounds) && bounds.outputs == n.d9
      modifies `lastOfi, `cumulativeOfi, state, ofiRing, dmaQueue, dmaQueue.slab
      ensures ok && OfiHolds(n.d8, n.d7, n.d6, n.d8)
      ensures DmaHolds(n.d10, n.d9, n.d8, cycle) && Summed(n.d8)
      ensures Filled(bounds.(outputs := n.d8))
    {
      IdsEmpty(n.d9);
      hide RingBuffer.Valid, RingBuffer.Contents, Ids, Summed, StageOf, PreviousQuote, Posted, EngineIdle,
        Holds, Filled;
      ok := TakeOutput(n.d9, n.d8, n.d6, bounds);
    }

    // ---- the whole cycle ----

    /** The clock of cycle t. Only mentioning At(t) makes the verifier compute it. */
    ghost predicate IsClock(c: Clock, t: int)
      requires Wired()
    {
      && c.Spaced(stream.Count())
      && forall x {:trigger At(x)} :: At(x) && x == t ==> c == stream.ClockAt(x)
    }

    /** The bounds of the message records at the start of a cycle. */
    ghost function BoundsAt(c: Clock): Bounds
    {
      Bounds(c.next, c.e0, c.e1, c.d3, c.d4, c.d8)
    }

    ghost function WireLeft(d: int, next: int, t: int): int
      requires Wired() && 0 <= d <= next <= stream.Count()
    {
      if d < next then Max(0, stream.Start(d) + stream.Blocks(d) - t) else 0
    }

    /** The parser, the MAC and the wire, at the start of cycle t. */
    ghost predicate InputHolds(d3: int, d2: int, d1: int, e1: int, e0: int, next: int, t: int)
      requires Wired() && 0 <= e0 <= next <= stream.Count()
      reads this`parse, this`mac, this`macBeatsTotal, this`pcs, this`nextMsg, framer, parser
    {
      && ParserReady() && ParseHolds(d3, d2, d1, t)
      && MacHolds(d1, e1, e0, t)
      && WireHolds(e0, next, t, WireLeft(e0, next, t))
    }

    /** From the wire to the book, at the start of cycle t. */
    ghost predicate FrontHolds(c: Clock, t: int)
      requires Wired() && c.Spaced(stream.Count())
      reads this`rd, this`bookSlot, this`parse, this`mac, this`macBeatsTotal, this`pcs, this`nextMsg, framer, parser
      reads keeper, keeper.orders, keeper.orders.entries, keeper.book, keeper.book.bids, keeper.book.asks
    {
      && Holds(rd, c.d5, c.d4, t, 1)
      && Holds(bookSlot, c.d4, c.d3, t, 1) && BookHolds(c.d4)
      && InputHolds(c.d3, c.d2, c.d1, c.e1, c.e0, c.next, t)
    }

    /** From the RAM to the DMA, at the start of cycle t. */
    ghost predicate BackHolds(c: Clock, t: int)
      requires Wired() && c.Spaced(stream.Count())
      reads this`ofiIn, this`dma, this`completed, this`records, this`cumulativeOfi, this`lastOfi, latency
      reads bram, bram.memory, bramRing, bramRing.slab
      reads ofi`previous, ofi`validPrevious, ofi.pipeline, ofiRing, ofiRing.slab
      reads engine, engine.ring, engine.ring.slab, dmaQueue, dmaQueue.slab
    {
      && RamHolds(c.d5, c.d5, c.d4)
      && Holds(ofiIn, c.d6, c.d5, t, 0)
      && OfiHolds(c.d8, c.d7, c.d6, c.d8)
      && DmaHolds(c.d10, c.d9, c.d8, t)
      && Summed(c.d8)
    }

    /** From the RAM to the DMA, after the posedge of cycle t; n is the clock of cycle t + 1. */
    ghost predicate BackLatched(n: Clock, t: int)
      requires Wired() && n.Spaced(stream.Count())
      reads this`ofiIn, this`dma, this`completed, this`records, this`cumulativeOfi, this`lastOfi, latency
      reads bram, bram.memory, bramRing, bramRing.slab
      reads ofi`previous, ofi`validPrevious, ofi.pipeline, ofiRing, ofiRing.slab
      reads engine, engine.ring, engine.ring.slab, dmaQueue, dmaQueue.slab
    {
      && RamHolds(n.d6, n.d5, n.d5) && RamLatched(n.d6, n.d5, n.d4)
      && ofiIn.Free()
      && OfiHolds(n.d8, n.d7, n.d6, n.d9) && ofi.pipeline[2] == StageOf(n.d9, n.d8)
      && DmaHolds(n.d10, n.d9, n.d9, t + 1)
      && Summed(n.d9)
    }

    /** Nothing has gone wrong: the parser has seen only supported messages, s of them, and the book
        has accepted the first a. */
    ghost predicate Clean(s: int, a: int)
      requires Wired() && s <= stream.Count() && a <= stream.Count()
    {
      && (forall i :: 0 <= i < s ==> Supported(stream.messages[i].bytes))
      && (forall i :: 0 <= i < a ==> expected[i].accepted)
    }

    /** The pipeline at the start of cycle t, in full. */
    ghost predicate Before(t: int)
      requires Wired()
      reads Parts()
    {
      && IsClock(clock, t)
      && !error && Clean(clock.d3, clock.d4)
      && FrontHolds(clock, t) && BackHolds(clock, t) && Filled(BoundsAt(clock))
    }

    /** The pipeline after the posedge of cycle t: the front is already that of cycle t + 1. */
    ghost predicate Between(t: int)
      requires Wired()
      reads Parts()
    {
      && IsClock(clock, t + 1)
      && error == !Clean(clock.d3, clock.d4)
      && FrontHolds(clock, t + 1) && BackLatched(clock, t) && Filled(BoundsAt(clock).(outputs := clock.d9))
    }

    // ---- what the stages leave behind in one posedge, from the wire to the OFI issue ----

    /** The parser is about to refuse a message. */
    ghost predicate ParseFails(c: Clock)
      requires Wired() && c.Spaced(stream.Count())
    {
      c.d3 < c.d2 && !Supported(stream.messages[c.d3].bytes)
    }

    /** The book is about to refuse one. */
    ghost predicate BookFails(c: Clock)
      requires Wired() && c.Spaced(stream.Count())
    {
      c.d4 < c.d3 && !expected[c.d4].accepted
    }

    /** The wire, the MAC and the parser have moved on to cycle t, and the book has what the parser has done. */
    ghost predicate InputMoved(c: Clock, n: Clock, t: int)
      requires Wired() && c.Spaced(stream.Count()) && n.Spaced(stream.Count())
      reads this`bookSlot, this`parse, this`mac, this`macBeatsTotal, this`pcs, this`nextMsg, state, framer, parser
    {
      && Holds(bookSlot, c.d3, c.d2, t, 1)
      && InputHolds(c.d2, c.d1, n.d1, c.e0, n.e0, n.next, t)
      && Filled(Bounds(n.next, n.e0, c.e0, c.d2, c.d3, c.d8))
    }

    /** So has the book, and its quote is about to be written to the RAM while an earlier one is read. */
    ghost predicate BookMoved(c: Clock, n: Clock, t: int)
      requires Wired() && c.Spaced(stream.Count()) && n.Spaced(stream.Count())
      reads this`rd, this`bookSlot, this`parse, this`mac, this`macBeatsTotal, this`pcs, this`nextMsg
      reads state, framer, parser
      reads keeper, keeper.orders, keeper.orders.entries, keeper.book, keeper.book.bids, keeper.book.asks
      reads bram, bram.memory, bramRing, bramRing.slab
    {
      && Holds(rd, c.d4, c.d3, t, 1) && BookHolds(c.d3) && InputMoved(c, n, t)
      && RamHolds(c.d5, c.d4, c.d4) && RamLatched(c.d5, c.d4, c.d3)
    }

    /** The waiting quote has entered the arithmetic pipeline, which shows an output. */
    ghost predicate Issued(c: Clock)
      requires Wired() && c.Spaced(stream.Count())
      reads this`ofiIn, ofi`previous, ofi`validPrevious, ofi.pipeline, ofiRing, ofiRing.slab
    {
      ofiIn.Free() && OfiHolds(c.d7, c.d6, c.d5, c.d8) && ofi.pipeline[2] == StageOf(c.d8, c.d7)
    }

    /** The quote that waits to be issued is there, and its value is to be that of the interpreter. */
    ghost predicate QuoteReady(c: Clock)
      requires Wired() && c.Spaced(stream.Count())
      reads state
    {
      c.d6 < c.d5 ==>
        && state[c.d6].quote == expected[c.d6].quote
        && expected[c.d6].ofi == Contribution(PreviousQuote(c.d6), expected[c.d6].quote)
    }

    // ---- what the schedule says about one cycle ----

    /** Before the first cycle nothing has been picked up. */
    lemma AtReset()
      requires Wired() && Expected() && SlotsReset() && QueuesReset(bramRing, ofiRing, dmaQueue)
      requires FrontReset(framer, parser, keeper) && BackReset(bram, ofi, engine)
      ensures Before(0)
    {
      stream.ClockAtZero();
      assert ofi.pipeline[..][0] == ofi.pipeline[..][1] == BUBBLE;
    }

    ghost predicate Follows(c: Clock, n: Clock)
    {
      n == Clock(c.d9, c.d8, c.d7, c.d6, c.d5, c.d4, c.d3, c.d2, c.d1, n.d1, c.e0, n.e0, n.next)
    }

    /** Who is on the wire in this cycle, how many blocks are to come, and who moves on. */
    ghost predicate WireStep(c: Clock, n: Clock, cycle: nat, left: int)
      requires Wired() && c.Spaced(stream.Count()) && n.Spaced(stream.Count())
    {
      && c.d1 <= n.d1 <= c.e0 && (c.d1 < n.d1 <==> c.d2 == c.d1 < c.e0)
      && c.next <= n.next <= c.e0 + 1 && c.e0 <= n.e0 <= n.next
      && (c.e0 == c.next ==> (c.next < n.next <==> c.next < stream.Count() && stream.messages[c.next].arrival <= cycle))
      && (c.e0 == c.next < n.next ==> left == stream.Blocks(c.next))
      && (c.e0 < n.next ==> 0 <= left && (c.e0 < n.e0 <==> left <= 1 && n.d1 == c.e0))
      && (c.e0 < c.next ==> left == WireLeft(c.e0, c.next, cycle))
      && (n.e0 < n.next ==> Max(0, left - 1) == WireLeft(n.e0, n.next, cycle + 1))
    }

    /** Message i is due to be posted in this cycle. */
    ghost predicate DueAt(i: int, cycle: nat)
      requires Wired() && 0 <= i < stream.Count()
    {
      && (cycle + 1 - stream.messages[i].arrival) % 0x1_0000_0000 == expected[i].latency
      && DecisionRecord(i, expected[i].ofi, expected[i].quote) == expected[i].record
    }

    /** Who moves on to the parser in this cycle. */
    lemma MacFacts(cycle: nat, c: Clock, n: Clock)
      requires Wired() && c == stream.ClockAt(cycle) && n == stream.ClockAt(cycle + 1)
      ensures Follows(c, n) && c.d1 <= n.d1 <= c.e0 && (c.d1 < n.d1 <==> c.d2 == c.d1 < c.e0)
    {
      stream.OneEach(cycle);
      if c.d1 < c.e0 {
        assert c.d1 > 0 ==> stream.Framed(c.d1 - 1) <= cycle - 1;
        assert stream.Finish(c.d1) <= cycle;
        assert c.d1 < n.d1 <==> stream.Framed(c.d1) <= cycle;
        assert c.d1 > 0 ==> (c.d2 == c.d1 <==> stream.Framed(c.d1 - 1) <= cycle - 2);
      }
    }

    /** Who is picked up. */
    lemma WireFacts(cycle: nat, c: Clock, n: Clock)
      requires Wired() && c == stream.ClockAt(cycle) && n == stream.ClockAt(cycle + 1)
      ensures c.next <= n.next <= c.e0 + 1 && c.e0 <= n.e0 <= n.next
      ensures c.e0 == c.next ==>
        (c.next < n.next <==> c.next < stream.Count() && stream.messages[c.next].arrival <= cycle)
      ensures c.e0 == c.next < n.next ==> stream.Start(c.next) == cycle
      ensures n.e0 < n.next ==> n.e0 == c.e0
    {
      hide Stream.ClockAt;
      ClockFields(cycle, c);
      ClockFields(cycle + 1, n);
      stream.OneEach(cycle);
      stream.OneEach(cycle + 1);
      if n.next > c.e0 + 1 {
        stream.FinishGrows(c.e0, c.e0 + 1);
      }
      if c.e0 == c.next < stream.Count() {
        assert c.next > 0 ==> stream.Finish(c.next - 1) <= cycle;
        assert c.next < n.next <==> stream.Start(c.next) <= cycle;
      }
    }

    lemma ClockFields(t: int, c: Clock)
      requires Wired() && c == stream.ClockAt(t)
      ensures c.e0 == stream.Received(t) && c.next == stream.Started(t - 1)
      ensures c.d1 == stream.Done(t - 1) && c.e1 == stream.Received(t - 1)
    {
    }

    /** Who is handed to the MAC: its last block is in, and the MAC has moved on the one before. */
    lemma HandFacts(cycle: nat, c: Clock, n: Clock)
      requires Wired() && c == stream.ClockAt(cycle) && n == stream.ClockAt(cycle + 1)
      requires c.e0 < n.next && n.d1 <= c.e0
      ensures c.e0 < n.e0 <==> stream.Start(c.e0) + stream.Blocks(c.e0) <= cycle + 1 && n.d1 == c.e0
    {
      hide Stream.ClockAt;
      ClockFields(cycle, c);
      ClockFields(cycle + 1, n);
      assert c.e0 < n.e0 <==> stream.Finish(c.e0) <= cycle + 1;
      assert c.e0 > 0 ==> (n.d1 == c.e0 <==> stream.Framed(c.e0 - 1) <= cycle);
    }

    lemma NextClock(cycle: nat, c: Clock) returns (n: Clock, left: int)
      requires Wired() && IsClock(c, cycle)
      ensures IsClock(n, cycle + 1) && Follows(c, n) && c.Spaced(stream.Count()) && n.Spaced(stream.Count())
      ensures WireStep(c, n, cycle, left)
    {
      hide Stream.ClockAt, Stream.Finish, Stream.Start;
      assert At(cycle);
      n := stream.ClockAt(cycle + 1);
      MacFacts(cycle, c, n);
      WireFacts(cycle, c, n);
      if c.e0 < n.next { HandFacts(cycle, c, n); }
      left := if c.e0 < n.next then Max(0, stream.Start(c.e0) + stream.Blocks(c.e0) - cycle) else 0;
    }

    lemma DueNow(cycle: nat, c: Clock)
      requires Wired() && Expected() && IsClock(c, cycle)
      ensures c.d10 < c.d9 ==> DueAt(c.d10, cycle)
    {
      hide DecisionRecord, Stream.OfiOf, Stream.Quote, Stream.Accepted, Contribution;
      assert At(cycle);
      if c.d10 < c.d9 {
        assert At(c.d10);
        stream.MovesAt(c.d10, cycle - 9);
      }
    }

    /** One more message is parsed and one more is applied: it stays clean unless one of them is not. */
    lemma StillClean(c: Clock, n: Clock)
      requires Wired() && c.Spaced(stream.Count()) && n.Spaced(stream.Count()) && Follows(c, n) && Clean(c.d3, c.d4)
      ensures c.d4 < c.d3 ==> Supported(stream.messages[c.d4].bytes)
      ensures !Clean(n.d3, n.d4) <==> BookFails(c) || ParseFails(c)
    {
    }

    lemma OfiExpected(i: int)
      requires Wired() && Expected() && 0 <= i < stream.Count()
      ensures expected[i].ofi == Contribution(PreviousQuote(i), expected[i].quote)
    {
      assert At(i) && At(i - 1);
    }

    /** The quotes and OFI values that the stages behind the book are about to use. */
    lemma ReadyData(cycle: nat, c: Clock)
      requires Wired() && Expected() && c.Spaced(stream.Count()) && Filled(BoundsAt(c))
      requires c.d10 < c.d9 ==> DueAt(c.d10, cycle)
      ensures c.d10 < c.d9 ==> Due(c.d10, cycle)
      ensures QuoteReady(c)
    {
      if c.d10 < c.d9 {
        assert Computed(stream, expected, c.d10, state[..][c.d10], BoundsAt(c));
      }
      if c.d6 < c.d5 {
        OfiExpected(c.d6);
        assert Computed(stream, expected, c.d6, state[..][c.d6], BoundsAt(c));
      }
    }

    // ---- the posedge ----

    /** OFI issue and quote RAM read-back. */
    method IssueAndRead(cycle: nat, ghost c: Clock) returns (request: Request<BookQuote>)
      requires Wired() && c.Spaced(stream.Count())
      requires OfiHolds(c.d8, c.d7, c.d6, c.d8) && Holds(ofiIn, c.d6, c.d5, cycle, 0)
      requires RamHolds(c.d5, c.d5, c.d4) && Holds(rd, c.d5, c.d4, cycle, 1)
      requires QuoteReady(c)
      modifies `error, `ofiIn, `rd, ofiRing, ofiRing.slab, ofi, ofi.pipeline, bramRing, bramRing.slab
      ensures Issued(c)
      ensures RamHolds(c.d5, c.d4, c.d4) && request == ReadRequest(c.d5, c.d4) && rd.Free()
      ensures error == old(error)
    {
      hide RamHolds, OfiHolds, DmaHolds, ParseHolds, MacHolds, WireHolds, BookHolds, ParserReady, Filled, Holds,
        RamLatched, Summed, StageOf, PreviousQuote, Pcs.IsEncoding, Describes, Due;
      OfiStage(cycle, c.d8, c.d7, c.d6, c.d5);
      request := ReadStage(cycle, c.d5, c.d4);
    }

    /** PARSE and MAC. */
    method ParseAndFrame(cycle: nat, ghost c: Clock, ghost w: int, ghost bounds: Bounds)
      requires Wired() && c.Spaced(stream.Count()) && c.d1 <= w <= c.e0 && (c.d1 < w <==> c.d2 == c.d1 < c.e0)
      requires Filled(bounds) && bounds.events == c.d3 && bounds.frames == c.e1 && bounds.payloads == c.e0
      requires ParserReady() && ParseHolds(c.d3, c.d2, c.d1, cycle) && MacHolds(c.d1, c.e1, c.e0, cycle) && bookSlot.Free()
      modifies `bookSlot, `parse, `mac, `error, state, parser, parser.events, framer
      ensures Holds(bookSlot, c.d3, c.d2, cycle + 1, 1)
      ensures ParserReady() && ParseHolds(c.d2, c.d1, w, cycle + 1) && MacHolds(w, c.e0, c.e0, cycle + 1)
      ensures Filled(bounds.(frames := c.e0, events := c.d2))
      ensures error == (old(error) || ParseFails(c))
    {
      hide RamHolds, OfiHolds, DmaHolds, ParseHolds, MacHolds, WireHolds, BookHolds, ParserReady, Filled, Holds,
        RamLatched, Summed, StageOf, PreviousQuote, Pcs.IsEncoding, Describes, Due;
      ParseStage(cycle, c.d3, c.d2, c.d1, bounds);
      MacStage(cycle, c.d2, c.d1, c.e1, c.e0, w, bounds.(events := c.d2));
    }

    /** PARSE, MAC and PCS. */
    method ParseToWire(cycle: nat, ghost c: Clock, ghost n: Clock, ghost left: int)
      requires Wired() && c.Spaced(stream.Count()) && n.Spaced(stream.Count()) && WireStep(c, n, cycle, left)
      requires Filled(BoundsAt(c).(quotes := c.d3)) && bookSlot.Free()
      requires InputHolds(c.d3, c.d2, c.d1, c.e1, c.e0, c.next, cycle)
      modifies `bookSlot, `parse, `mac, `error, `pcs, `nextMsg, `macBeatsTotal, state, parser, parser.events, framer
      ensures InputMoved(c, n, cycle + 1)
      ensures error == (old(error) || ParseFails(c))
    {
      hide RamHolds, OfiHolds, DmaHolds, ParseHolds, MacHolds, BookHolds, ParserReady, Filled, Holds,
        RamLatched, Summed, StageOf, PreviousQuote, Pcs.IsEncoding, Describes, Due, ParseFails;
      ghost var bounds := BoundsAt(c).(quotes := c.d3);
      ParseAndFrame(cycle, c, n.d1, bounds);
      PcsStage(cycle, n.d1, c.e0, n.e0, c.next, n.next, left, bounds.(frames := c.e0, events := c.d2));
    }

    /** PARSE, MAC and PCS, and the RAM's ports latched. */
    method WireAndLatch(cycle: nat, ghost c: Clock, ghost n: Clock, ghost left: int,
                        a: Request<BookQuote>, b: Request<BookQuote>)
      requires Wired() && c.Spaced(stream.Count()) && n.Spaced(stream.Count()) && WireStep(c, n, cycle, left)
      requires Filled(BoundsAt(c).(quotes := c.d3)) && bookSlot.Free()
      requires InputHolds(c.d3, c.d2, c.d1, c.e1, c.e0, c.next, cycle)
      requires RamHolds(c.d5, c.d4, c.d4) && b == ReadRequest(c.d5, c.d4)
      requires a == WriteRequest(c.d4, c.d3, if c.d4 < c.d3 then expected[c.d4].quote else NO_QUOTE)
      modifies `bookSlot, `parse, `mac, `error, `pcs, `nextMsg, `macBeatsTotal
      modifies state, parser, parser.events, framer, bram
      ensures InputMoved(c, n, cycle + 1)
      ensures RamHolds(c.d5, c.d4, c.d4) && RamLatched(c.d5, c.d4, c.d3)
      ensures error == (old(error) || ParseFails(c))
    {
      hide InputHolds, InputMoved, Filled, WireStep, ParseFails, WireLeft, Supported;
      ParseToWire(cycle, c, n, left);
      bram.Posedge(a, b);
    }

    /** BOOK and the stages before it. */
    method BookToWire(cycle: nat, ghost c: Clock, ghost n: Clock, ghost left: int, b: Request<BookQuote>)
      requires Wired() && Expected() && c.Spaced(stream.Count()) && n.Spaced(stream.Count())
      requires WireStep(c, n, cycle, left) && Filled(BoundsAt(c))
      requires rd.Free() && Holds(bookSlot, c.d4, c.d3, cycle, 1) && BookHolds(c.d4)
      requires InputHolds(c.d3, c.d2, c.d1, c.e1, c.e0, c.next, cycle)
      requires RamHolds(c.d5, c.d4, c.d4) && b == ReadRequest(c.d5, c.d4)
      requires c.d4 < c.d3 ==> Supported(stream.messages[c.d4].bytes)
      modifies `rd, `bookSlot, `parse, `mac, `error, `pcs, `nextMsg, `macBeatsTotal
      modifies state, parser, parser.events, framer
      modifies keeper, keeper.orders.entries, keeper.book, keeper.book.bids, keeper.book.asks, bram
      ensures BookMoved(c, n, cycle + 1)
      ensures error == (old(error) || BookFails(c) || ParseFails(c))
    {
      hide InputHolds, InputMoved, BookHolds, Filled, Holds, RamHolds, RamLatched, Wired, Expected, WireStep, WireLeft,
        Supported, ParseFails, ReadRequest, WriteRequest;
      var a := BookStage(cycle, c.d4, c.d3, BoundsAt(c));
      WireAndLatch(cycle, c, n, left, a, b);
    }

    /** Every stage but the DMA. */
    method IssueToWire(cycle: nat, ghost c: Clock, ghost n: Clock, ghost left: int)
      requires Wired() && Expected() && c.Spaced(stream.Count()) && n.Spaced(stream.Count())
      requires WireStep(c, n, cycle, left) && Filled(BoundsAt(c)) && FrontHolds(c, cycle)
      requires OfiHolds(c.d8, c.d7, c.d6, c.d8) && Holds(ofiIn, c.d6, c.d5, cycle, 0) && RamHolds(c.d5, c.d5, c.d4)
      requires QuoteReady(c) && (c.d4 < c.d3 ==> Supported(stream.messages[c.d4].bytes))
      modifies `rd, `bookSlot, `parse, `mac, `error, `pcs, `nextMsg, `macBeatsTotal
      modifies state, parser, parser.events, framer
      modifies keeper, keeper.orders.entries, keeper.book, keeper.book.bids, keeper.book.asks, bram
      modifies `ofiIn, ofiRing, ofiRing.slab, ofi, ofi.pipeline, bramRing, bramRing.slab
      ensures Issued(c) && BookMoved(c, n, cycle + 1)
      ensures error == (old(error) || BookFails(c) || ParseFails(c))
    {
      hide RamHolds, OfiHolds, DmaHolds, InputHolds, BookMoved, BookHolds, Filled, Holds,
        RamLatched, Summed, StageOf, PreviousQuote, Pcs.IsEncoding, Describes, Due, Wired, Expected, WireStep,
        WireLeft, ReadRequest, WriteRequest, Supported, QuoteReady, BookFails, ParseFails, Issued;
      var b := IssueAndRead(cycle, c);
      BookToWire(cycle, c, n, left, b);
    }

    lemma Apart()
      requires Wired()
      ensures dmaQueue != ofiRing && dmaQueue != bramRing && latency != ofiRing.slab && latency != bramRing.slab
      ensures dmaQueue.slab != ofiRing.slab && dmaQueue.slab != bramRing.slab
    {
    }

    /** All stages of a posedge that is not stopped by an error. */
    method AllStages(cycle: nat, ghost c: Clock, ghost n: Clock, ghost left: int)
      requires Wired() && Expected() && c.Spaced(stream.Count()) && n.Spaced(stream.Count())
      requires dmaQueue != ofiRing && dmaQueue != bramRing && latency != ofiRing.slab && latency != bramRing.slab
      requires dmaQueue.slab != ofiRing.slab && dmaQueue.slab != bramRing.slab
      requires WireStep(c, n, cycle, left) && Filled(BoundsAt(c)) && FrontHolds(c, cycle) && BackHolds(c, cycle)
      requires c.d10 < c.d9 ==> Due(c.d10, cycle)
      requires QuoteReady(c) && (c.d4 < c.d3 ==> Supported(stream.messages[c.d4].bytes))
      modifies `rd, `bookSlot, `parse, `mac, `error, `pcs, `nextMsg, `macBeatsTotal
      modifies state, parser, parser.events, framer
      modifies keeper, keeper.orders.entries, keeper.book, keeper.book.bids, keeper.book.asks, bram
      modifies `ofiIn, ofiRing, ofiRing.slab, ofi, ofi.pipeline, bramRing, bramRing.slab
      modifies `dma, `completed, `records, engine, engine.ring, engine.ring.slab, latency, dmaQueue
      ensures Issued(c) && BookMoved(c, n, cycle + 1)
      ensures error == (old(error) || BookFails(c) || ParseFails(c))
      ensures DmaHolds(c.d9, c.d8, c.d8, cycle + 1) && Summed(c.d8)
    {
      hide RamHolds, OfiHolds, DmaHolds, FrontHolds, BookMoved, BookHolds, Filled, Holds,
        RamLatched, Summed, StageOf, PreviousQuote, Pcs.IsEncoding, Describes, Due, Wired, Expected, WireStep,
        WireLeft, ReadRequest, WriteRequest, Supported, QuoteReady, BookFails, ParseFails, Issued;
      DmaStage(cycle, c.d10, c.d9, c.d8);
      IssueToWire(cycle, c, n, left);
    }

    lemma FrontFollows(c: Clock, n: Clock, t: int)
      requires Wired() && c.Spaced(stream.Count()) && n.Spaced(stream.Count()) && Follows(c, n)
      requires BookMoved(c, n, t)
      ensures FrontHolds(n, t) && Filled(BoundsAt(n).(outputs := n.d9))
    {
      hide RamHolds, OfiHolds, DmaHolds, InputHolds, BookHolds, Filled, Holds, RamLatched, Summed, StageOf, PreviousQuote;
    }

    lemma BackFollows(c: Clock, n: Clock, t: int)
      requires Wired() && c.Spaced(stream.Count()) && n.Spaced(stream.Count()) && Follows(c, n)
      requires Issued(c) && BookMoved(c, n, t + 1)
      requires DmaHolds(c.d9, c.d8, c.d8, t + 1) && Summed(c.d8)
      ensures BackLatched(n, t)
    {
      hide RamHolds, OfiHolds, DmaHolds, InputMoved, BookHolds, Holds, RamLatched, Summed, StageOf, PreviousQuote;
    }

    /** A posedge that is not stopped by an error. */
    method Advance(cycle: nat)
      requires Wired() && Expected() && Before(cycle)
      modifies `clock
      modifies `rd, `bookSlot, `parse, `mac, `error, `pcs, `nextMsg, `macBeatsTotal
      modifies state, parser, parser.events, framer
      modifies keeper, keeper.orders.entries, keeper.book, keeper.book.bids, keeper.book.asks, bram
      modifies `ofiIn, ofiRing, ofiRing.slab, ofi, ofi.pipeline, bramRing, bramRing.slab
      modifies `dma, `completed, `records, engine, engine.ring, engine.ring.slab, latency, dmaQueue
      ensures Between(cycle)
    {
      hide Describes, RamHolds, OfiHolds, DmaHolds, BookMoved, Filled, Holds, Summed, FrontHolds, BackHolds, BackLatched,
        Due, DueAt, Wired, Expected, WireStep, WireLeft, Supported, Clean, QuoteReady, BookFails, ParseFails, Issued;
      ghost var c := clock;
      ghost var n, left := NextClock(cycle, c);
      DueNow(cycle, c);
      ReadyData(cycle, c);
      StillClean(c, n);
      Apart();
      AllStages(cycle, c, n, left);
      FrontFollows(c, n, cycle + 1);
      BackFollows(c, n, cycle);
      clock := n;
    }

    /** The posedge, downstream first. It sets the error flag exactly when a message that is not
        supported reaches the parser or one that is not accepted reaches the book. */
    method Posedge(cycle: nat)
      requires Wired() && Expected() && (error || Before(cycle))
      modifies Parts()
      ensures old(error) ==> Frozen()
      ensures !old(error) ==> Between(cycle)
    {
      hide RamHolds, OfiHolds, DmaHolds, ParseHolds, MacHolds, WireHolds, BookHolds, ParserReady, Filled, Holds,
        RamLatched, Summed, StageOf, PreviousQuote, Pcs.IsEncoding, Describes, Due, DueAt, FrontHolds,
        BackHolds, BackLatched, IsClock, Before, Between;
      if error {
        bram.Posedge(bram.Idle(), bram.Idle());
        ofi.PosedgeIdle();
      } else {
        Advance(cycle);
      }
    }

    /** The answer that the RAM is about to give is the quote that is there already. */
    lemma AnswerData(n: Clock)
      requires Wired() && n.Spaced(stream.Count()) && Filled(BoundsAt(n).(outputs := n.d9))
      ensures n.d6 < n.d5 ==> state[n.d6].quote == expected[n.d6].quote
    {
      if n.d6 < n.d5 {
        assert Computed(stream, expected, n.d6, state[..][n.d6], BoundsAt(n).(outputs := n.d9));
      }
    }

    /** The RAM and the arithmetic pipeline move, then their outputs are handed on. */
    method Edges(cycle: nat, ghost n: Clock) returns (ok: bool)
      requires Wired() && n.Spaced(stream.Count()) && Filled(BoundsAt(n).(outputs := n.d9))
      requires RamHolds(n.d6, n.d5, n.d5) && RamLatched(n.d6, n.d5, n.d4) && ofiIn.Free()
      requires n.d6 < n.d5 ==> state[n.d6].quote == expected[n.d6].quote
      requires OfiHolds(n.d8, n.d7, n.d6, n.d9) && ofi.pipeline[2] == StageOf(n.d9, n.d8)
      requires DmaHolds(n.d10, n.d9, n.d9, cycle + 1) && Summed(n.d9)
      requires QueuesWired(bramRing, ofiRing, dmaQueue) && ofi.Valid()
      modifies `ofiIn, `lastOfi, `cumulativeOfi, state
      modifies bram, bram.memory, bramRing, ofi, ofiRing, dmaQueue, dmaQueue.slab
      ensures ok && RamHolds(n.d5, n.d5, n.d4) && Holds(ofiIn, n.d6, n.d5, cycle + 1, 0)
      ensures OfiHolds(n.d8, n.d7, n.d6, n.d8)
      ensures DmaHolds(n.d10, n.d9, n.d8, cycle + 1) && Summed(n.d8) && Filled(BoundsAt(n))
    {
      hide Wired, RamHolds, RamServed, OfiHolds, DmaHolds, Data, Holds, RamLatched, Summed, StageOf,
        PreviousQuote, Describes, RingBuffer.Valid, RingBuffer.Contents;
      ServeRam(n.d6, n.d5, n.d4);
      ofi.Negedge();
      ok := TakeResponse(cycle, n.d6, n.d5, n.d4);
      if ok {
        ok := OutputStage(cycle + 1, n, BoundsAt(n).(outputs := n.d9));
      }
    }

    /** The negedge of a cycle without an error. */
    method Settle(cycle: nat) returns (ok: bool)
      requires Wired() && !error && Between(cycle)
      modifies Parts()
      ensures ok && !error && Before(cycle + 1)
    {
      hide FrontHolds, RamHolds, RamServed, OfiHolds, DmaHolds, Filled, Holds, RamLatched, Summed, WireHolds,
        MacHolds, ParseHolds, ParserReady, BookHolds, Clean, StageOf, PreviousQuote, Describes,
        RingBuffer.Valid, RingBuffer.Contents;
      ghost var n := clock;
      AnswerData(n);
      ok := Edges(cycle, n);
    }

    /** The negedge. Its own failure branches are never taken. */
    method Negedge(cycle: nat)
      requires Wired() && (error || Between(cycle))
      modifies Parts()
      ensures error == old(error)
      ensures !error ==> Before(cycle + 1)
      ensures error ==> Frozen()
      ensures error && old(Between(cycle)) ==> Between(cycle)
    {
      hide Before, Between;
      if !error {
        var ok := Settle(cycle);
        error := !ok;
      }
    }

    /** Nothing that can be observed has changed. */
    twostate predicate Frozen()
      reads this, state, latency, keeper.book, engine
    {
      && error == old(error) && pcs == old(pcs) && completed == old(completed)
      && engine.posted == old(engine.posted) && records == old(records)
      && state[..] == old(state[..]) && latency[..] == old(latency[..])
      && cumulativeOfi == old(cumulativeOfi) && lastOfi == old(lastOfi)
      && keeper.book.overflowCount == old(keeper.book.overflowCount)
    }
  }
}
