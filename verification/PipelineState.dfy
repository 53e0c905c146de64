/** The values that the pipeline of include/pipeline/tick_to_trade.hpp keeps: slots, message records,
    decision records; and what each record should hold by when. */
module PipelineState {
  import opened Words
  import opened Parser
  import opened Ofi
  import opened Ledgers
  import opened Bram
  import opened PcieDma
  import opened Schedules
  import Pcs

  const PARSER_CYCLES: nat := 2
  const BOOK_CYCLES: nat := 1
  const DMA_POST_CYCLES: nat := 2
  const MAC_IPG_IDLE_BYTES: nat := 12
  const RAM_DEPTH: nat := 32
  const BLOCK_CAPACITY: nat := 8
  const PAYLOAD_CAPACITY: nat := 48
  const FRAME_CAPACITY: nat := 128

  /** A stage's one-message slot; msg is negative when the slot is free. */
  datatype Slot = Slot(msg: int, avail: int, left: nat) {
    predicate Free()
    {
      msg < 0
    }

    /** One cycle of work, if the message is there and available. */
    function Work(cycle: nat): Slot
    {
      if 0 <= msg && avail <= cycle && 0 < left then this.(left := left - 1) else this
    }

    predicate Finished(cycle: nat)
    {
      0 <= msg && avail <= cycle && left == 0
    }
  }

  const FREE_SLOT: Slot := Slot(-1, 0, 0)

  datatype MsgState = MsgState(blocks: seq<nat>, blockCount: nat, payload: seq<byte>, frame: seq<byte>, frameLen: nat,
                               event: Event, quote: BookQuote, ofi: int)

  const EMPTY_STATE: MsgState :=
    MsgState(seq(BLOCK_CAPACITY, _ => 0), 0, Zeros(PAYLOAD_CAPACITY), Zeros(FRAME_CAPACITY), 0, EMPTY_EVENT, NO_QUOTE, 0)

  function ToUint32(v: int): nat
  {
    v % 0x1_0000_0000
  }

  /** The decision record posted for message id. */
  function DecisionRecord(id: nat, ofi: int, quote: BookQuote): Tlp
  {
    Tlp(0x10000000 + 64 * id, 16, ToUint32(id),
        PutBytes(ToUint32(id), 4) + PutBytes(ToUint32(ofi), 4)
        + PutBytes(ToUint32(quote.bidPrice), 4) + PutBytes(ToUint32(quote.askPrice), 4))
  }

  /** How a consumer reads a record: 16 bytes at the address and under the tag of the message, with its id, its
      OFI value and the best bid and ask prices in four bytes each, most significant first. */
  predicate ReadsAs(record: Tlp, id: nat, ofi: int, quote: BookQuote)
  {
    && record.address == 0x10000000 + 64 * id && record.tag == id % 0x1_0000_0000
    && record.byteCount == |record.payload| == 16
    && BigEndian(record.payload[0..4]) == id % 0x1_0000_0000
    && ToInt32(BigEndian(record.payload[4..8])) == ofi
    && BigEndian(record.payload[8..12]) == quote.bidPrice % 0x1_0000_0000
    && BigEndian(record.payload[12..16]) == quote.askPrice % 0x1_0000_0000
  }

  lemma RecordReads(id: nat, ofi: int, quote: BookQuote)
    requires IsInt32(ofi)
    ensures ReadsAs(DecisionRecord(id, ofi, quote), id, ofi, quote)
  {
    hide PutBytes, BigEndian;
    var p := DecisionRecord(id, ofi, quote).payload;
    ByteWidths();
    assert p[0..4] == PutBytes(ToUint32(id), 4) && p[4..8] == PutBytes(ToUint32(ofi), 4);
    assert p[8..12] == PutBytes(ToUint32(quote.bidPrice), 4) && p[12..16] == PutBytes(ToUint32(quote.askPrice), 4);
    PutGet(ToUint32(id), 4);
    PutGet(ToUint32(ofi), 4);
    PutGet(ToUint32(quote.bidPrice), 4);
    PutGet(ToUint32(quote.askPrice), 4);
  }

  /** What the schedule and the sequential interpreter say becomes of a message. */
  datatype Outcome = Outcome(accepted: bool, quote: BookQuote, ofi: int, latency: int, record: Tlp)

  ghost function OutcomeOf(stream: Stream, i: nat): Outcome
    requires i < stream.Count()
  {
    var quote, ofi := stream.Quote(i), stream.OfiOf(i);
    Outcome(stream.Accepted(i), quote, ofi, stream.Latency(i) % 0x1_0000_0000, DecisionRecord(i, ofi, quote))
  }

  /** The tables agree with the schedule and the interpreter. */
  ghost predicate Describes(stream: Stream, expected: seq<Outcome>, ledgers: seq<Ledger>)
  {
    && |expected| == stream.Count() && |ledgers| == stream.Count() + 1
    && ledgers[0] == EMPTY
    && forall i {:trigger At(i)} :: At(i) && 0 <= i < stream.Count() ==>
         && expected[i] == OutcomeOf(stream, i)
         && ledgers[i] == stream.After(i) && ledgers[i + 1] == stream.After(i + 1)
  }

  ghost function Outcomes(stream: Stream): seq<Outcome>
  {
    seq(stream.Count(), i requires 0 <= i < stream.Count() => OutcomeOf(stream, i))
  }

  ghost function LedgersOf(stream: Stream): seq<Ledger>
  {
    seq(stream.Count() + 1, k requires 0 <= k <= stream.Count() => stream.After(k))
  }

  lemma TablesDescribe(stream: Stream)
    ensures Describes(stream, Outcomes(stream), LedgersOf(stream))
  {
  }

  /** The slot holds message lo if lo < hi, and is free otherwise. */
  predicate Holds(s: Slot, lo: int, hi: int, avail: int, left: nat)
  {
    if lo < hi then s == Slot(lo, avail, left) else s.Free()
  }

  /** What enters the RAM's ports for message lo, if lo < hi. */
  function ReadRequest(lo: int, hi: int): Request<BookQuote>
    requires lo < hi ==> 0 <= lo
  {
    if lo < hi then Request(true, false, lo % RAM_DEPTH, NO_QUOTE) else Request(false, false, 0, NO_QUOTE)
  }

  function WriteRequest(lo: int, hi: int, quote: BookQuote): Request<BookQuote>
    requires lo < hi ==> 0 <= lo
  {
    if lo < hi then Request(false, true, lo % RAM_DEPTH, quote) else Request(false, false, 0, NO_QUOTE)
  }

  /** How far each field of the message records has been filled in: the first so many messages. */
  datatype Bounds = Bounds(blocks: int, payloads: int, frames: int, events: int, quotes: int, outputs: int)

  /** The record of message i holds what the bounds say it does. */
  ghost predicate Computed(stream: Stream, expected: seq<Outcome>, i: nat, s: MsgState, b: Bounds)
    requires i < stream.Count() == |expected|
  {
    var bytes := stream.messages[i].bytes;
    && |s.blocks| == BLOCK_CAPACITY && |s.payload| == PAYLOAD_CAPACITY && |s.frame| == FRAME_CAPACITY
    && (i < b.blocks ==>
         s.blockCount == stream.Blocks(i) <= BLOCK_CAPACITY && Pcs.IsEncoding(s.blocks[..s.blockCount], bytes))
    && (i < b.payloads ==> s.frameLen == |bytes| <= PAYLOAD_CAPACITY && s.payload[..s.frameLen] == bytes)
    && (i < b.frames ==> |bytes| <= FRAME_CAPACITY && s.frame[..|bytes|] == bytes)
    && (i < b.events && Supported(bytes) ==> s.event == EventOf(bytes))
    && (i < b.quotes ==> s.quote == expected[i].quote)
    && (i < b.outputs ==> s.ofi == expected[i].ofi)
  }

  ghost predicate Data(stream: Stream, expected: seq<Outcome>, states: seq<MsgState>, b: Bounds)
  {
    && |states| == |expected| == stream.Count()
    && forall i :: 0 <= i < |states| ==> Computed(stream, expected, i, states[i], b)
  }

  lemma DataAt(stream: Stream, expected: seq<Outcome>, states: seq<MsgState>, b: Bounds, i: nat)
    requires Data(stream, expected, states, b) && i < |states|
    ensures Computed(stream, expected, i, states[i], b)
  {
  }

  predicate Bump(from: int, to: int, i: int)
  {
    to == from || (from == i && to == i + 1)
  }

  /** Filling in fields of record i moves only the bounds that stood at i. */
  lemma DataPut(stream: Stream, expected: seq<Outcome>, states: seq<MsgState>, b: Bounds, c: Bounds, i: nat,
                now: MsgState)
    requires Data(stream, expected, states, b) && i < |states|
    requires Bump(b.blocks, c.blocks, i) && Bump(b.payloads, c.payloads, i) && Bump(b.frames, c.frames, i)
    requires Bump(b.events, c.events, i) && Bump(b.quotes, c.quotes, i) && Bump(b.outputs, c.outputs, i)
    requires Computed(stream, expected, i, now, c)
    ensures Data(stream, expected, states[i := now], c)
  {
    var after := states[i := now];
    forall j | 0 <= j < |states| ensures Computed(stream, expected, j, after[j], c) {
      assert Computed(stream, expected, j, states[j], b);
    }
  }

  lemma DataQuote(stream: Stream, expected: seq<Outcome>, was: seq<MsgState>, now: seq<MsgState>, b: Bounds, to: int)
    requires Data(stream, expected, was, b) && 0 <= b.quotes <= to <= b.quotes + 1 && to <= |was|
    requires now == if b.quotes < to then was[b.quotes := was[b.quotes].(quote := expected[b.quotes].quote)] else was
    ensures Data(stream, expected, now, b.(quotes := to))
  {
    var i := b.quotes;
    if i < to {
      assert Computed(stream, expected, i, was[i], b);
      DataPut(stream, expected, was, b, b.(quotes := to), i, now[i]);
    }
  }

  lemma DataOutput(stream: Stream, expected: seq<Outcome>, was: seq<MsgState>, now: seq<MsgState>, b: Bounds, to: int)
    requires Data(stream, expected, was, b) && 0 <= b.outputs <= to <= b.outputs + 1 && to <= |was|
    requires now == if b.outputs < to then was[b.outputs := was[b.outputs].(ofi := expected[b.outputs].ofi)] else was
    ensures Data(stream, expected, now, b.(outputs := to))
  {
    var i := b.outputs;
    if i < to {
      assert Computed(stream, expected, i, was[i], b);
      DataPut(stream, expected, was, b, b.(outputs := to), i, now[i]);
    }
  }

  lemma DataEvent(stream: Stream, expected: seq<Outcome>, was: seq<MsgState>, now: seq<MsgState>, b: Bounds, to: int)
    requires Data(stream, expected, was, b) && 0 <= b.events <= to <= b.events + 1 && to <= |was| == |now|
    requires if b.events < to
      then
        var i := b.events;
        && now == was[i := now[i]] && now[i] == was[i].(event := now[i].event)
        && (Supported(stream.messages[i].bytes) ==> now[i].event == EventOf(stream.messages[i].bytes))
      else now == was
    ensures Data(stream, expected, now, b.(events := to))
  {
    var i := b.events;
    if i < to {
      assert Computed(stream, expected, i, was[i], b);
      DataPut(stream, expected, was, b, b.(events := to), i, now[i]);
    }
  }

  lemma DataFrame(stream: Stream, expected: seq<Outcome>, was: seq<MsgState>, now: seq<MsgState>, b: Bounds, to: int)
    requires Data(stream, expected, was, b) && 0 <= b.frames <= to <= b.frames + 1 && to <= |was| && to <= b.payloads
    requires if b.frames < to
      then
        var i := b.frames; var s := was[i];
        s.frameLen <= |s.payload| && s.frameLen <= |s.frame|
        && now == was[i := s.(frame := s.payload[..s.frameLen] + s.frame[s.frameLen..])]
      else now == was
    ensures Data(stream, expected, now, b.(frames := to))
  {
    var i := b.frames;
    if i < to {
      assert Computed(stream, expected, i, was[i], b);
      DataPut(stream, expected, was, b, b.(frames := to), i, now[i]);
    }
  }

  /** How a cycle on the wire changes the record of message d: its blocks if it was just picked up,
      its payload if that was its last block. */
  ghost predicate Received(stream: Stream, was: MsgState, now: MsgState, d: nat, first: bool, last: bool)
    requires d < stream.Count()
  {
    var bytes := stream.messages[d].bytes;
    && now == was.(blocks := now.blocks, blockCount := now.blockCount, payload := now.payload, frameLen := now.frameLen)
    && |now.payload| == PAYLOAD_CAPACITY
    && (if first then
          && |now.blocks| == BLOCK_CAPACITY && now.blockCount == stream.Blocks(d) <= BLOCK_CAPACITY
          && Pcs.IsEncoding(now.blocks[..now.blockCount], bytes)
        else now.blocks == was.blocks && now.blockCount == was.blockCount)
    && (if last then now.frameLen == |bytes| <= PAYLOAD_CAPACITY && now.payload[..now.frameLen] == bytes
        else now.payload == was.payload && now.frameLen == was.frameLen)
  }

  lemma DataReceived(stream: Stream, expected: seq<Outcome>, was: seq<MsgState>, now: seq<MsgState>, b: Bounds,
                     e: int, u: int)
    requires Data(stream, expected, was, b) && |was| == |now|
    requires 0 <= b.payloads <= b.blocks <= u <= b.payloads + 1 && u <= |was| && b.payloads <= e <= u
    requires var d := b.payloads;
      if d < u then now == was[d := now[d]] && Received(stream, was[d], now[d], d, d == b.blocks, d < e) else now == was
    requires b.frames <= b.payloads
    ensures Data(stream, expected, now, b.(blocks := u, payloads := e))
  {
    var d := b.payloads;
    if d < u {
      assert Computed(stream, expected, d, was[d], b);
      DataPut(stream, expected, was, b, b.(blocks := u, payloads := e), d, now[d]);
    }
  }
}
