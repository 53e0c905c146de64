/** Whole runs of the pipeline under the cycle engine of include/core/discrete_engine.hpp. */
module Simulations {
  import opened Words
  import opened RingBuffers
  import opened Parser
  import opened Ofi
  import opened Ledgers
  import opened Schedules
  import opened PipelineState
  import opened Pipelines

  // ---- conservation and order ----

  function SlotIds(s: Slot): seq<int>
  {
    if s.Free() then [] else [s.msg]
  }

  /** The ids in the pipeline, oldest first, as its slots and rings hold them. */
  ghost function InFlight(p: Pipeline): seq<int>
    requires p.dmaQueue.Valid() && p.ofiRing.Valid() && p.bramRing.Valid()
    reads p, p.dmaQueue, p.dmaQueue.slab, p.ofiRing, p.ofiRing.slab, p.bramRing, p.bramRing.slab
  {
    SlotIds(p.dma) + p.dmaQueue.Contents() + p.ofiRing.Contents() + SlotIds(p.ofiIn) + p.bramRing.Contents()
    + SlotIds(p.rd) + SlotIds(p.bookSlot) + SlotIds(p.parse) + SlotIds(p.mac) + SlotIds(p.pcs)
  }

  lemma SlotHolds(s: Slot, lo: int, hi: int)
    requires 0 <= lo <= hi <= lo + 1 && (if lo < hi then s.msg == lo else s.Free())
    ensures SlotIds(s) == Ids(lo, hi)
  {
  }

  /** Consecutive runs of ids, one per stage, make up one run. */
  lemma IdsChain(a: int, b: int, c: int, d: int, e: int, f: int, g: int, h: int, i: int, j: int, k: int)
    requires a <= b <= c <= d <= e <= f <= g <= h <= i <= j <= k
    ensures Ids(a, b) + Ids(b, c) + Ids(c, d) + Ids(d, e) + Ids(e, f) + Ids(f, g) + Ids(g, h) + Ids(h, i)
            + Ids(i, j) + Ids(j, k) == Ids(a, k)
  {
    IdsConcat(a, b, c); IdsConcat(a, c, d); IdsConcat(a, d, e); IdsConcat(a, e, f); IdsConcat(a, f, g);
    IdsConcat(a, g, h); IdsConcat(a, h, i); IdsConcat(a, i, j); IdsConcat(a, j, k);
  }

  /** The ids from the book back to the wire. */
  lemma FrontIds(p: Pipeline, c: Clock, t: int)
    requires p.Wired() && c.Spaced(p.stream.Count()) && p.FrontHolds(c, t)
    ensures SlotIds(p.rd) == Ids(c.d5, c.d4) && SlotIds(p.bookSlot) == Ids(c.d4, c.d3)
    ensures SlotIds(p.parse) == Ids(c.d3, c.d1) && SlotIds(p.mac) == Ids(c.d1, c.e0)
    ensures SlotIds(p.pcs) == Ids(c.e0, c.next) && p.nextMsg == c.next
  {
    hide Ids, SlotIds, Pipeline.BookHolds, Pipeline.ParserReady;
    SlotHolds(p.rd, c.d5, c.d4);
    SlotHolds(p.bookSlot, c.d4, c.d3);
    SlotHolds(p.parse, c.d3, c.d1);
    SlotHolds(p.mac, c.d1, c.e0);
    SlotHolds(p.pcs, c.e0, c.next);
  }

  /** At the start of a cycle the ids in flight are exactly those picked up and not yet posted, in
      stream order. */
  lemma InFlightBefore(p: Pipeline, t: int)
    requires p.Wired() && p.Before(t)
    ensures p.dmaQueue.Valid() && p.ofiRing.Valid() && p.bramRing.Valid()
    ensures InFlight(p) == Ids(p.completed, p.nextMsg)
  {
    hide Ids, SlotIds, Pipeline.FrontHolds, Pipeline.Filled, Pipeline.Clean, RingBuffer.Valid,
      RingBuffer.Contents, Pipeline.EngineIdle, Pipeline.StageOf, Pipeline.Summed;
    var c := p.clock;
    FrontIds(p, c, t);
    SlotHolds(p.dma, c.d10, c.d9);
    SlotHolds(p.ofiIn, c.d6, c.d5);
    IdsChain(c.d10, c.d9, c.d8, c.d6, c.d5, c.d5, c.d4, c.d3, c.d1, c.e0, c.next);
  }

  /** So they are after every posedge, also the one in which the pipeline stops. */
  lemma InFlightBetween(p: Pipeline, t: int)
    requires p.Wired() && p.Between(t)
    ensures p.dmaQueue.Valid() && p.ofiRing.Valid() && p.bramRing.Valid()
    ensures InFlight(p) == Ids(p.completed, p.nextMsg)
  {
    hide Ids, SlotIds, Pipeline.FrontHolds, Pipeline.Filled, Pipeline.Clean, RingBuffer.Valid,
      RingBuffer.Contents, Pipeline.EngineIdle, Pipeline.StageOf, Pipeline.Summed;
    var n := p.clock;
    FrontIds(p, n, t + 1);
    SlotHolds(p.dma, n.d10, n.d9);
    SlotHolds(p.ofiIn, n.d6, n.d6);
    IdsChain(n.d10, n.d9, n.d9, n.d6, n.d6, n.d5, n.d4, n.d3, n.d1, n.e0, n.next);
  }

  /** At the start of a cycle the wire is busy exactly with the message whose first block is in and whose
      last has not been handed on. */
  lemma WireBusyIff(p: Pipeline, t: int)
    requires p.Wired() && p.Before(t)
    ensures !p.pcs.Free()
      <==> exists i {:trigger At(i)} :: At(i) && 0 <= i < p.stream.Count() && p.stream.Start(i) < t < p.stream.Finish(i)
  {
    hide Pipeline.BackHolds, Pipeline.Filled, Pipeline.Clean, Pipeline.BookHolds, Pipeline.ParserReady, Stream.Start,
      Stream.Finish;
    assert At(t);
    FrontIds(p, p.clock, t);
    assert At(p.clock.e0);
  }

  // ---- queue and RAM safety ----

  /** At the start of a cycle no id waits for the RAM, at most one for the DMA, and the OFI ring lists,
      in order, the messages of exactly the valid stages of the arithmetic pipeline. */
  lemma QueueSafety(p: Pipeline, t: int)
    requires p.Wired() && p.Before(t)
    ensures p.bramRing.Valid() && p.bramRing.Contents() == [] && !p.bram.collision
    ensures p.dmaQueue.Valid() && |p.dmaQueue.Contents()| <= 1
    ensures p.ofi.Valid() && p.ofiRing.Valid() && |p.ofiRing.Contents()| <= 1
    ensures p.ofiRing.Contents() == (if p.ofi.pipeline[1].valid then [p.clock.d8] else [])
                                    + (if p.ofi.pipeline[0].valid then [p.clock.d7] else [])
  {
    hide Pipeline.FrontHolds, Pipeline.Filled, Pipeline.Clean, RingBuffer.Valid, RingBuffer.Contents,
      Pipeline.EngineIdle, Pipeline.Summed, Pipeline.Posted;
  }

  // ---- what has been delivered ----

  /** Message i has been delivered: its latency, its record and the fields of its state are those of
      the schedule and the interpreter. */
  ghost predicate Delivered(p: Pipeline, i: nat)
    requires p.Wired() && i < p.stream.Count() && i < |p.records|
    reads p`records, p.latency, p.state
  {
    var stream, bytes, s := p.stream, p.stream.messages[i].bytes, p.state[i];
    && p.latency[i] == stream.Latency(i) % 0x1_0000_0000
    && p.records[i] == DecisionRecord(i, stream.OfiOf(i), stream.Quote(i))
    && ReadsAs(p.records[i], i, stream.OfiOf(i), stream.Quote(i))
    && Supported(bytes) && |bytes| <= |s.frame| && s.frame[..|bytes|] == bytes
    && s.event == EventOf(bytes) && s.quote == stream.Quote(i) && s.ofi == stream.OfiOf(i)
  }

  lemma DeliveredMessage(p: Pipeline, b: Bounds, i: nat)
    requires p.Wired() && p.Expected() && p.Filled(b) && i < p.stream.Count() && p.stream.Accepted(i)
    requires i < p.completed && p.Posted(p.completed)
    requires i < b.frames && i < b.events && i < b.quotes && i < b.outputs
    ensures Delivered(p, i)
  {
    hide ReadsAs;
    assert At(i);
    assert Computed(p.stream, p.expected, i, p.state[..][i], b);
    RecordReads(i, p.stream.OfiOf(i), p.stream.Quote(i));
  }

  lemma {:induction false} SumIsTotal(p: Pipeline, k: nat)
    requires p.Wired() && p.Expected() && k <= p.stream.Count()
    ensures p.SumOfi(k) == p.stream.TotalOfi(k)
  {
    hide Contribution, Stream.Quote, Stream.Latency, Stream.Accepted, Stream.Previous, Stream.After, DecisionRecord;
    if k > 0 {
      SumIsTotal(p, k - 1);
      assert At(k - 1);
    }
  }

  /** The clean state in terms of the pipeline's own tables. */
  lemma CleanIs(p: Pipeline, c: Clock, t: int)
    requires p.Wired() && p.Expected() && p.IsClock(c, t)
    ensures p.Clean(c.d3, c.d4) <==> p.stream.CleanAt(t)
  {
    assert At(t);
    forall i | 0 <= i < p.stream.Count() ensures p.expected[i].accepted == p.stream.Accepted(i) { assert At(i); }
  }

  /** Everything posted so far has been delivered. */
  lemma AllDelivered(p: Pipeline, b: Bounds, c: Clock, t: nat, k: int)
    requires p.Wired() && p.Expected() && p.IsClock(c, t) && p.stream.CleanAt(t - 1) && p.Filled(b)
    requires p.Posted(k) && k == c.d10
    requires c.d10 <= b.frames && c.d10 <= b.events && c.d10 <= b.quotes && c.d10 <= b.outputs
    ensures p.completed == k == p.stream.Done(t - 10) == |p.records|
    ensures forall i :: 0 <= i < k ==> Delivered(p, i)
  {
    hide Pipeline.Filled, Delivered;
    assert At(t);
    forall i | 0 <= i < k ensures Delivered(p, i) {
      assert p.stream.Accepted(i);
      DeliveredMessage(p, b, i);
    }
  }

  lemma PostedBy(p: Pipeline, cycle: nat)
    requires p.Wired() && p.Before(cycle)
    ensures p.completed == p.stream.Done(cycle - 10) <= p.stream.Count()
  {
    hide Pipeline.FrontHolds, Pipeline.Filled, Pipeline.Clean;
    assert At(cycle);
  }

  /** The state of a run when the engine stands at this cycle: stopped in the cycle before, or not. */
  ghost predicate Running(p: Pipeline, cycle: nat)
    requires p.Wired()
    reads p.Parts()
  {
    && (if p.error then 0 < cycle && p.Between(cycle - 1) else p.Before(cycle))
    && (p.error <==> !p.stream.CleanAt(cycle))
    && (0 < cycle ==> p.stream.CleanAt(cycle - 1) && p.stream.Done(cycle - 11) < p.stream.Count())
  }

  lemma StartsRunning(p: Pipeline)
    requires p.Wired() && p.Expected() && p.Before(0)
    ensures Running(p, 0)
  {
    hide Pipeline.FrontHolds, Pipeline.BackHolds, Pipeline.Filled;
    CleanIs(p, p.clock, 0);
  }

  lemma StillToCome(p: Pipeline, cycle: nat)
    requires p.Wired() && Running(p, cycle) && !p.error
    ensures p.completed <= p.stream.Count()
  {
    hide Pipeline.Before, Pipeline.Between, Stream.CleanAt;
    PostedBy(p, cycle);
  }

  /** One step of the engine: all posedges, then all negedges. */
  method Step(p: Pipeline, cycle: nat)
    requires p.Wired() && p.Expected() && Running(p, cycle) && !p.error && p.completed < p.stream.Count()
    modifies p.Parts()
    ensures Running(p, cycle + 1)
  {
    hide Pipeline.FrontHolds, Pipeline.BackHolds, Pipeline.BackLatched, Pipeline.Filled, Pipeline.IsClock,
      Pipeline.Clean,
      Stream.CleanAt;
    PostedBy(p, cycle);
    p.Posedge(cycle);
    CleanIs(p, p.clock, cycle + 1);
    p.Negedge(cycle);
  }

  /** The running sum and the last value are those of the first k messages. */
  ghost predicate Sums(p: Pipeline, k: nat)
    requires k <= p.stream.Count()
    reads p`cumulativeOfi, p`lastOfi
  {
    && p.cumulativeOfi == p.stream.TotalOfi(k)
    && p.lastOfi == if k == 0 then 0 else p.stream.OfiOf(k - 1)
  }

  lemma SumsAre(p: Pipeline, k: nat)
    requires p.Wired() && p.Expected() && k <= p.stream.Count() && p.Summed(k)
    ensures Sums(p, k)
  {
    SumIsTotal(p, k);
    assert At(k - 1);
  }

  /** The adds that the book has dropped are the interpreter's. */
  lemma DroppedIs(p: Pipeline, k: int)
    requires p.Wired() && p.Expected() && p.BookHolds(k)
    ensures 0 <= k <= p.stream.Count() && p.keeper.book.overflowCount == p.stream.After(k).overflow
  {
    hide Stream.After;
    assert At(k) && At(k - 1);
    if k == 0 { assert p.stream.After(0) == EMPTY by { AfterNothing(p.stream); } }
  }

  lemma AfterNothing(stream: Stream)
    ensures stream.After(0) == EMPTY
  {
  }

  /** The DMA has posted as many records as messages are complete. */
  lemma ReachedPosted(p: Pipeline, cycle: nat)
    requires p.Wired() && Running(p, cycle)
    ensures p.engine.posted == p.completed
  {
    hide Pipeline.FrontHolds, Pipeline.Filled, Pipeline.Clean, Pipeline.OfiHolds, Pipeline.RamHolds, Pipeline.Summed,
      Stream.CleanAt;
  }

  lemma ReachedDrops(p: Pipeline, cycle: nat)
    requires p.Wired() && p.Expected() && Running(p, cycle)
    ensures p.keeper.book.overflowCount == p.stream.After(p.stream.Done(cycle - 4)).overflow
  {
    hide Pipeline.BackHolds, Pipeline.BackLatched, Pipeline.Filled, Pipeline.Clean, Pipeline.BookHolds, Stream.CleanAt,
      Stream.After;
    assert At(cycle);
    DroppedIs(p, p.clock.d4);
  }

  lemma ReachedSums(p: Pipeline, cycle: nat)
    requires p.Wired() && p.Expected() && Running(p, cycle)
    ensures Sums(p, p.stream.Done(cycle - if p.error then 9 else 8))
  {
    hide Pipeline.FrontHolds, Pipeline.Filled, Pipeline.Clean, Pipeline.OfiHolds, Pipeline.RamHolds, Pipeline.DmaHolds,
      Pipeline.Summed, Sums, Stream.CleanAt;
    assert At(cycle);
    SumsAre(p, if p.error then p.clock.d9 else p.clock.d8);
  }

  /** What has been delivered when the engine stands at this cycle, error or not. */
  lemma ReachedMessages(p: Pipeline, cycle: nat)
    requires p.Wired() && p.Expected() && Running(p, cycle)
    ensures p.completed == p.stream.Done(cycle - 10) == |p.records|
    ensures forall i :: 0 <= i < p.completed ==> Delivered(p, i)
  {
    hide Pipeline.FrontHolds, Pipeline.Clean, Delivered, Pipeline.Posted, Pipeline.OfiHolds, Pipeline.RamHolds,
      Pipeline.Summed, Stream.CleanAt;
    var c := p.clock;
    assert At(cycle);
    if cycle == 0 { p.stream.CleanAtFirst(-1); }
    AllDelivered(p, if p.error then p.BoundsAt(c).(outputs := c.d9) else p.BoundsAt(c), c, cycle, c.d10);
  }

  lemma Reached(p: Pipeline, cycle: nat)
    requires p.Wired() && p.Expected() && Running(p, cycle)
    ensures p.completed == p.stream.Done(cycle - 10) == |p.records| == p.engine.posted
    ensures forall i :: 0 <= i < p.completed ==> Delivered(p, i)
    ensures Sums(p, p.stream.Done(cycle - if p.error then 9 else 8))
    ensures p.keeper.book.overflowCount == p.stream.After(p.stream.Done(cycle - 4)).overflow
  {
    hide Running, Delivered, Sums, Stream.After;
    ReachedMessages(p, cycle);
    ReachedPosted(p, cycle);
    ReachedSums(p, cycle);
    ReachedDrops(p, cycle);
  }

  /** How a run ends, from what stopped it. */
  lemma Ended(stream: Stream, limit: nat, cycle: nat, error: bool)
    requires stream.Fits() && cycle <= limit
    requires error <==> !stream.CleanAt(cycle)
    requires cycle > 0 ==> stream.CleanAt(cycle - 1) && stream.Done(cycle - 11) < stream.Count()
    requires error || stream.Done(cycle - 10) == stream.Count() || cycle == limit
    ensures stream.AllAccepted() ==> !error && cycle == Min(limit, stream.EndCycle())
    ensures forall k: nat :: stream.FirstFailure(k) ==>
      (error <==> stream.FailCycle(k) < limit) && cycle == Min(limit, stream.FailCycle(k) + 1)
  {
    hide Stream.CleanAt;
    var n := stream.Count();
    if stream.AllAccepted() {
      stream.AlwaysClean(cycle);
      if n > 0 {
        assert cycle - 11 < stream.Framed(n - 1);
      }
    }
    forall k: nat | stream.FirstFailure(k)
      ensures (error <==> stream.FailCycle(k) < limit) && cycle == Min(limit, stream.FailCycle(k) + 1)
    {
      stream.CleanUntil(cycle, k);
      stream.CleanUntil(cycle - 1, k);
      assert stream.Framed(k) <= cycle - 10 || stream.Done(cycle - 10) <= k;
    }
  }

  /** How the run has gone if the engine stops at this cycle. */
  ghost predicate RunResult(p: Pipeline, limit: nat, cycle: nat)
    requires p.Wired()
    reads p.Parts()
  {
    var stream := p.stream;
    && (stream.AllAccepted() ==> !p.error && cycle == Min(limit, stream.EndCycle()))
    && (forall k: nat :: stream.FirstFailure(k) ==>
         (p.error <==> stream.FailCycle(k) < limit) && cycle == Min(limit, stream.FailCycle(k) + 1))
    && p.completed == stream.Done(cycle - 10) == |p.records| == p.engine.posted
    && (forall i :: 0 <= i < p.completed ==> Delivered(p, i))
    && Sums(p, stream.Done(cycle - if p.error then 9 else 8))
    && p.keeper.book.overflowCount == stream.After(stream.Done(cycle - 4)).overflow
  }

  lemma CleanWhileRunning(p: Pipeline, cycle: nat)
    requires p.Wired() && Running(p, cycle)
    ensures p.stream.Fits() && (p.error <==> !p.stream.CleanAt(cycle))
    ensures 0 < cycle ==> p.stream.CleanAt(cycle - 1) && p.stream.Done(cycle - 11) < p.stream.Count()
  {
    hide Pipeline.Before, Pipeline.Between, Stream.CleanAt;
  }

  lemma RunEnds(p: Pipeline, limit: nat, cycle: nat)
    requires p.Wired() && p.Expected() && Running(p, cycle) && cycle <= limit
    requires p.completed == p.stream.Count() || p.error || cycle == limit
    ensures RunResult(p, limit, cycle)
  {
    hide Running, Delivered, Sums, Pipeline.Expected, Stream.CleanAt, Stream.AllAccepted, Stream.FirstFailure,
      Stream.After, Stream.FailCycle, Stream.EndCycle;
    Reached(p, cycle);
    CleanWhileRunning(p, cycle);
    Ended(p.stream, limit, cycle, p.error);
  }

  /** Running until all messages are posted, an error, or the limit. */
  method Run(p: Pipeline, limit: nat) returns (cycle: nat)
    requires p.Wired() && p.Expected() && p.Before(0)
    modifies p.Parts()
    ensures RunResult(p, limit, cycle)
  {
    hide Running, RunResult, Pipeline.Before;
    StartsRunning(p);
    cycle := 0;
    while p.completed != p.stream.Count() && !p.error && cycle < limit
      invariant cycle <= limit && Running(p, cycle)
      decreases limit - cycle
    {
      StillToCome(p, cycle);
      Step(p, cycle);
      cycle := cycle + 1;
    }
    RunEnds(p, limit, cycle);
  }

  /** A stream of accepted messages, given enough cycles, is delivered in full. */
  lemma CompleteRun(p: Pipeline, limit: nat, cycle: nat)
    requires p.Wired() && RunResult(p, limit, cycle)
    requires p.stream.AllAccepted() && p.stream.EndCycle() <= limit
    ensures !p.error && p.completed == p.stream.Count() && cycle == p.stream.EndCycle()
    ensures |p.records| == p.engine.posted == p.stream.Count() && forall i :: 0 <= i < p.stream.Count() ==> Delivered(p, i)
    ensures Sums(p, p.stream.Count())
    ensures p.keeper.book.overflowCount == p.stream.After(p.stream.Count()).overflow
  {
    hide Delivered;
    var n := p.stream.Count();
    if n > 0 {
      assert p.stream.Framed(n - 1) <= cycle - 10;
      assert p.stream.Done(cycle - 8) == n && p.stream.Done(cycle - 4) == n;
    }
  }

  /** A new pipeline, run on a stream. */
  method Simulate(stream: Stream, limit: nat) returns (p: Pipeline, cycle: nat)
    requires stream.Fits()
    ensures p.stream == stream && p.Wired() && RunResult(p, limit, cycle)
  {
    hide RunResult, Pipeline.Before, Pipeline.SlotsReset, QueuesReset, FrontReset, BackReset, Pipeline.Wired,
      Pipeline.Expected;
    p := new Pipeline(stream);
    p.AtReset();
    cycle := Run(p, limit);
  }

  lemma DeliveredQuote(p: Pipeline, i: nat)
    requires p.Wired() && i < p.stream.Count() && i < |p.records| && Delivered(p, i)
    ensures p.state[i].quote == p.stream.Quote(i) == QuoteOf(p.stream.After(i + 1), p.stream.emptyAsk)
  {
    hide EventOf, Supported, QuoteOf, Stream.After, Stream.OfiOf, Stream.Latency;
  }
}
