/** The arrival schedule that tools/itch_replay.cpp makes of message timestamps, with idle gaps capped,
    and what the cap does to latencies. */
module Replays {
  import opened Words
  import opened Parser
  import opened Ledgers
  import opened Schedules
  import opened PipelineState
  import opened Pipelines
  import opened Simulations
  import Walkers

  /** Nanoseconds since midnight, at bytes 5 to 10 of every message. */
  function TimestampOf(m: seq<byte>): nat
    requires 11 <= |m|
  {
    BigEndian(m[5..11])
  }

  /** Nanoseconds to cycles of 512/165 ns; a timestamp before the one ahead of it counts as no gap. */
  function GapCycles(earlier: nat, later: nat): nat
  {
    (if later > earlier then later - earlier else 0) * 165 / 512
  }

  /** Messages that the replay follows. */
  predicate AllSupported(ticks: seq<seq<byte>>)
  {
    forall i :: 0 <= i < |ticks| ==> Supported(ticks[i])
  }

  lemma SupportedLength(m: seq<byte>)
    requires Supported(m)
    ensures 19 <= |m| <= 40
  {
  }

  /** The gap after message i, in cycles. */
  function Gap(ticks: seq<seq<byte>>, i: nat): nat
    requires AllSupported(ticks) && i < |ticks| - 1
  {
    SupportedLength(ticks[i]);
    SupportedLength(ticks[i + 1]);
    GapCycles(TimestampOf(ticks[i]), TimestampOf(ticks[i + 1]))
  }

  /** A named i + 1, so that quantifiers over neighbours have a term to match. */
  function Next(i: int): int
  {
    i + 1
  }

  /** The first message arrives in cycle 0, each later one a gap after the one ahead of it. */
  ghost predicate IsReplay(ticks: seq<seq<byte>>, cap: nat, messages: seq<Message>)
    requires AllSupported(ticks)
  {
    && |messages| == |ticks|
    && (forall i :: 0 <= i < |ticks| ==> messages[i].bytes == ticks[i])
    && (messages != [] ==> messages[0].arrival == 0)
    && forall i :: 0 <= i < |ticks| - 1 ==> messages[Next(i)].arrival == messages[i].arrival + Min(Gap(ticks, i), cap)
  }

  /** One stock's messages of the types that touch the book, in order. */
  function Selected(messages: seq<seq<byte>>, locate: nat): (s: seq<seq<byte>>)
    ensures AllSupported(s)
  {
    if messages == [] then []
    else
      var n := |messages| - 1;
      var m := messages[n];
      Selected(messages[..n], locate) + if Supported(m) && BigEndian(m[1..3]) == locate then [m] else []
  }

  /** The places of the flags that are set, in order. */
  ghost predicate Places(at: seq<nat>, flags: seq<bool>)
  {
    && (forall i, j :: 0 <= i < j < |at| ==> at[i] < at[j])
    && (forall i :: 0 <= i < |at| ==> at[i] < |flags|)
    && forall k :: 0 <= k < |flags| ==> (k in at <==> flags[k])
  }

  lemma PlacesSnoc(at: seq<nat>, flags: seq<bool>, flag: bool)
    requires Places(at, flags)
    ensures Places(if flag then at + [|flags|] else at, flags + [flag])
  {
  }

  /** The messages selected are those of a supported type with that locate word, in their order, and no others. */
  lemma {:induction false} SelectedAre(messages: seq<seq<byte>>, locate: nat, flags: seq<bool>) returns (at: seq<nat>)
    requires |flags| == |messages|
    requires forall k :: 0 <= k < |messages| ==>
      (flags[k] <==> Supported(messages[k]) && 3 <= |messages[k]| && BigEndian(messages[k][1..3]) == locate)
    ensures Places(at, flags) && |at| == |Selected(messages, locate)|
    ensures forall i :: 0 <= i < |at| ==> Selected(messages, locate)[i] == messages[at[i]]
  {
    hide Supported, BigEndian, Places;
    if messages == [] {
      at := [];
      NoPlaces();
    } else {
      var n := |messages| - 1;
      at := SelectedAre(messages[..n], locate, flags[..n]);
      PlacesSnoc(at, flags[..n], flags[n]);
      PlacesBelow(at, flags[..n]);
      assert flags == flags[..n] + [flags[n]];
      if Supported(messages[n]) { SupportedLength(messages[n]); }
      at := if flags[n] then at + [n] else at;
    }
  }

  lemma NoPlaces()
    ensures Places([], [])
  {
  }

  lemma PlacesBelow(at: seq<nat>, flags: seq<bool>)
    requires Places(at, flags)
    ensures forall i :: 0 <= i < |at| ==> at[i] < |flags|
  {
  }

  function First<T>(s: seq<T>, n: nat): seq<T>
  {
    if n < |s| then s[..n] else s
  }

  lemma ReplaySnoc(ticks: seq<seq<byte>>, cap: nat, messages: seq<Message>, m: seq<byte>, arrival: nat)
    requires AllSupported(ticks + [m]) && AllSupported(ticks) && IsReplay(ticks, cap, messages)
    requires 11 <= |m| && (ticks != [] ==> 11 <= |ticks[|ticks| - 1]|)
    requires arrival == if ticks == [] then 0
      else messages[|ticks| - 1].arrival + Min(GapCycles(TimestampOf(ticks[|ticks| - 1]), TimestampOf(m)), cap)
    ensures IsReplay(ticks + [m], cap, messages + [Message(m, arrival)])
  {
    var more, longer := ticks + [m], messages + [Message(m, arrival)];
    forall i | 0 <= i < |more| - 1 ensures longer[Next(i)].arrival == longer[i].arrival + Min(Gap(more, i), cap) {
      if i < |ticks| - 1 {
        assert messages[Next(i)].arrival == messages[i].arrival + Min(Gap(ticks, i), cap);
      }
    }
  }

  lemma SelectedStep(messages: seq<seq<byte>>, k: nat, locate: nat, limit: nat)
    requires k < |messages|
    ensures var was, m := Selected(messages[..k], locate), messages[k];
      var chosen := Supported(m) && BigEndian(m[1..3]) == locate;
      First(Selected(messages[..k + 1], locate), limit)
        == if chosen && |First(was, limit)| < limit then First(was, limit) + [m] else First(was, limit)
  {
    hide Supported;
    assert messages[..k + 1][..k] == messages[..k];
  }

  /** The first message arrives in cycle 0. A later one arrives as many cycles after the one before it as whole periods
      of 512/165 ns lie between their timestamps, bytes 5 to 10, but at most the cap; at once if its timestamp is
      not later. */
  ghost predicate InTime(messages: seq<Message>, cap: nat)
  {
    && (messages != [] ==> messages[0].arrival == 0)
    && (forall i :: 0 <= i < |messages| ==> 11 <= |messages[i].bytes|)
    && forall i :: 0 <= i < |messages| - 1 ==>
         var ns := BigEndian(messages[Next(i)].bytes[5..11]) - BigEndian(messages[i].bytes[5..11]);
         var cycles := messages[Next(i)].arrival - messages[i].arrival;
         && (ns <= 0 ==> cycles == 0)
         && (0 < ns ==> 0 <= cycles <= cap && 512 * cycles <= 165 * ns && (cycles < cap ==> 165 * ns < 512 * (cycles + 1)))
  }

  lemma ReplayInTime(ticks: seq<seq<byte>>, cap: nat, messages: seq<Message>)
    requires AllSupported(ticks) && IsReplay(ticks, cap, messages)
    ensures InTime(messages, cap)
  {
    hide Supported, BigEndian;
    forall i | 0 <= i < |messages| ensures 11 <= |messages[i].bytes| {
      SupportedLength(ticks[i]);
    }
    forall i | 0 <= i < |messages| - 1
      ensures messages[Next(i)].arrival == messages[i].arrival + Min(Gap(ticks, i), cap)
    {
    }
  }

  lemma NoneReplayed(cap: nat)
    ensures IsReplay([], cap, [])
  {
  }

  /** The loop over the walker's messages: the first `limit` that are selected are replayed. */
  method Replay(messages: seq<seq<byte>>, locate: nat, gapCap: nat, limit: nat) returns (stream: seq<Message>)
    requires forall i :: 0 <= i < |messages| ==> Walkers.SpecMessage(messages[i])
    ensures AllSupported(First(Selected(messages, locate), limit))
    ensures IsReplay(First(Selected(messages, locate), limit), gapCap, stream)
    ensures |stream| == Min(limit, |Selected(messages, locate)|) && InTime(stream, gapCap)
    ensures forall i :: 0 <= i < |stream| ==> stream[i].bytes == Selected(messages, locate)[i]
  {
    hide Supported, Selected, First, IsReplay, Walkers.SpecMessage, BigEndian, InTime;
    stream := [];
    var arrival, previous, havePrevious := 0, 0, false;
    ghost var ticks: seq<seq<byte>> := [];
    NothingSelected(locate, limit);
    NoneReplayed(gapCap);
    for k := 0 to |messages|
      invariant AllSupported(ticks) && ticks == First(Selected(messages[..k], locate), limit)
      invariant IsReplay(ticks, gapCap, stream) && havePrevious == (ticks != []) && |stream| == |ticks|
      invariant ticks == [] ==> arrival == 0
      invariant ticks != [] ==>
        && arrival == stream[|ticks| - 1].arrival && 11 <= |ticks[|ticks| - 1]|
        && previous == TimestampOf(ticks[|ticks| - 1])
    {
      var m := messages[k];
      BookTypes(m);
      SelectedStep(messages, k, locate, limit);
      if LengthFor(m[0]) == 0 {
        continue;
      }
      var at := ReadBigEndian(m[1..3]);
      if at != locate {
        continue;
      }
      if |stream| < limit {
        var t := ReadBigEndian(m[5..11]);
        if havePrevious {
          var gap := (if t > previous then t - previous else 0) * 165 / 512;
          arrival := arrival + if gap < gapCap then gap else gapCap;
        }
        ReplaySnoc(ticks, gapCap, stream, m, arrival);
        previous, havePrevious := t, true;
        stream := stream + [Message(m, arrival)];
        ticks := ticks + [m];
      }
    }
    assert messages[..|messages|] == messages;
    ReplayInTime(ticks, gapCap, stream);
    FirstReplayed(Selected(messages, locate), limit, gapCap, stream);
  }

  lemma FirstReplayed(ticks: seq<seq<byte>>, limit: nat, cap: nat, messages: seq<Message>)
    requires AllSupported(First(ticks, limit)) && IsReplay(First(ticks, limit), cap, messages)
    ensures |messages| == Min(limit, |ticks|) && forall i :: 0 <= i < |messages| ==> messages[i].bytes == ticks[i]
  {
  }

  lemma NothingSelected(locate: nat, limit: nat)
    ensures First(Selected([], locate), limit) == []
  {
  }

  /** Of the messages that the walker returns, those with a length the parser knows are supported. */
  lemma BookTypes(m: seq<byte>)
    requires Walkers.SpecMessage(m)
    ensures m != [] && (Supported(m) <==> 0 < LengthFor(m[0]))
    ensures Supported(m) ==> 19 <= |m| <= 40
  {
  }

  // ---- what the cap does ----

  /** How long message i waits for the wire. */
  function Wait(s: Stream, i: nat): nat
    requires i < s.Count()
  {
    s.Start(i) - s.messages[i].arrival
  }

  function Less(a: nat, b: nat): nat
  {
    if a < b then 0 else a - b
  }

  /** The wait of the next message is what is left of this one's wait and blocks after the gap. */
  lemma WaitStep(s: Stream, i: nat, gap: nat)
    requires s.Flows() && i + 1 < s.Count() && s.messages[i + 1].arrival == s.messages[i].arrival + gap
    ensures Wait(s, i + 1) == Less(Wait(s, i) + s.Blocks(i), gap)
  {
    s.NothingStalls(i);
    assert s.Start(i + 1) == Max(s.messages[i + 1].arrival, s.Finish(i));
  }

  lemma LatencyIs(s: Stream, i: nat)
    requires s.Flows() && i < s.Count()
    ensures s.Latency(i) == Wait(s, i) + s.Blocks(i) + 10
  {
    s.NothingStalls(i);
  }

  /** Replayed messages fit the pipeline and flow through it. */
  lemma ReplayFlows(ticks: seq<seq<byte>>, cap: nat, s: Stream)
    requires AllSupported(ticks) && IsReplay(ticks, cap, s.messages)
    ensures s.Flows() && s.Fits()
  {
    forall i | 0 <= i < s.Count() ensures 19 <= |s.messages[i].bytes| <= 40 {
      SupportedLength(ticks[i]);
    }
  }

  /** No gap exceeds the cap. */
  ghost predicate Wide(ticks: seq<seq<byte>>, cap: nat)
    requires AllSupported(ticks)
  {
    forall i :: 0 <= i < |ticks| - 1 ==> Gap(ticks, i) <= cap
  }

  /** If the gap after message i exceeds the cap, the cap still leaves time for all that the message
      has to wait and send: its latency less the ten cycles behind the wire. */
  predicate CapCovers(ticks: seq<seq<byte>>, cap: nat, uncapped: Stream, i: nat)
    requires AllSupported(ticks) && i < |ticks| - 1 && |ticks| == uncapped.Count()
  {
    cap < Gap(ticks, i) ==> uncapped.Latency(i) - 10 <= cap
  }

  ghost predicate SameLatencies(a: Stream, b: Stream, n: nat)
    requires n <= a.Count() == b.Count()
  {
    forall i :: 0 <= i < n ==> a.Latency(i) == b.Latency(i)
  }

  /** Given the same latency here, the next one is the same exactly when the cap covers this gap. */
  lemma CapStep(ticks: seq<seq<byte>>, cap: nat, wide: nat, c: Stream, u: Stream, i: nat)
    requires AllSupported(ticks) && Wide(ticks, wide)
    requires IsReplay(ticks, cap, c.messages) && IsReplay(ticks, wide, u.messages)
    requires i < |ticks| - 1 && c.Latency(i) == u.Latency(i)
    ensures c.Latency(i + 1) == u.Latency(i + 1) <==> CapCovers(ticks, cap, u, i)
  {
    hide Supported;
    ReplayFlows(ticks, cap, c);
    ReplayFlows(ticks, wide, u);
    var gap := Gap(ticks, i);
    assert c.messages[Next(i)].arrival == c.messages[i].arrival + Min(gap, cap);
    assert u.messages[Next(i)].arrival == u.messages[i].arrival + gap;
    assert c.Blocks(i) == u.Blocks(i) && c.Blocks(i + 1) == u.Blocks(i + 1);
    LatencyIs(c, i); LatencyIs(u, i);
    LatencyIs(c, i + 1); LatencyIs(u, i + 1);
    WaitStep(c, i, Min(gap, cap));
    WaitStep(u, i, gap);
  }

  /** Capping the gaps leaves every latency as it is exactly when, at every gap that is capped, the cap
      is at least the uncapped latency of the message before it less ten. */
  lemma {:induction false} CapHarmlessIff(ticks: seq<seq<byte>>, cap: nat, wide: nat, c: Stream, u: Stream, n: nat)
    requires AllSupported(ticks) && Wide(ticks, wide)
    requires IsReplay(ticks, cap, c.messages) && IsReplay(ticks, wide, u.messages)
    requires n <= |ticks|
    ensures SameLatencies(c, u, n) <==> forall i :: 0 <= i < n - 1 ==> CapCovers(ticks, cap, u, i)
  {
    hide Supported;
    ReplayFlows(ticks, cap, c);
    ReplayFlows(ticks, wide, u);
    if n == 1 {
      LatencyIs(c, 0); LatencyIs(u, 0);
      assert c.Blocks(0) == u.Blocks(0);
    } else if n > 1 {
      CapHarmlessIff(ticks, cap, wide, c, u, n - 1);
      if SameLatencies(c, u, n - 1) {
        CapStep(ticks, cap, wide, c, u, n - 2);
        assert SameLatencies(c, u, n) <==> c.Latency(n - 1) == u.Latency(n - 1);
      }
    }
  }

  // ---- on whole runs ----

  /** What becomes of the messages does not depend on when they arrive. */
  lemma {:induction false} SameLedgers(a: Stream, b: Stream, k: nat)
    requires a.Count() == b.Count() && a.orderCapacity == b.orderCapacity && k <= a.Count()
    requires forall i :: 0 <= i < a.Count() ==> a.messages[i].bytes == b.messages[i].bytes
    ensures a.After(k) == b.After(k)
  {
    hide Supported, EventOf, ApplyEvent;
    if k > 0 {
      SameLedgers(a, b, k - 1);
    }
  }

  lemma SameAcceptance(a: Stream, b: Stream)
    requires a.Count() == b.Count() && a.orderCapacity == b.orderCapacity && a.AllAccepted()
    requires forall i :: 0 <= i < a.Count() ==> a.messages[i].bytes == b.messages[i].bytes
    ensures b.AllAccepted()
  {
    forall i | 0 <= i < b.Count() ensures b.Accepted(i) {
      assert At(i);
      SameLedgers(a, b, i);
    }
  }

  /** Two complete runs of the same accepted messages, replayed with and without a cap. */
  ghost predicate Compared(ticks: seq<seq<byte>>, cap: nat, wide: nat, p: Pipeline, q: Pipeline)
    requires p.Wired() && q.Wired()
    reads p.Parts(), q.Parts()
  {
    && AllSupported(ticks) && Wide(ticks, wide)
    && IsReplay(ticks, cap, p.stream.messages) && IsReplay(ticks, wide, q.stream.messages)
    && Complete(p) && Complete(q)
  }

  /** The run has delivered all its messages. */
  ghost predicate Complete(p: Pipeline)
    requires p.Wired()
    reads p.Parts()
  {
    && !p.error && p.completed == |p.records| == p.stream.Count()
    && forall i :: 0 <= i < p.stream.Count() ==> Delivered(p, i)
  }

  /** Runs of accepted messages with enough cycles can be compared. */
  lemma RunsCompare(ticks: seq<seq<byte>>, cap: nat, wide: nat, p: Pipeline, q: Pipeline, limit: nat, more: nat, b: nat,
                    c: nat)
    requires p.Wired() && q.Wired() && RunResult(p, limit, b) && RunResult(q, more, c)
    requires AllSupported(ticks) && Wide(ticks, wide)
    requires IsReplay(ticks, cap, p.stream.messages) && IsReplay(ticks, wide, q.stream.messages)
    requires p.stream.orderCapacity == q.stream.orderCapacity && p.stream.AllAccepted()
    requires p.stream.EndCycle() <= limit && q.stream.EndCycle() <= more
    ensures Compared(ticks, cap, wide, p, q)
  {
    hide RunResult, Delivered, Stream.AllAccepted, Pipeline.Wired, Stream.EndCycle;
    SameAcceptance(p.stream, q.stream);
    CompleteRun(p, limit, b);
    CompleteRun(q, more, c);
  }

  /** The latency registers of the two runs are the same, message by message, exactly when the cap covers
      every gap that it shortens; the registers are 32 bits wide. */
  lemma CapHarmlessOnRuns(ticks: seq<seq<byte>>, cap: nat, wide: nat, p: Pipeline, q: Pipeline)
    requires p.Wired() && q.Wired() && Compared(ticks, cap, wide, p, q)
    requires ShortLatencies(p.stream) && ShortLatencies(q.stream)
    ensures (forall i :: 0 <= i < |ticks| ==> p.latency[i] == q.latency[i])
      <==> forall i :: 0 <= i < |ticks| - 1 ==> CapCovers(ticks, cap, q.stream, i)
  {
    CapHarmlessIff(ticks, cap, wide, p.stream, q.stream, |ticks|);
    hide AllSupported, IsReplay, Wide, CapCovers;
    forall i | 0 <= i < |ticks|
      ensures p.latency[i] == p.stream.Latency(i) && q.latency[i] == q.stream.Latency(i)
    {
      LatencyRegister(p, i);
      LatencyRegister(q, i);
    }
  }

  lemma LatencyRegister(p: Pipeline, i: nat)
    requires p.Wired() && i < p.stream.Count() == |p.records| && Delivered(p, i)
    ensures p.latency[i] == p.stream.Latency(i) % 0x1_0000_0000
    ensures p.stream.Latency(i) <= 0xFFFF_FFFF ==> p.latency[i] == p.stream.Latency(i)
  {
    hide DecisionRecord, EventOf, Supported, Stream.Quote, Stream.OfiOf, Stream.Latency, Pipeline.Wired;
  }

  // ---- a cap that never binds ----

  const TIMESTAMPS: nat := 0x1_0000_0000_0000

  /** The longest gap between two 48-bit timestamps, in cycles. */
  const LONGEST_GAP: nat := GapCycles(0, TIMESTAMPS - 1)

  /** A cap as long as that never shortens a gap. */
  lemma LongCapIsWide(ticks: seq<seq<byte>>, cap: nat)
    requires AllSupported(ticks) && LONGEST_GAP <= cap
    ensures Wide(ticks, cap)
  {
    hide Supported;
    forall i | 0 <= i < |ticks| - 1 ensures Gap(ticks, i) <= cap {
      SupportedLength(ticks[i]);
      SupportedLength(ticks[Next(i)]);
      BigEndianBound(ticks[i][5..11]);
      BigEndianBound(ticks[Next(i)][5..11]);
      ByteWidths();
      GapGrows(TimestampOf(ticks[i]), TimestampOf(ticks[Next(i)]));
    }
  }

  lemma GapGrows(earlier: nat, later: nat)
    requires later < TIMESTAMPS
    ensures GapCycles(earlier, later) <= LONGEST_GAP
  {
  }

  // ---- the tool's loop, run both ways ----

  /** Every latency fits its register. */
  predicate ShortLatencies(s: Stream)
  {
    forall i :: 0 <= i < s.Count() ==> s.Latency(i) <= 0xFFFF_FFFF
  }

  /** If the messages are accepted, both runs are complete, and they have the same latency registers
      exactly when the cap covers every gap that it shortens. */
  ghost predicate ShowsJust(ticks: seq<seq<byte>>, cap: nat, p: Pipeline, q: Pipeline)
    requires p.Wired() && q.Wired() && AllSupported(ticks) && p.stream.Count() == q.stream.Count() == |ticks|
    reads p.Parts(), q.Parts()
  {
    p.stream.AllAccepted() ==>
      && Compared(ticks, cap, LONGEST_GAP, p, q)
      && (ShortLatencies(p.stream) && ShortLatencies(q.stream) ==>
            ((forall i :: 0 <= i < |ticks| ==> p.latency[i] == q.latency[i])
             <==> forall i :: 0 <= i < |ticks| - 1 ==> CapCovers(ticks, cap, q.stream, i)))
  }

  /** Replays the same messages with the cap and without one, and runs both. */
  method ReplayBoth(messages: seq<seq<byte>>, locate: nat, cap: nat, limit: nat, orderCapacity: nat, emptyAsk: int)
    returns (p: Pipeline, q: Pipeline)
    requires forall i :: 0 <= i < |messages| ==> Walkers.SpecMessage(messages[i])
    ensures p.Wired() && q.Wired() && p.stream.orderCapacity == q.stream.orderCapacity == orderCapacity
    ensures AllSupported(First(Selected(messages, locate), limit))
    ensures p.stream.Count() == q.stream.Count() == |First(Selected(messages, locate), limit)|
    ensures ShowsJust(First(Selected(messages, locate), limit), cap, p, q)
  {
    hide RunResult, Delivered, Stream.AllAccepted, Pipeline.Wired, Stream.EndCycle, IsReplay, AllSupported, Wide,
      CapCovers, Selected, First, Stream.Latency, Walkers.SpecMessage, Compared, ShowsJust, ShortLatencies,
      Pipeline.Parts;
    ghost var ticks := First(Selected(messages, locate), limit);
    var capped := Replay(messages, locate, cap, limit);
    var uncapped := Replay(messages, locate, LONGEST_GAP, limit);
    var c, u := Stream(capped, orderCapacity, emptyAsk), Stream(uncapped, orderCapacity, emptyAsk);
    ReplayFlows(ticks, cap, c);
    ReplayFlows(ticks, LONGEST_GAP, u);
    ReplayCount(ticks, cap, c);
    ReplayCount(ticks, LONGEST_GAP, u);
    var a, b;
    p, a := Simulate(c, c.EndCycle());
    assert allocated(p.Parts());
    q, b := Simulate(u, u.EndCycle());
    BothRuns(ticks, cap, p, q, c.EndCycle(), u.EndCycle(), a, b);
  }

  lemma BothRuns(ticks: seq<seq<byte>>, cap: nat, p: Pipeline, q: Pipeline, limit: nat, more: nat, b: nat, c: nat)
    requires p.Wired() && q.Wired() && RunResult(p, limit, b) && RunResult(q, more, c)
    requires AllSupported(ticks) && p.stream.orderCapacity == q.stream.orderCapacity
    requires IsReplay(ticks, cap, p.stream.messages) && IsReplay(ticks, LONGEST_GAP, q.stream.messages)
    requires p.stream.EndCycle() <= limit && q.stream.EndCycle() <= more
    ensures ShowsJust(ticks, cap, p, q)
  {
    hide RunResult, Delivered, Stream.AllAccepted, Pipeline.Wired, Stream.EndCycle, IsReplay, AllSupported, Wide,
      CapCovers, Stream.Latency, Compared;
    ReplayCount(ticks, cap, p.stream);
    ReplayCount(ticks, LONGEST_GAP, q.stream);
    LongCapIsWide(ticks, LONGEST_GAP);
    if p.stream.AllAccepted() {
      RunsCompare(ticks, cap, LONGEST_GAP, p, q, limit, more, b, c);
      if ShortLatencies(p.stream) && ShortLatencies(q.stream) {
        CapHarmlessOnRuns(ticks, cap, LONGEST_GAP, p, q);
      }
    }
  }

  lemma ReplayCount(ticks: seq<seq<byte>>, cap: nat, s: Stream)
    requires AllSupported(ticks) && IsReplay(ticks, cap, s.messages)
    ensures s.Count() == |ticks|
  {
  }
}
