/** How long accepted messages can keep the wire busy, and so how long a cap on idle gaps must be that no
    replay of a given length can show. */
module Bursts {
  import opened Words
  import opened OrderTables
  import opened OrderBooks
  import opened Parser
  import opened Ledgers
  import opened Schedules
  import opened Pipelines
  import opened Simulations
  import opened Replays
  import opened RestingOrders
  import Pcs
  import Walkers

  // ---- the most that can wait ----

  /** The blocks of the first k messages. */
  function Load(s: Stream, k: nat): nat
    requires k <= s.Count()
  {
    if k == 0 then 0 else Load(s, k - 1) + s.Blocks(k - 1)
  }

  /** The most blocks of n accepted messages with a table of so many entries: six each, and one more for
      an add with attribution, which takes an entry that another message has to free again. */
  function Most(n: nat, capacity: nat): nat
  {
    6 * n + Min(n, (n + capacity) / 2)
  }

  lemma MostGrows(m: nat, n: nat, capacity: nat)
    requires m <= n
    ensures Most(m, capacity) <= Most(n, capacity)
  {
  }

  /** How many of the first k messages are adds with attribution. */
  function Longs(s: Stream, k: nat): nat
    requires k <= s.Count()
  {
    if k == 0 then 0 else Longs(s, k - 1) + if |s.messages[k - 1].bytes| == 40 then 1 else 0
  }

  lemma AddCounts(l: Ledger, reference: int, bid: bool, price: int, shares: int, capacity: nat)
    requires AddOrder(l, reference, bid, price, shares, capacity).ok
    ensures |AddOrder(l, reference, bid, price, shares, capacity).ledger.orders| == |l.orders| + 1 <= capacity
  {
    var after := AddOrder(l, reference, bid, price, shares, capacity).ledger.orders;
    assert after.Keys == l.orders.Keys + {reference};
    assert |after.Keys| == |l.orders.Keys| + 1;
  }

  lemma ReduceCounts(l: Ledger, reference: int, shares: int)
    ensures |l.orders| - 1 <= |ReduceOrder(l, reference, shares).ledger.orders| <= |l.orders|
  {
    if reference in l.orders {
      var after := ReduceOrder(l, reference, shares).ledger.orders;
      assert after.Keys == l.orders.Keys || after.Keys == l.orders.Keys - {reference};
      assert |after.Keys| == |after|;
    }
  }

  /** An accepted message takes one entry of the table, or frees one at most. */
  lemma EntriesStep(l: Ledger, e: Event, capacity: nat)
    requires |l.orders| <= capacity && ApplyEvent(l, e, capacity).ok
    ensures |l.orders| - 1 <= |ApplyEvent(l, e, capacity).ledger.orders| <= capacity
    ensures e.kind == AddMpid ==> |ApplyEvent(l, e, capacity).ledger.orders| == |l.orders| + 1
  {
    hide AddOrder, ReduceOrder, ToInt32;
    match e.kind {
      case Add | AddMpid =>
        AddCounts(l, e.orderReference, e.side == SIDE_B, ToInt32(e.price), ToInt32(e.shares), capacity);
      case Executed | ExecutedPrice | Cancel =>
        ReduceCounts(l, e.orderReference, ToInt32(e.shares));
      case DeleteOrder =>
        ReduceCounts(l, e.orderReference, INT32_MAX);
      case Replace =>
        ReduceCounts(l, e.orderReference, INT32_MAX);
        ReplacedKnown(l, e.orderReference);
        AddCounts(ReduceOrder(l, e.orderReference, INT32_MAX).ledger, e.newReference, l.orders[e.orderReference].bid,
                  ToInt32(e.price), ToInt32(e.shares), capacity);
    }
  }

  lemma LongIsAdd(m: seq<byte>)
    requires Supported(m)
    ensures Pcs.BlockCount(|m|) <= if |m| == 40 then 7 else 6
    ensures |m| == 40 ==> EventOf(m).kind == AddMpid
  {
  }

  /** Every add with attribution takes an entry of the table, and every other message frees one at most. */
  lemma {:induction false} LoadBounded(s: Stream, k: nat)
    requires k <= s.Count() && s.AllAccepted()
    ensures Load(s, k) <= 6 * k + Longs(s, k) && Longs(s, k) <= k
    ensures 2 * Longs(s, k) - k <= |s.After(k).orders| <= s.orderCapacity
    ensures Load(s, k) <= Most(k, s.orderCapacity)
  {
    hide EventOf, ApplyEvent, Supported;
    if k > 0 {
      assert At(k - 1) && s.Accepted(k - 1);
      LoadBounded(s, k - 1);
      var m := s.messages[k - 1].bytes;
      LongIsAdd(m);
      EntriesStep(s.After(k - 1), EventOf(m), s.orderCapacity);
    }
  }

  /** A message waits at most for all the blocks before it. */
  lemma {:induction false} WaitBounded(ticks: seq<seq<byte>>, cap: nat, s: Stream, i: nat)
    requires AllSupported(ticks) && IsReplay(ticks, cap, s.messages) && i < s.Count()
    ensures Wait(s, i) + s.Blocks(i) <= Load(s, i + 1)
  {
    hide Supported;
    ReplayFlows(ticks, cap, s);
    if i > 0 {
      WaitBounded(ticks, cap, s, i - 1);
      var gap := Min(Gap(ticks, i - 1), cap);
      assert s.messages[Next(i - 1)].arrival == s.messages[i - 1].arrival + gap;
      WaitStep(s, i - 1, gap);
    }
  }

  /** Nor does the message itself take more than its share. */
  lemma LatencyBounded(ticks: seq<seq<byte>>, cap: nat, s: Stream, i: nat)
    requires AllSupported(ticks) && IsReplay(ticks, cap, s.messages) && i < s.Count() && s.AllAccepted()
    ensures s.Latency(i) - 10 <= Most(i + 1, s.orderCapacity)
  {
    hide Supported, Stream.AllAccepted, Most;
    ReplayFlows(ticks, cap, s);
    LatencyIs(s, i);
    WaitBounded(ticks, cap, s, i);
    LoadBounded(s, i + 1);
  }

  /** A cap that is as long as accepted messages before the last can keep the wire busy covers every gap. */
  lemma LongCapCovers(ticks: seq<seq<byte>>, cap: nat, wide: nat, u: Stream)
    requires AllSupported(ticks) && IsReplay(ticks, wide, u.messages) && u.AllAccepted()
    requires |ticks| > 0 ==> Most(|ticks| - 1, u.orderCapacity) <= cap
    ensures forall i :: 0 <= i < |ticks| - 1 ==> CapCovers(ticks, cap, u, i)
  {
    hide Supported, Stream.AllAccepted, Most, Stream.Latency, IsReplay, AllSupported, Gap;
    ReplayCount(ticks, wide, u);
    forall i | 0 <= i < |ticks| - 1 ensures CapCovers(ticks, cap, u, i) {
      LatencyBounded(ticks, wide, u, i);
      MostGrows(i + 1, |ticks| - 1, u.orderCapacity);
    }
  }

  // ---- a burst that waits so long ----

  /** The burst fills the table with adds, and from then on executes order 0 and adds it again. */
  predicate IsLong(i: nat, capacity: nat)
  {
    i < capacity || (i - capacity) % 2 == 1
  }

  /** A buy order of one share with attribution, 40 bytes, or the execution of order 0, 36 bytes. */
  function BurstEvent(i: nat, capacity: nat): Event
  {
    if IsLong(i, capacity) then Event(AddMpid, if i < capacity then i else 0, 0, 1, 100, SIDE_B, NO_STOCK)
    else Event(ExecutedPrice, 0, 0, 1, 0, 0, NO_STOCK)
  }

  function BurstHeader(time: nat): (h: seq<byte>)
    ensures |h| == 10
  {
    [0, 1, 0, 0] + PutBytes(time, 6)
  }

  lemma BurstFormed(i: nat, capacity: nat)
    requires capacity <= Pow256(8)
    ensures WellFormed(BurstEvent(i, capacity))
  {
    ByteWidths();
  }

  function BurstMessage(i: nat, time: nat, capacity: nat): seq<byte>
    requires capacity <= Pow256(8)
  {
    BurstFormed(i, capacity);
    var e := BurstEvent(i, capacity);
    Serialise(e, BurstHeader(time), Zeros(TrailerLength(e.kind)))
  }

  lemma BurstParses(i: nat, time: nat, capacity: nat)
    requires capacity <= Pow256(8) && time < TIMESTAMPS
    ensures var m := BurstMessage(i, time, capacity);
      && Supported(m) && |m| == (if IsLong(i, capacity) then 40 else 36) && EventOf(m) == BurstEvent(i, capacity)
      && TimestampOf(m) == time && m[1..3] == [0, 1]
  {
    hide EventOf, Supported, PutBytes, Pow256, BigEndian;
    BurstFormed(i, capacity);
    var e := BurstEvent(i, capacity);
    SerialiseRoundTrip(e, BurstHeader(time), Zeros(TrailerLength(e.kind)));
    SerialisedLength(e, BurstHeader(time), Zeros(TrailerLength(e.kind)));
    assert BurstMessage(i, time, capacity)[5..11] == PutBytes(time, 6);
    assert BurstMessage(i, time, capacity)[1..3] == [0, 1];
    ByteWidths();
    PutGet(time, 6);
  }

  /** n messages at time zero, and one as late as a timestamp can be. */
  function Burst(n: nat, capacity: nat): (ticks: seq<seq<byte>>)
    requires capacity <= Pow256(8)
    ensures |ticks| == n + 1
  {
    seq(n + 1, i requires 0 <= i <= n => BurstMessage(i, if i < n then 0 else TIMESTAMPS - 1, capacity))
  }

  lemma BurstSupported(n: nat, capacity: nat)
    requires capacity <= Pow256(8)
    ensures AllSupported(Burst(n, capacity))
    ensures forall i :: 0 <= i <= n ==>
      |Burst(n, capacity)[i]| == (if IsLong(i, capacity) then 40 else 36) && Burst(n, capacity)[i][1..3] == [0, 1]
    ensures forall i :: 0 <= i <= n ==> EventOf(Burst(n, capacity)[i]) == BurstEvent(i, capacity)
    ensures forall i :: 0 <= i < n ==> Gap(Burst(n, capacity), i) == if i == n - 1 then LONGEST_GAP else 0
  {
    hide EventOf, Supported, BurstMessage, TimestampOf, BurstEvent, IsLong;
    var ticks := Burst(n, capacity);
    forall i | 0 <= i <= n
      ensures Supported(ticks[i]) && |ticks[i]| == (if IsLong(i, capacity) then 40 else 36) && ticks[i][1..3] == [0, 1]
      ensures EventOf(ticks[i]) == BurstEvent(i, capacity)
      ensures TimestampOf(ticks[i]) == if i < n then 0 else TIMESTAMPS - 1
    {
      BurstParses(i, if i < n then 0 else TIMESTAMPS - 1, capacity);
    }
  }

  // ---- the table accepts it ----

  /** Orders of one share under the references lo to hi - 1. */
  function Entries(lo: nat, hi: nat): (orders: map<int, Order>)
    ensures forall r :: r in orders <==> lo <= r < hi
    ensures forall r :: r in orders ==> orders[r] == Order(true, 100, 1)
    ensures |orders| == if lo < hi then hi - lo else 0
  {
    if hi <= lo then map[]
    else
      var rest := Entries(lo, hi - 1);
      assert rest[hi - 1 := Order(true, 100, 1)].Keys == rest.Keys + {hi - 1};
      rest[hi - 1 := Order(true, 100, 1)]
  }

  /** The live orders after k messages of a burst. */
  function BurstOrders(k: nat, capacity: nat): map<int, Order>
  {
    Entries(if k <= capacity || (k - capacity) % 2 == 0 then 0 else 1, Min(k, capacity))
  }

  lemma BurstStep(k: nat, capacity: nat)
    requires 1 <= capacity
    ensures var orders, next, r := BurstOrders(k, capacity), BurstOrders(k + 1, capacity), if k < capacity then k else 0;
      if IsLong(k, capacity) then r !in orders && |orders| < capacity && next == orders[r := Order(true, 100, 1)]
      else 0 in orders && orders[0].remaining == 1 && next == orders - {0}
  {
  }

  lemma BurstApplied(l: Ledger, k: nat, capacity: nat)
    requires 1 <= capacity && l.orders == BurstOrders(k, capacity)
    ensures var after := ApplyEvent(l, BurstEvent(k, capacity), capacity);
      after.ok && after.ledger.orders == BurstOrders(k + 1, capacity)
  {
    hide AddTo, Overflows, TakeFrom, BurstOrders, Entries, IsLong;
    BurstStep(k, capacity);
  }

  lemma {:induction false} BurstLedger(n: nat, s: Stream, cap: nat, k: nat)
    requires 1 <= s.orderCapacity <= Pow256(8) && AllSupported(Burst(n, s.orderCapacity))
    requires IsReplay(Burst(n, s.orderCapacity), cap, s.messages) && k <= n + 1
    ensures s.After(k).orders == BurstOrders(k, s.orderCapacity)
    ensures forall i :: 0 <= i < k ==> s.Accepted(i)
  {
    hide EventOf, Burst, ApplyEvent, Supported, Gap, BurstEvent, BurstOrders, Pow256;
    if k > 0 {
      BurstLedger(n, s, cap, k - 1);
      BurstSupported(n, s.orderCapacity);
      BurstApplied(s.After(k - 1), k - 1, s.orderCapacity);
      assert s.messages[k - 1].bytes == Burst(n, s.orderCapacity)[k - 1] && Supported(Burst(n, s.orderCapacity)[k - 1]);
    } else {
      NoneYet(s);
    }
  }

  lemma NoneYet(s: Stream)
    ensures s.After(0).orders == BurstOrders(0, s.orderCapacity)
  {
  }

  lemma BurstAccepted(n: nat, cap: nat, s: Stream)
    requires 1 <= s.orderCapacity <= Pow256(8) && AllSupported(Burst(n, s.orderCapacity))
    requires IsReplay(Burst(n, s.orderCapacity), cap, s.messages)
    ensures s.AllAccepted() && s.Count() == n + 1
  {
    hide Burst, Stream.Accepted, Pow256;
    BurstLedger(n, s, cap, n + 1);
  }

  // ---- how long it waits ----

  lemma BurstBlocks(n: nat, cap: nat, s: Stream, i: nat)
    requires s.orderCapacity <= Pow256(8) && AllSupported(Burst(n, s.orderCapacity)) && i <= n
    requires IsReplay(Burst(n, s.orderCapacity), cap, s.messages)
    ensures s.Blocks(i) == if IsLong(i, s.orderCapacity) then 7 else 6
  {
    hide Burst, EventOf, Supported, Pow256;
    BurstSupported(n, s.orderCapacity);
  }

  lemma MostStep(i: nat, capacity: nat)
    ensures Most(i + 1, capacity) == Most(i, capacity) + if IsLong(i, capacity) then 7 else 6
  {
  }

  /** While the burst lasts, each of its messages waits for all those before it. */
  lemma {:induction false} BurstQueues(n: nat, cap: nat, s: Stream, i: nat)
    requires s.orderCapacity <= Pow256(8) && AllSupported(Burst(n, s.orderCapacity)) && i < n
    requires IsReplay(Burst(n, s.orderCapacity), cap, s.messages)
    ensures s.messages[i].arrival == 0 && s.Start(i) == Most(i, s.orderCapacity)
    ensures s.Finish(i) == Most(i + 1, s.orderCapacity)
  {
    hide EventOf, Supported, Burst, Pow256, Most, IsLong;
    ReplayFlows(Burst(n, s.orderCapacity), cap, s);
    s.NothingStalls(i);
    BurstBlocks(n, cap, s, i);
    MostStep(i, s.orderCapacity);
    if i > 0 {
      BurstSupported(n, s.orderCapacity);
      BurstQueues(n, cap, s, i - 1);
      assert s.messages[Next(i - 1)].arrival
        == s.messages[i - 1].arrival + Min(Gap(Burst(n, s.orderCapacity), i - 1), cap);
    } else {
      NothingBefore(s.orderCapacity);
    }
  }

  lemma NothingBefore(capacity: nat)
    ensures Most(0, capacity) == 0
  {
  }

  /** The last message of a burst waits for what a capped gap has left of it. */
  function LastLatency(n: nat, cap: nat, capacity: nat): nat
  {
    Less(Most(n, capacity), Min(LONGEST_GAP, cap)) + (if IsLong(n, capacity) then 7 else 6) + 10
  }

  lemma BurstEnds(n: nat, cap: nat, s: Stream)
    requires 0 < n && s.orderCapacity <= Pow256(8) && AllSupported(Burst(n, s.orderCapacity))
    requires IsReplay(Burst(n, s.orderCapacity), cap, s.messages)
    ensures s.Latency(n) == LastLatency(n, cap, s.orderCapacity)
  {
    hide EventOf, Supported, Burst, Pow256, Most, IsLong;
    ReplayFlows(Burst(n, s.orderCapacity), cap, s);
    BurstSupported(n, s.orderCapacity);
    BurstQueues(n, cap, s, n - 1);
    assert s.messages[Next(n - 1)].arrival
      == s.messages[n - 1].arrival + Min(Gap(Burst(n, s.orderCapacity), n - 1), cap);
    BurstBlocks(n, cap, s, n);
    s.NothingStalls(n);
  }

  // ---- the threshold ----

  /** Some stream is that replay; when its messages arrive follows from their timestamps. */
  function Arrival(ticks: seq<seq<byte>>, cap: nat, i: nat): nat
    requires AllSupported(ticks) && i < |ticks|
  {
    if i == 0 then 0 else Arrival(ticks, cap, i - 1) + Min(Gap(ticks, i - 1), cap)
  }

  function ReplayOf(ticks: seq<seq<byte>>, cap: nat): seq<Message>
    requires AllSupported(ticks)
  {
    seq(|ticks|, i requires 0 <= i < |ticks| => Message(ticks[i], Arrival(ticks, cap, i)))
  }

  lemma ReplayExists(ticks: seq<seq<byte>>, cap: nat)
    requires AllSupported(ticks)
    ensures IsReplay(ticks, cap, ReplayOf(ticks, cap))
  {
    hide Supported, Gap;
    var messages := ReplayOf(ticks, cap);
    forall i | 0 <= i < |ticks| - 1
      ensures messages[Next(i)].arrival == messages[i].arrival + Min(Gap(ticks, i), cap)
    {
      ArrivalStep(ticks, cap, i);
    }
  }

  lemma ArrivalStep(ticks: seq<seq<byte>>, cap: nat, i: nat)
    requires AllSupported(ticks) && i < |ticks| - 1
    ensures Arrival(ticks, cap, Next(i)) == Arrival(ticks, cap, i) + Min(Gap(ticks, i), cap)
  {
    hide Supported, Gap;
  }

  /** The stream replays the messages with that cap, and the table accepts all of them. */
  ghost predicate Replayed(ticks: seq<seq<byte>>, cap: nat, s: Stream, capacity: nat)
  {
    AllSupported(ticks) && IsReplay(ticks, cap, s.messages) && s.orderCapacity == capacity && s.AllAccepted()
  }

  /** No accepted replay of so many messages has a latency that the cap changes. */
  ghost predicate NeverShows(cap: nat, count: nat, capacity: nat)
  {
    forall ticks, c, u ::
      |ticks| <= count && Replayed(ticks, cap, c, capacity) && Replayed(ticks, LONGEST_GAP, u, capacity) ==>
        c.Count() == u.Count() == |ticks| && SameLatencies(c, u, |ticks|)
  }

  lemma LongEnough(ticks: seq<seq<byte>>, cap: nat, c: Stream, u: Stream, capacity: nat)
    requires Replayed(ticks, cap, c, capacity) && Replayed(ticks, LONGEST_GAP, u, capacity)
    requires |ticks| > 0 ==> Min(LONGEST_GAP, Most(|ticks| - 1, capacity)) <= cap
    ensures c.Count() == u.Count() == |ticks| && SameLatencies(c, u, |ticks|)
  {
    hide Supported, Stream.AllAccepted, Most, Stream.Latency;
    LongCapIsWide(ticks, LONGEST_GAP);
    CapHarmlessIff(ticks, cap, LONGEST_GAP, c, u, |ticks|);
    if cap < LONGEST_GAP {
      LongCapCovers(ticks, cap, LONGEST_GAP, u);
    }
  }

  /** The burst, replayed. */
  lemma BurstReplayed(n: nat, cap: nat, capacity: nat) returns (s: Stream)
    requires 0 < n && 1 <= capacity <= Pow256(8)
    ensures Replayed(Burst(n, capacity), cap, s, capacity) && s.Count() == n + 1
    ensures s.Latency(n) == LastLatency(n, cap, capacity)
  {
    hide Supported, Burst, Pow256, Stream.AllAccepted, Stream.Latency, LastLatency;
    BurstSupported(n, capacity);
    var ticks := Burst(n, capacity);
    ReplayExists(ticks, cap);
    s := Stream(ReplayOf(ticks, cap), capacity, 0);
    BurstAccepted(n, cap, s);
    BurstEnds(n, cap, s);
  }

  /** The exact length from which on a cap never shows in replays of at most so many accepted messages. */
  lemma CapThreshold(cap: nat, count: nat, capacity: nat)
    requires 1 <= count && 1 <= capacity <= Pow256(8)
    ensures NeverShows(cap, count, capacity) <==> Min(LONGEST_GAP, Most(count - 1, capacity)) <= cap
  {
    hide Replayed, Most, Burst, Pow256, SameLatencies;
    if Min(LONGEST_GAP, Most(count - 1, capacity)) <= cap {
      forall ticks, c, u |
        |ticks| <= count && Replayed(ticks, cap, c, capacity) && Replayed(ticks, LONGEST_GAP, u, capacity)
        ensures c.Count() == u.Count() == |ticks| && SameLatencies(c, u, |ticks|)
      {
        if |ticks| > 0 {
          MostGrows(|ticks| - 1, count - 1, capacity);
        }
        LongEnough(ticks, cap, c, u, capacity);
      }
    } else {
      var n := count - 1;
      NothingBefore(capacity);
      var c := BurstReplayed(n, cap, capacity);
      var u := BurstReplayed(n, LONGEST_GAP, capacity);
      LastDiffers(n, cap, c, u, capacity);
    }
  }

  lemma LastDiffers(n: nat, cap: nat, c: Stream, u: Stream, capacity: nat)
    requires c.Count() == u.Count() == n + 1 && cap < LONGEST_GAP && cap < Most(n, capacity)
    requires c.Latency(n) == LastLatency(n, cap, capacity) && u.Latency(n) == LastLatency(n, LONGEST_GAP, capacity)
    ensures !SameLatencies(c, u, n + 1)
  {
    hide Most;
  }

  const MODEL_CAPACITY: nat := 20000
  const TABLE_CAPACITY: nat := 16384

  /** For the message and order capacities of the replay tool. */
  lemma ToolThreshold(cap: nat)
    ensures NeverShows(cap, MODEL_CAPACITY, TABLE_CAPACITY) <==> 138185 <= cap
  {
    hide NeverShows;
    ByteWidths();
    CapThreshold(cap, MODEL_CAPACITY, TABLE_CAPACITY);
  }

  // ---- on whole runs ----

  /** The shortest burst that outlasts a cap, among those of at least n messages. */
  function Outlasting(cap: nat, capacity: nat, n: nat): (m: nat)
    requires Most(n, capacity) <= cap
    ensures n < m && Most(m - 1, capacity) <= cap < Most(m, capacity) <= cap + 7
    decreases cap - Most(n, capacity)
  {
    MostStep(n, capacity);
    if cap < Most(n + 1, capacity) then n + 1 else Outlasting(cap, capacity, n + 1)
  }

  /** In complete runs of it with and without the cap the last latency registers differ. */
  lemma EveryCapCanShow(cap: nat, n: nat, p: Pipeline, q: Pipeline, limit: nat, more: nat, b: nat, c: nat)
    requires p.Wired() && q.Wired() && RunResult(p, limit, b) && RunResult(q, more, c)
    requires p.stream.orderCapacity == q.stream.orderCapacity && 1 <= p.stream.orderCapacity <= Pow256(8)
    requires var capacity := p.stream.orderCapacity;
      && 0 < n && cap < LONGEST_GAP && cap < Most(n, capacity) <= cap + 7 && AllSupported(Burst(n, capacity))
      && IsReplay(Burst(n, capacity), cap, p.stream.messages)
      && IsReplay(Burst(n, capacity), LONGEST_GAP, q.stream.messages)
    requires p.stream.EndCycle() <= limit && q.stream.EndCycle() <= more
    ensures Complete(p) && Complete(q) && p.stream.Count() == q.stream.Count() == n + 1
    ensures p.latency[n] != q.latency[n]
  {
    hide RunResult, Delivered, Pipeline.Wired, Stream.EndCycle, Burst, EventOf, Supported, IsReplay, AllSupported, Most,
      Pow256, Stream.AllAccepted, LastLatency;
    BurstAccepted(n, cap, p.stream);
    BurstAccepted(n, LONGEST_GAP, q.stream);
    CompleteRun(p, limit, b);
    CompleteRun(q, more, c);
    BurstEnds(n, cap, p.stream);
    BurstEnds(n, LONGEST_GAP, q.stream);
    LatencyRegister(p, n);
    LatencyRegister(q, n);
    RegistersDiffer(cap, n, p.stream.orderCapacity);
  }

  lemma RegistersDiffer(cap: nat, n: nat, capacity: nat)
    requires cap < LONGEST_GAP && cap < Most(n, capacity) <= cap + 7
    ensures LastLatency(n, cap, capacity) % 0x1_0000_0000 != LastLatency(n, LONGEST_GAP, capacity) % 0x1_0000_0000
  {
    var a, b := LastLatency(n, cap, capacity), LastLatency(n, LONGEST_GAP, capacity);
    hide Most;
    assert 0 < a - b <= 7;
  }

  lemma {:induction false} AllSelected(ticks: seq<seq<byte>>, locate: nat)
    requires AllSupported(ticks)
    requires forall i :: 0 <= i < |ticks| ==> 3 <= |ticks[i]| && BigEndian(ticks[i][1..3]) == locate
    ensures Selected(ticks, locate) == ticks
  {
    hide BigEndian, Supported;
    if ticks != [] {
      var n := |ticks| - 1;
      AllSelected(ticks[..n], locate);
      assert Supported(ticks[n]);
      assert ticks == ticks[..n] + [ticks[n]];
    }
  }

  /** The whole burst is of one stock, and framed as the walker wants it. */
  lemma BurstSelected(n: nat, capacity: nat)
    requires capacity <= Pow256(8)
    ensures AllSupported(Burst(n, capacity)) && Selected(Burst(n, capacity), 1) == Burst(n, capacity)
    ensures forall i :: 0 <= i <= n ==> Walkers.SpecMessage(Burst(n, capacity)[i])
  {
    hide EventOf, Burst, Supported, BigEndian, TimestampOf, Selected;
    BurstSupported(n, capacity);
    var ticks := Burst(n, capacity);
    forall i | 0 <= i <= n ensures 3 <= |ticks[i]| && BigEndian(ticks[i][1..3]) == 1 {
      OneInTwoBytes();
    }
    forall i | 0 <= i <= n ensures Walkers.SpecMessage(ticks[i]) {
      WholeMessage(ticks[i]);
    }
    AllSelected(ticks, 1);
  }

  lemma OneInTwoBytes()
    ensures BigEndian([0, 1]) == 1
  {
    assert [0, 1][..1] == [0];
    assert [0][..0] == [];
  }

  lemma WholeMessage(m: seq<byte>)
    requires Supported(m)
    ensures Walkers.SpecMessage(m)
  {
  }

  /** The replay tool's own loop on a burst, and a run of what it has scheduled: everything is delivered,
      and the last message shows how much of the burst the cap has left to wait for. */
  method RunBurst(n: nat, cap: nat, orderCapacity: nat, emptyAsk: int) returns (p: Pipeline)
    requires 0 < n && 1 <= orderCapacity <= Pow256(8)
    ensures p.Wired() && Complete(p) && p.stream.Count() == n + 1 && p.stream.orderCapacity == orderCapacity
    ensures AllSupported(Burst(n, orderCapacity)) && IsReplay(Burst(n, orderCapacity), cap, p.stream.messages)
    ensures p.latency[n] == LastLatency(n, cap, orderCapacity) % 0x1_0000_0000
  {
    hide RunResult, Delivered, Pipeline.Wired, Stream.EndCycle, Burst, EventOf, Supported, IsReplay, Walkers.SpecMessage,
      Selected, Pow256, LastLatency, Stream.AllAccepted;
    BurstSelected(n, orderCapacity);
    var burst := Burst(n, orderCapacity);
    var messages := Replay(burst, 1, cap, n + 1);
    var s := Stream(messages, orderCapacity, emptyAsk);
    ReplayFlows(burst, cap, s);
    BurstAccepted(n, cap, s);
    BurstEnds(n, cap, s);
    var limit, cycle := s.EndCycle(), 0;
    p, cycle := Simulate(s, limit);
    CompleteRun(p, limit, cycle);
    LatencyRegister(p, n);
  }

  /** For every cap that can shorten a gap, and a table of any size: two complete runs of the same accepted
      messages, with and without the cap, whose last latency registers differ. */
  method ShowCap(cap: nat, orderCapacity: nat, emptyAsk: int) returns (p: Pipeline, q: Pipeline)
    requires cap < LONGEST_GAP && 1 <= orderCapacity <= Pow256(8)
    ensures p.Wired() && q.Wired() && Complete(p) && Complete(q)
    ensures var n := Outlasting(cap, orderCapacity, 0);
      && p.stream.Count() == q.stream.Count() == n + 1 && AllSupported(Burst(n, orderCapacity))
      && IsReplay(Burst(n, orderCapacity), cap, p.stream.messages)
      && IsReplay(Burst(n, orderCapacity), LONGEST_GAP, q.stream.messages)
      && p.latency[n] != q.latency[n]
  {
    hide Complete, Pipeline.Wired, Burst, IsReplay, Pow256, LastLatency, Most, Pipeline.Parts;
    NothingBefore(orderCapacity);
    var n := Outlasting(cap, orderCapacity, 0);
    RegistersDiffer(cap, n, orderCapacity);
    p := RunBurst(n, cap, orderCapacity, emptyAsk);
    assert allocated(p.Parts());
    q := RunBurst(n, LONGEST_GAP, orderCapacity, emptyAsk);
  }

  /** In two complete runs a cap as long as that leaves all latency registers as they are. */
  lemma LongCapOnRuns(ticks: seq<seq<byte>>, cap: nat, p: Pipeline, q: Pipeline)
    requires p.Wired() && q.Wired() && Compared(ticks, cap, LONGEST_GAP, p, q)
    requires p.stream.orderCapacity == q.stream.orderCapacity && p.stream.AllAccepted()
    requires |ticks| > 0 ==> Min(LONGEST_GAP, Most(|ticks| - 1, p.stream.orderCapacity)) <= cap
    ensures forall i :: 0 <= i < |ticks| ==> p.latency[i] == q.latency[i]
  {
    hide Delivered, Supported, Gap, Most, Stream.AllAccepted, Stream.Latency;
    SameAcceptance(p.stream, q.stream);
    LongEnough(ticks, cap, p.stream, q.stream, p.stream.orderCapacity);
    forall i | 0 <= i < |ticks| ensures p.latency[i] == q.latency[i] {
      LatencyRegister(p, i);
      LatencyRegister(q, i);
    }
  }
}
