/** Two independent accounts of the same messages: the order table and five-level book that
    include/pipeline/tick_to_trade.hpp drives, and the full-depth book of tools/itch_analysis.hpp. */
module Agreement {
  import opened Words
  import opened OrderTables
  import opened OrderBooks
  import opened Parser
  import opened Ledgers
  import opened Ofi
  import opened Schedules
  import opened RestingOrders
  import opened RealBooks
  import opened Pipelines
  import opened Simulations

  /** The same orders, and the same levels with the same quantities on both sides. */
  predicate Agrees(l: Ledger, d: Depth)
  {
    l.orders == d.orders && l.bids == d.bids && l.asks == d.asks
  }

  /** An add that the table accepts and that opens or finds a level does the same to both exactly when
      the level's register has room: the full-depth book counts in 64 bits. */
  lemma AddAgreesIff(l: Ledger, d: Depth, reference: int, bid: bool, price: int, shares: int, capacity: nat)
    requires Agrees(l, d) && Sound(l) && 0 < shares <= INT32_MAX
    requires AddOrder(l, reference, bid, price, shares, capacity).ok
    requires AddOrder(l, reference, bid, price, shares, capacity).ledger.overflow == l.overflow
    ensures Agrees(AddOrder(l, reference, bid, price, shares, capacity).ledger, Added(d, reference, bid, price, shares))
      <==> RoomFor(l.SideOf(bid), price, shares)
    ensures Added(d, reference, bid, price, shares).unknownRefs == d.unknownRefs
  {
    var add := AddOrder(l, reference, bid, price, shares, capacity).ledger;
    assert add.SideOf(bid)[price] == ToInt32(LevelOf(l.SideOf(bid), price) + shares);
    assert Added(d, reference, bid, price, shares).SideOf(bid)[price] == LevelOf(l.SideOf(bid), price) + shares;
  }

  lemma ReduceAgrees(l: Ledger, d: Depth, reference: int, shares: int)
    requires Agrees(l, d) && Sound(l) && 0 <= shares && ReduceOrder(l, reference, shares).ok
    ensures Agrees(ReduceOrder(l, reference, shares).ledger, Reduced(d, reference, shares))
    ensures Reduced(d, reference, shares).unknownRefs == d.unknownRefs
  {
    ReduceInRegister(l, reference, shares);
  }

  /** Taking the largest int32 removes an order. */
  lemma RemoveAgrees(l: Ledger, d: Depth, reference: int)
    requires Agrees(l, d) && Sound(l) && ReduceOrder(l, reference, INT32_MAX).ok
    ensures Agrees(ReduceOrder(l, reference, INT32_MAX).ledger, Removed(d, reference))
    ensures reference in d.orders && Removed(d, reference).unknownRefs == d.unknownRefs
    ensures ReduceOrder(l, reference, INT32_MAX).ledger.overflow == l.overflow && d.orders == l.orders
  {
    ReduceInRegister(l, reference, INT32_MAX);
  }

  /** A message that the table accepts and that drops no level does the same to both exactly when the
      level it adds to has room. */
  lemma EventAgreesIff(l: Ledger, d: Depth, e: Event, capacity: nat)
    requires Agrees(l, d) && Sound(l) && InRange(e)
    requires ApplyEvent(l, e, capacity).ok && ApplyEvent(l, e, capacity).ledger.overflow == l.overflow
    ensures Agrees(ApplyEvent(l, e, capacity).ledger, EventApplied(d, e)) <==> HasRoom(l, e)
    ensures EventApplied(d, e).unknownRefs == d.unknownRefs
  {
    hide Sound, AddOrder, ReduceOrder, Added, Reduced, Removed, Agrees, ToInt32, RoomFor;
    match e.kind {
      case Add | AddMpid =>
        AddAgreesIff(l, d, e.orderReference, e.side == SIDE_B, e.price, e.shares, capacity);
      case Executed | ExecutedPrice | Cancel =>
        ReduceAgrees(l, d, e.orderReference, e.shares);
      case DeleteOrder =>
        RemoveAgrees(l, d, e.orderReference);
      case Replace =>
        RemoveAgrees(l, d, e.orderReference);
        ReduceKeeps(l, e.orderReference, INT32_MAX);
        AddAgreesIff(ReduceOrder(l, e.orderReference, INT32_MAX).ledger, Removed(d, e.orderReference), e.newReference,
                     l.orders[e.orderReference].bid, e.price, e.shares, capacity);
      case Unknown => {}
    }
  }

  function Payloads(stream: Stream): (s: seq<seq<byte>>)
    ensures |s| == stream.Count()
  {
    seq(stream.Count(), i requires 0 <= i < stream.Count() => stream.messages[i].bytes)
  }

  /** After each of the first k messages both accounts have the same orders, levels and quantities. */
  ghost predicate AgreeUpTo(stream: Stream, k: nat)
    requires k <= stream.Count()
  {
    forall j {:trigger At(j)} :: At(j) && 0 <= j <= k ==> Agrees(stream.After(j), DepthAfter(Payloads(stream), j))
  }

  /** One more accepted message that drops nothing. */
  lemma AgreeStep(stream: Stream, k: nat)
    requires k < stream.Count() && stream.After(k + 1).overflow == stream.After(k).overflow
    requires AcceptedInRange(stream, k + 1)
    requires Sound(stream.After(k)) && Agrees(stream.After(k), DepthAfter(Payloads(stream), k))
    ensures var d := DepthAfter(Payloads(stream), k + 1);
      && d.unknownRefs == DepthAfter(Payloads(stream), k).unknownRefs
      && (TotalsFit(stream.After(k + 1).orders) ==> Agrees(stream.After(k + 1), d))
      && (Agrees(stream.After(k + 1), d) ==> Sound(stream.After(k + 1)))
  {
    hide Agrees, Sound, EventOf, ApplyEvent, InRange, EventApplied, Supported, HasRoom, TotalsFit;
    assert At(k);
    var l, e := stream.After(k), EventOf(stream.messages[k].bytes);
    assert Payloads(stream)[k] == stream.messages[k].bytes;
    EventAgreesIff(l, DepthAfter(Payloads(stream), k), e, stream.orderCapacity);
    if TotalsFit(stream.After(k + 1).orders) {
      TotalsGiveRoom(l, e, stream.orderCapacity);
    }
    if HasRoom(l, e) {
      AcceptedKeepsIff(l, e, stream.orderCapacity);
    }
  }

  /** For every sequence of accepted messages in range whose totals fit an int32, as long as the five
      levels have sufficed, both accounts have the same orders and the same levels with the same
      quantities, and the full-depth book has met no unknown reference. */
  lemma {:induction false} TwoBooksAgree(stream: Stream, k: nat)
    requires k <= stream.Count() && stream.After(k).overflow == 0
    requires AcceptedInRange(stream, k) && TotalsFitUpTo(stream, k)
    ensures Agrees(stream.After(k), DepthAfter(Payloads(stream), k))
    ensures DepthAfter(Payloads(stream), k).unknownRefs == 0
  {
    hide Agrees, Stream.After, DepthAfter, Sound, TotalsFit, EventOf, InRange, Stream.Accepted;
    if k == 0 {
      EmptyAgrees(stream);
    } else {
      assert At(k);
      DropsStay(stream, k - 1, k);
      BookSummarisesOrders(stream, k - 1);
      TwoBooksAgree(stream, k - 1);
      AgreeStep(stream, k - 1);
    }
  }

  /** The fit is exactly what it takes: the first total that does not fit parts the two books. */
  lemma {:induction false} AgreeIffTotalsFit(stream: Stream, k: nat)
    requires k <= stream.Count() && AcceptedInRange(stream, k) && stream.After(k).overflow == 0
    ensures AgreeUpTo(stream, k) <==> TotalsFitUpTo(stream, k)
    ensures AgreeUpTo(stream, k) ==> Sound(stream.After(k))
  {
    hide Agrees, Stream.After, DepthAfter, Sound, TotalsFit, EventOf, InRange, Stream.Accepted;
    assert At(k);
    if k == 0 {
      EmptyAgrees(stream);
      SoundTotalsFit(stream.After(0));
    } else {
      DropsStay(stream, k - 1, k);
      AgreeIffTotalsFit(stream, k - 1);
      if AgreeUpTo(stream, k - 1) {
        assert At(k - 1);
        AgreeStep(stream, k - 1);
        if Sound(stream.After(k)) {
          SoundTotalsFit(stream.After(k));
        }
      }
    }
  }

  lemma EmptyAgrees(stream: Stream)
    ensures Agrees(stream.After(0), DepthAfter(Payloads(stream), 0)) && DepthAfter(Payloads(stream), 0).unknownRefs == 0
    ensures Sound(stream.After(0)) && stream.After(0).overflow == 0
  {
    NothingRests();
  }

  /** Then the quotes of the pipeline are the best prices of the full-depth book. */
  lemma SameBestPrices(l: Ledger, d: Depth, emptyAsk: int)
    requires Agrees(l, d) && Sound(l)
    ensures var q := QuoteOf(l, emptyAsk);
      && (d.bids != map[] <==> 0 < q.bidQty) && (d.asks != map[] <==> 0 < q.askQty)
      && (d.bids != map[] ==> q.bidPrice == Best(d.bids, true).key && q.bidQty == d.bids[q.bidPrice])
      && (d.asks != map[] ==> q.askPrice == Best(d.asks, false).key && q.askQty == d.asks[q.askPrice])
  {
  }

  /** The quote that the pipeline computes for message i, read off the full-depth book after it. */
  lemma QuoteIsRealBest(stream: Stream, i: nat)
    requires i < stream.Count() && stream.After(i + 1).overflow == 0
    requires AcceptedInRange(stream, i + 1) && TotalsFitUpTo(stream, i + 1)
    ensures var q, d := stream.Quote(i), DepthAfter(Payloads(stream), i + 1);
      && q.bidPrice == (if d.bids == map[] then 0 else Best(d.bids, true).key)
      && q.bidQty == (if d.bids == map[] then 0 else Best(d.bids, true).value)
      && q.askPrice == (if d.asks == map[] then stream.emptyAsk else Best(d.asks, false).key)
      && q.askQty == (if d.asks == map[] then 0 else Best(d.asks, false).value)
  {
    hide EventOf, InRange, Stream.Accepted, DepthAfter, Payloads, Stream.After;
    TwoBooksAgree(stream, i + 1);
  }

  /** The quote that a run of the pipeline has delivered for message i. */
  lemma DeliveredIsRealBest(p: Pipeline, i: nat)
    requires p.Wired() && i < p.stream.Count() && i < |p.records| && Delivered(p, i)
    requires p.stream.After(i + 1).overflow == 0
    requires AcceptedInRange(p.stream, i + 1) && TotalsFitUpTo(p.stream, i + 1)
    ensures var q, d, orders := p.state[i].quote, DepthAfter(Payloads(p.stream), i + 1), p.stream.After(i + 1).orders;
      && q.bidPrice == (if d.bids == map[] then 0 else Best(d.bids, true).key)
      && q.bidQty == (if d.bids == map[] then 0 else Best(d.bids, true).value)
      && q.askPrice == (if d.asks == map[] then p.stream.emptyAsk else Best(d.asks, false).key)
      && q.askQty == (if d.asks == map[] then 0 else Best(d.asks, false).value)
      && (if NoneOn(orders, true) then q.bidQty == 0 else q.bidQty == Resting(orders, true, q.bidPrice))
      && (if NoneOn(orders, false) then q.askQty == 0 else q.askQty == Resting(orders, false, q.askPrice))
  {
    hide Stream.Accepted, DepthAfter, Payloads, Stream.After, AcceptedInRange, TotalsFitUpTo, Resting, NoneOn,
      Pipeline.Wired;
    QuoteIsRealBest(p.stream, i);
    BookSummarisesOrders(p.stream, i + 1);
    QuoteShowsOrders(p.stream.After(i + 1), p.stream.emptyAsk);
    DeliveredQuote(p, i);
  }

  // ---- with adds dropped ----

  lemma SameAdded(l: Ledger, d: Depth, reference: int, bid: bool, price: int, shares: int, capacity: nat)
    requires l.orders == d.orders && AddOrder(l, reference, bid, price, shares, capacity).ok
    ensures AddOrder(l, reference, bid, price, shares, capacity).ledger.orders
      == Added(d, reference, bid, price, shares).orders
    ensures Added(d, reference, bid, price, shares).unknownRefs == d.unknownRefs && reference !in d.orders
  {
  }

  lemma SameReduced(l: Ledger, d: Depth, reference: int, shares: int)
    requires l.orders == d.orders && AllPositive(l.orders) && Narrow(l)
    requires 0 <= shares && ReduceOrder(l, reference, shares).ok
    ensures ReduceOrder(l, reference, shares).ledger.orders == Reduced(d, reference, shares).orders
    ensures Reduced(d, reference, shares).unknownRefs == d.unknownRefs && reference in d.orders
  {
    TakenInRegister(map[], l.orders, reference, 0, Min(shares, l.orders[reference].remaining));
  }

  lemma SameRemoved(l: Ledger, d: Depth, reference: int)
    requires l.orders == d.orders && AllPositive(l.orders) && Narrow(l) && ReduceOrder(l, reference, INT32_MAX).ok
    ensures ReduceOrder(l, reference, INT32_MAX).ledger.orders == Removed(d, reference).orders
    ensures Removed(d, reference).unknownRefs == d.unknownRefs && reference in d.orders
    ensures Removed(d, reference).orders == d.orders - {reference}
  {
  }

  /** The table's side of an accepted event is the full-depth book's, whatever the two books show. */
  lemma SameOrders(l: Ledger, d: Depth, e: Event, capacity: nat)
    requires l.orders == d.orders && AllPositive(l.orders) && Narrow(l) && InRange(e) && ApplyEvent(l, e, capacity).ok
    ensures ApplyEvent(l, e, capacity).ledger.orders == EventApplied(d, e).orders
    ensures EventApplied(d, e).unknownRefs == d.unknownRefs && AddsFresh(d, e)
  {
    hide AddOrder, ReduceOrder, Added, Reduced, Removed, Narrow, AllPositive, ToInt32;
    match e.kind {
      case Add | AddMpid =>
        SameAdded(l, d, e.orderReference, e.side == SIDE_B, e.price, e.shares, capacity);
      case Executed | ExecutedPrice | Cancel =>
        SameReduced(l, d, e.orderReference, e.shares);
      case DeleteOrder =>
        SameRemoved(l, d, e.orderReference);
      case Replace =>
        SameRemoved(l, d, e.orderReference);
        SameAdded(ReduceOrder(l, e.orderReference, INT32_MAX).ledger, Removed(d, e.orderReference), e.newReference,
                  l.orders[e.orderReference].bid, e.price, e.shares, capacity);
      case Unknown => {}
    }
  }

  /** Over every sequence of accepted messages in range, whatever the book has dropped and whether or not
      the totals fit, both accounts have the same orders, the full-depth book has met no unknown
      reference, and its levels are the sums of the orders. */
  lemma {:induction false} OrdersAgree(stream: Stream, k: nat)
    requires k <= stream.Count() && AcceptedInRange(stream, k)
    ensures var d := DepthAfter(Payloads(stream), k);
      stream.After(k).orders == d.orders && d.unknownRefs == 0 && DepthSound(d)
  {
    hide EventOf, InRange, Supported, ApplyEvent, EventApplied, DepthSound, Narrow, AddsFresh;
    if k == 0 {
      EmptySound();
    } else {
      assert At(k - 1);
      OrdersAgree(stream, k - 1);
      var l, d, e := stream.After(k - 1), DepthAfter(Payloads(stream), k - 1), EventOf(stream.messages[k - 1].bytes);
      assert Payloads(stream)[k - 1] == stream.messages[k - 1].bytes;
      AlwaysNarrow(stream, k - 1);
      DepthPositive(d);
      SameOrders(l, d, e, stream.orderCapacity);
      AddsSome(e);
      SoundIffFresh(d, e);
    }
  }

  lemma DepthPositive(d: Depth)
    requires DepthSound(d)
    ensures AllPositive(d.orders)
  {
  }

  lemma AddsSome(e: Event)
    requires InRange(e)
    ensures e.kind == Add || e.kind == AddMpid || e.kind == Replace ==> 1 <= e.shares
  {
  }

  /** Every level on the side is one of the full-depth book, with no more than it has there. */
  predicate Shown(side: Side, full: Side)
  {
    forall p :: p in side ==> p in full && 0 < side[p] <= full[p]
  }

  /** While the levels have room, every level that the five-level book shows is in the full-depth book
      with at least that quantity, however many adds have been dropped. */
  lemma ShownIsReal(stream: Stream, k: nat)
    requires k <= stream.Count() && AcceptedInRange(stream, k) && RoomUpTo(stream, k)
    ensures var l, d := stream.After(k), DepthAfter(Payloads(stream), k);
      Shown(l.bids, d.bids) && Shown(l.asks, d.asks)
  {
    hide EventOf, InRange, Stream.Accepted, DepthAfter, Payloads, Stream.After, Narrow, HasRoom, Resting;
    OrdersAgree(stream, k);
    SummaryIffRoom(stream, k);
    assert At(k) && Sound(stream.After(k));
  }

  /** The quote names levels of the full-depth book, with no more than is there. */
  ghost predicate NoBetter(q: BookQuote, d: Depth)
  {
    && 0 <= q.bidQty && 0 <= q.askQty
    && (0 < q.bidQty ==> q.bidPrice in d.bids && q.bidQty <= d.bids[q.bidPrice] && q.bidPrice <= Best(d.bids, true).key)
    && (0 < q.askQty ==> q.askPrice in d.asks && q.askQty <= d.asks[q.askPrice] && Best(d.asks, false).key <= q.askPrice)
  }

  lemma QuoteIsNoBetter(l: Ledger, d: Depth, emptyAsk: int)
    requires Shown(l.bids, d.bids) && Shown(l.asks, d.asks)
    ensures NoBetter(QuoteOf(l, emptyAsk), d)
  {
  }

  /** So the quote that a run has delivered is never better than the real best prices. */
  lemma DeliveredIsNoBetter(p: Pipeline, i: nat)
    requires p.Wired() && i < p.stream.Count() && i < |p.records| && Delivered(p, i)
    requires AcceptedInRange(p.stream, i + 1) && RoomUpTo(p.stream, i + 1)
    ensures NoBetter(p.state[i].quote, DepthAfter(Payloads(p.stream), i + 1))
  {
    hide NoBetter, Stream.Accepted, DepthAfter, Payloads, Stream.After, AcceptedInRange, RoomUpTo, Pipeline.Wired, Shown;
    ShownIsReal(p.stream, i + 1);
    QuoteIsNoBetter(p.stream.After(i + 1), DepthAfter(Payloads(p.stream), i + 1), p.stream.emptyAsk);
    DeliveredQuote(p, i);
  }

  // ---- an input on which they part ----

  /** A buy order of the largest number of shares that an int32 holds. */
  function HeavyOrder(reference: nat): Event
  {
    Event(Add, reference, 0, INT32_MAX, 100, SIDE_B, NO_STOCK)
  }

  function HeavyMessage(reference: nat): Message
    requires reference < Pow256(8)
  {
    HeavyFits(reference);
    Message(Serialise(HeavyOrder(reference), Zeros(10), []), 0)
  }

  lemma HeavyFits(reference: nat)
    requires reference < Pow256(8)
    ensures WellFormed(HeavyOrder(reference)) && InRange(HeavyOrder(reference))
    ensures Supported(Serialise(HeavyOrder(reference), Zeros(10), []))
    ensures |Serialise(HeavyOrder(reference), Zeros(10), [])| == 36
    ensures EventOf(Serialise(HeavyOrder(reference), Zeros(10), [])) == HeavyOrder(reference)
  {
    hide EventOf, Serialise, Supported;
    ByteWidths();
    SerialiseRoundTrip(HeavyOrder(reference), Zeros(10), []);
    SerialisedLength(HeavyOrder(reference), Zeros(10), []);
  }

  lemma SmallReference(reference: nat)
    requires reference < 256
    ensures reference < Pow256(8)
  {
    ByteWidths();
  }

  function HeavyStream(): Stream
  {
    SmallReference(1);
    SmallReference(2);
    Stream([HeavyMessage(1), HeavyMessage(2)], 128, INT32_MAX)
  }

  lemma HeavyLedgers()
    ensures var s := HeavyStream(); var one, two := Order(true, 100, INT32_MAX), map[100 := INT32_MAX];
      && s.Accepted(0) && s.After(1) == Ledger(map[1 := one], two, map[], 0)
      && s.Accepted(1) && s.After(2) == Ledger(map[1 := one, 2 := one], map[100 := -2], map[], 0)
  {
    hide EventOf, Serialise, Supported;
    var s := HeavyStream();
    SmallReference(1);
    SmallReference(2);
    HeavyFits(1);
    HeavyFits(2);
    assert s.After(0) == EMPTY;
    assert s.After(1) == ApplyEvent(EMPTY, HeavyOrder(1), 128).ledger;
    assert s.After(2) == ApplyEvent(s.After(1), HeavyOrder(2), 128).ledger;
  }

  lemma HeavyDepths()
    ensures DepthAfter(Payloads(HeavyStream()), 2).bids == map[100 := 0xFFFFFFFE]
  {
    hide EventOf, Serialise, Supported;
    var p := Payloads(HeavyStream());
    SmallReference(1);
    SmallReference(2);
    HeavyFits(1);
    HeavyFits(2);
    assert DepthAfter(p, 0) == NO_DEPTH;
    assert DepthAfter(p, 1) == EventApplied(NO_DEPTH, HeavyOrder(1));
    assert DepthAfter(p, 2) == EventApplied(DepthAfter(p, 1), HeavyOrder(2));
  }

  /** Two accepted orders in range, with no add dropped, that together run over the register of their
      level. */
  lemma HeavyOrdersExample()
    ensures var s := HeavyStream();
      && s.Fits() && s.AllAccepted() && AcceptedInRange(s, 2) && s.After(2).overflow == 0
      && Resting(s.After(2).orders, true, 100) == 0xFFFFFFFE && !TotalsFitUpTo(s, 2)
      && s.After(2).bids == map[100 := -2] && DepthAfter(Payloads(s), 2).bids == map[100 := 0xFFFFFFFE]
  {
    hide EventOf, Serialise, Supported, Stream.After, DepthAfter, Stream.Accepted;
    var s := HeavyStream();
    HeavyLedgers();
    HeavyDepths();
    SmallReference(1);
    SmallReference(2);
    HeavyFits(1);
    HeavyFits(2);
    var one := Order(true, 100, INT32_MAX);
    RestingPut(map[], 1, one, true, 100);
    RestingPut(map[1 := one], 2, one, true, 100);
    assert At(2);
  }
}
