/** The aggregate book against the orders it summarises: what rests at a price is the sum of the
    remaining shares of the live orders there. */
module RestingOrders {
  import opened SlotMaps
  import opened Words
  import opened OrderBooks
  import opened OrderTables
  import opened Ledgers
  import opened Parser
  import opened Schedules

  function SharesAt(o: Order, bid: bool, price: int): int
  {
    if o.bid == bid && o.price == price then o.remaining else 0
  }

  /** The remaining shares of all live orders at a price. */
  ghost function Resting(orders: map<int, Order>, bid: bool, price: int): int
    decreases |orders|
  {
    if orders == map[] then 0
    else
      EmptyOrInhabited(orders);
      var r :| r in orders;
      SmallerMap(orders, r);
      SharesAt(orders[r], bid, price) + Resting(orders - {r}, bid, price)
  }

  lemma SmallerMap<V>(m: map<int, V>, k: int)
    requires k in m
    ensures |m - {k}| < |m|
  {
    assert m.Keys == (m - {k}).Keys + {k};
  }

  /** The sum does not depend on the order in which it is taken. */
  lemma {:induction false} RestingWithout(orders: map<int, Order>, r: int, bid: bool, price: int)
    requires r in orders
    ensures Resting(orders, bid, price) == SharesAt(orders[r], bid, price) + Resting(orders - {r}, bid, price)
    decreases |orders|
  {
    EmptyOrInhabited(orders);
    SmallerMap(orders, r);
    var q :| && q in orders
             && Resting(orders, bid, price) == SharesAt(orders[q], bid, price) + Resting(orders - {q}, bid, price);
    if q != r {
      SmallerMap(orders, q);
      RestingWithout(orders - {q}, r, bid, price);
      RestingWithout(orders - {r}, q, bid, price);
      assert orders - {q} - {r} == orders - {r} - {q};
    }
  }

  lemma RestingPut(orders: map<int, Order>, r: int, o: Order, bid: bool, price: int)
    ensures Resting(orders[r := o], bid, price)
      == Resting(orders, bid, price) + SharesAt(o, bid, price) - (if r in orders then SharesAt(orders[r], bid, price) else 0)
  {
    RestingWithout(orders[r := o], r, bid, price);
    if r in orders {
      RestingWithout(orders, r, bid, price);
      assert orders[r := o] - {r} == orders - {r};
    } else {
      assert orders[r := o] - {r} == orders;
    }
  }

  /** Every live order has shares left. */
  ghost predicate AllPositive(orders: map<int, Order>)
  {
    forall r :: r in orders ==> 0 < orders[r].remaining
  }

  lemma {:induction false} RestingBounds(orders: map<int, Order>, bid: bool, price: int)
    requires AllPositive(orders)
    ensures 0 <= Resting(orders, bid, price)
    ensures forall r :: r in orders && orders[r].bid == bid && orders[r].price == price ==>
      orders[r].remaining <= Resting(orders, bid, price)
    decreases |orders|
  {
    forall r | r in orders ensures 0 <= Resting(orders - {r}, bid, price) {
      SmallerMap(orders, r);
      RestingBounds(orders - {r}, bid, price);
    }
    forall r | r in orders ensures SharesAt(orders[r], bid, price) <= Resting(orders, bid, price) {
      RestingWithout(orders, r, bid, price);
    }
    if orders != map[] {
      EmptyOrInhabited(orders);
    }
  }

  /** Something rests at a price just when an order is there. */
  lemma {:induction false} RestingPositive(orders: map<int, Order>, bid: bool, price: int)
    requires AllPositive(orders)
    ensures 0 < Resting(orders, bid, price) <==> exists r :: r in orders && orders[r].bid == bid && orders[r].price == price
    decreases |orders|
  {
    RestingBounds(orders, bid, price);
    if orders != map[] {
      EmptyOrInhabited(orders);
      var r :| r in orders;
      SmallerMap(orders, r);
      RestingWithout(orders, r, bid, price);
      RestingPositive(orders - {r}, bid, price);
    }
  }

  // ---- a side of the book against the orders ----

  /** The side lists exactly the prices where something rests, with exactly what rests there. */
  ghost predicate Exact(side: Side, orders: map<int, Order>, bid: bool)
  {
    forall p :: (p in side <==> 0 < Resting(orders, bid, p)) && (p in side ==> side[p] == Resting(orders, bid, p))
  }

  /** The side lists no more than what rests, and no empty level. */
  ghost predicate Within(side: Side, orders: map<int, Order>, bid: bool)
  {
    forall p :: p in side ==> 0 < side[p] <= Resting(orders, bid, p)
  }

  /** Adding an order changes what rests at its own price only. */
  lemma RestingAdded(orders: map<int, Order>, bid: bool, r: int, o: Order)
    requires AllPositive(orders) && r !in orders
    ensures forall p :: Resting(orders[r := o], bid, p) == Resting(orders, bid, p) + SharesAt(o, bid, p)
    ensures forall p :: 0 <= Resting(orders, bid, p)
  {
    forall p ensures Resting(orders[r := o], bid, p) == Resting(orders, bid, p) + SharesAt(o, bid, p) {
      RestingPut(orders, r, o, bid, p);
    }
    forall p ensures 0 <= Resting(orders, bid, p) {
      RestingBounds(orders, bid, p);
    }
  }

  // ---- the same arithmetic without a width ----

  /** What a side shows at a price. */
  function LevelOf(side: Side, price: int): int
  {
    if price in side then side[price] else 0
  }

  function Taken(side: Side, price: int, quantity: int): Side
  {
    if price !in side then side
    else if side[price] <= quantity then side - {price}
    else side[price := side[price] - quantity]
  }

  function SharesTaken(orders: map<int, Order>, reference: int, applied: int): map<int, Order>
    requires reference in orders
  {
    var o := orders[reference];
    if o.remaining <= applied then orders - {reference}
    else orders[reference := o.(remaining := o.remaining - applied)]
  }

  /** Where the true difference fits the register, the register holds it. */
  lemma TakenInRegister(side: Side, orders: map<int, Order>, r: int, price: int, applied: int)
    requires r in orders && IsInt32(orders[r].remaining - applied)
    requires price in side ==> IsInt32(side[price] - applied)
    ensures TakeFrom(side, price, applied) == Taken(side, price, applied)
    ensures TakeShares(orders, r, applied) == SharesTaken(orders, r, applied)
  {
  }

  /** There is room in a 32-bit register for the shares of a new order at its level. */
  predicate RoomFor(side: Side, price: int, shares: int)
  {
    LevelOf(side, price) + shares <= INT32_MAX
  }

  lemma RestedExact(side: Side, orders: map<int, Order>, bid: bool, r: int, o: Order)
    requires AllPositive(orders) && r !in orders && 0 < o.remaining && Exact(side, orders, bid)
    requires o.bid == bid ==> !Overflows(side, o.price) && RoomFor(side, o.price, o.remaining)
    ensures Exact(if o.bid == bid then AddTo(side, o.price, o.remaining) else side, orders[r := o], bid)
  {
    hide Resting;
    RestingAdded(orders, bid, r, o);
  }

  lemma RestedWithin(side: Side, orders: map<int, Order>, bid: bool, r: int, o: Order)
    requires AllPositive(orders) && r !in orders && 0 < o.remaining && Within(side, orders, bid)
    requires o.bid == bid ==> RoomFor(side, o.price, o.remaining)
    ensures Within(if o.bid == bid then AddTo(side, o.price, o.remaining) else side, orders[r := o], bid)
  {
    hide Resting;
    RestingAdded(orders, bid, r, o);
    var now := if o.bid == bid then AddTo(side, o.price, o.remaining) else side;
    forall p | p in now ensures 0 < now[p] <= Resting(orders[r := o], bid, p) {
      assert p in side ==> 0 < side[p] <= Resting(orders, bid, p);
      assert Resting(orders[r := o], bid, p) == Resting(orders, bid, p) + SharesAt(o, bid, p);
    }
  }

  lemma TakenSide(side: Side, orders: map<int, Order>, bid: bool, r: int, applied: int)
    requires AllPositive(orders) && r in orders && 0 <= applied <= orders[r].remaining
    ensures var now := if orders[r].bid == bid then Taken(side, orders[r].price, applied) else side;
      && (Exact(side, orders, bid) ==> Exact(now, SharesTaken(orders, r, applied), bid))
      && (Within(side, orders, bid) ==> Within(now, SharesTaken(orders, r, applied), bid))
  {
    var o := orders[r];
    var after := SharesTaken(orders, r, applied);
    forall p ensures Resting(after, bid, p) == Resting(orders, bid, p) - SharesAt(o.(remaining := applied), bid, p)
      && SharesAt(o, bid, p) <= Resting(orders, bid, p)
    {
      RestingWithout(orders, r, bid, p);
      RestingPut(orders, r, o.(remaining := o.remaining - applied), bid, p);
      RestingBounds(orders, bid, p);
    }
  }

  // ---- the ledger of the pipeline ----

  /** Every share count and every quantity is one that an int32 holds. */
  ghost predicate Narrow(l: Ledger)
  {
    && (forall r :: r in l.orders ==> IsInt32(l.orders[r].remaining))
    && (forall p :: p in l.bids ==> IsInt32(l.bids[p]))
    && (forall p :: p in l.asks ==> IsInt32(l.asks[p]))
  }

  lemma AddNarrow(l: Ledger, reference: int, bid: bool, price: int, shares: int, capacity: nat)
    requires Narrow(l) && IsInt32(shares)
    ensures Narrow(AddOrder(l, reference, bid, price, shares, capacity).ledger)
  {
    hide ToInt32;
  }

  lemma ReduceNarrow(l: Ledger, reference: int, shares: int)
    requires Narrow(l)
    ensures Narrow(ReduceOrder(l, reference, shares).ledger)
  {
    hide ToInt32;
  }

  /** No event, in range or not, makes a value that its register does not hold. */
  lemma ApplyNarrow(l: Ledger, e: Event, capacity: nat)
    requires Narrow(l)
    ensures Narrow(ApplyEvent(l, e, capacity).ledger)
  {
    hide Narrow, AddOrder, ReduceOrder, ToInt32;
    match e.kind {
      case Add | AddMpid =>
        AddNarrow(l, e.orderReference, e.side == SIDE_B, ToInt32(e.price), ToInt32(e.shares), capacity);
      case Executed | ExecutedPrice | Cancel =>
        ReduceNarrow(l, e.orderReference, ToInt32(e.shares));
      case DeleteOrder =>
        ReduceNarrow(l, e.orderReference, INT32_MAX);
      case Replace =>
        ReduceNarrow(l, e.orderReference, INT32_MAX);
        var removed := ReduceOrder(l, e.orderReference, INT32_MAX);
        if removed.ok {
          ReplacedKnown(l, e.orderReference);
          AddNarrow(removed.ledger, e.newReference, l.orders[e.orderReference].bid, ToInt32(e.price), ToInt32(e.shares),
                    capacity);
        }
      case Unknown => {}
    }
  }

  lemma ReplacedKnown(l: Ledger, reference: int)
    requires ReduceOrder(l, reference, INT32_MAX).ok
    ensures reference in l.orders
  {
  }

  /** After any messages at all every share count and quantity fits its int32. */
  lemma {:induction false} AlwaysNarrow(stream: Stream, k: nat)
    requires k <= stream.Count()
    ensures Narrow(stream.After(k))
  {
    hide Narrow, ApplyEvent, EventOf, Supported;
    if k == 0 {
      NothingRests();
    } else {
      AlwaysNarrow(stream, k - 1);
      if Supported(stream.messages[k - 1].bytes) {
        ApplyNarrow(stream.After(k - 1), EventOf(stream.messages[k - 1].bytes), stream.orderCapacity);
      }
    }
  }

  /** The book of a ledger summarises its orders; exactly so while no add has been dropped. */
  ghost predicate Sound(l: Ledger)
  {
    && Narrow(l) && AllPositive(l.orders)
    && Within(l.bids, l.orders, true) && Within(l.asks, l.orders, false)
    && (l.overflow == 0 ==> Exact(l.bids, l.orders, true) && Exact(l.asks, l.orders, false))
  }

  /** Shares and prices that survive the casts to int32: positive shares where an order is added. */
  predicate InRange(e: Event)
  {
    && e.shares < 0x8000_0000 && e.price < 0x8000_0000
    && (e.kind == Add || e.kind == AddMpid || e.kind == Replace ==> 1 <= e.shares)
  }

  lemma AddKeeps(l: Ledger, reference: int, bid: bool, price: int, shares: int, capacity: nat)
    requires Sound(l) && 0 < shares && AddOrder(l, reference, bid, price, shares, capacity).ok
    requires RoomFor(l.SideOf(bid), price, shares) && shares <= INT32_MAX
    ensures Sound(AddOrder(l, reference, bid, price, shares, capacity).ledger)
  {
    var o := Order(bid, price, shares);
    AddNarrow(l, reference, bid, price, shares, capacity);
    hide Exact, Within, Narrow;
    RestedWithin(l.bids, l.orders, true, reference, o);
    RestedWithin(l.asks, l.orders, false, reference, o);
    if AddOrder(l, reference, bid, price, shares, capacity).ledger.overflow == 0 {
      RestedExact(l.bids, l.orders, true, reference, o);
      RestedExact(l.asks, l.orders, false, reference, o);
    }
  }

  /** An add that the table accepts keeps the book a summary exactly when its level has room, whether the
      book has dropped adds before or drops this one. */
  lemma AddKeepsIff(l: Ledger, reference: int, bid: bool, price: int, shares: int, capacity: nat)
    requires Sound(l) && 0 < shares <= INT32_MAX && AddOrder(l, reference, bid, price, shares, capacity).ok
    ensures Sound(AddOrder(l, reference, bid, price, shares, capacity).ledger) <==> RoomFor(l.SideOf(bid), price, shares)
  {
    if RoomFor(l.SideOf(bid), price, shares) {
      AddKeeps(l, reference, bid, price, shares, capacity);
    } else {
      var add := AddOrder(l, reference, bid, price, shares, capacity).ledger;
      assert add.SideOf(bid)[price] == ToInt32(LevelOf(l.SideOf(bid), price) + shares);
      assert add.SideOf(bid)[price] < 0;
    }
  }

  /** Taking shares from an order is the same with and without a width. */
  lemma ReduceInRegister(l: Ledger, reference: int, shares: int)
    requires Sound(l) && 0 <= shares && reference in l.orders
    ensures var o := l.orders[reference];
      var n := Min(shares, o.remaining);
      && TakeFrom(l.SideOf(o.bid), o.price, n) == Taken(l.SideOf(o.bid), o.price, n)
      && TakeShares(l.orders, reference, n) == SharesTaken(l.orders, reference, n)
  {
    var o := l.orders[reference];
    TakenInRegister(l.SideOf(o.bid), l.orders, reference, o.price, Min(shares, o.remaining));
  }

  lemma ReduceKeeps(l: Ledger, reference: int, shares: int)
    requires Sound(l) && 0 <= shares
    ensures Sound(ReduceOrder(l, reference, shares).ledger)
  {
    ReduceNarrow(l, reference, shares);
    if reference in l.orders {
      var applied := Min(shares, l.orders[reference].remaining);
      ReduceInRegister(l, reference, shares);
      TakenSide(l.bids, l.orders, true, reference, applied);
      TakenSide(l.asks, l.orders, false, reference, applied);
    }
  }

  /** The level that the event adds to has room for the shares. */
  predicate HasRoom(l: Ledger, e: Event)
  {
    match e.kind
    case Add | AddMpid => RoomFor(l.SideOf(e.side == SIDE_B), e.price, e.shares)
    case Replace =>
      e.orderReference in l.orders ==>
        RoomFor(ReduceOrder(l, e.orderReference, INT32_MAX).ledger.SideOf(l.orders[e.orderReference].bid), e.price, e.shares)
    case _ => true
  }

  /** An accepted message in range keeps the book a summary of the orders exactly when the level that it
      adds to has room. */
  lemma AcceptedKeepsIff(l: Ledger, e: Event, capacity: nat)
    requires Sound(l) && InRange(e) && ApplyEvent(l, e, capacity).ok
    ensures Sound(ApplyEvent(l, e, capacity).ledger) <==> HasRoom(l, e)
    ensures l.overflow <= ApplyEvent(l, e, capacity).ledger.overflow
  {
    hide Sound, AllPositive, AddTo, TakeFrom, TakeShares, Overflows, ToInt32, RoomFor;
    match e.kind {
      case Add | AddMpid =>
        AddKeepsIff(l, e.orderReference, e.side == SIDE_B, e.price, e.shares, capacity);
      case Executed | ExecutedPrice | Cancel =>
        ReduceKeeps(l, e.orderReference, e.shares);
      case DeleteOrder =>
        ReduceKeeps(l, e.orderReference, INT32_MAX);
      case Replace =>
        ReduceKeeps(l, e.orderReference, INT32_MAX);
        AddKeepsIff(ReduceOrder(l, e.orderReference, INT32_MAX).ledger, e.newReference, l.orders[e.orderReference].bid,
                    e.price, e.shares, capacity);
      case Unknown => {}
    }
  }

  // ---- exactly when an event keeps it ----

  /** The book drops the add, or the table takes the order and its level has room. */
  predicate KeepsAdd(l: Ledger, reference: int, bid: bool, price: int, shares: int, capacity: nat)
  {
    || Overflows(l.SideOf(bid), price)
    || (reference !in l.orders && |l.orders| < capacity && RoomFor(l.SideOf(bid), price, shares))
  }

  /** What a caller can look up before the event to know that the book will still summarise the orders. */
  predicate Keeps(l: Ledger, e: Event, capacity: nat)
  {
    match e.kind
    case Add | AddMpid => KeepsAdd(l, e.orderReference, e.side == SIDE_B, e.price, e.shares, capacity)
    case Replace =>
      e.orderReference in l.orders ==>
        KeepsAdd(ReduceOrder(l, e.orderReference, INT32_MAX).ledger, e.newReference, l.orders[e.orderReference].bid,
                 e.price, e.shares, capacity)
    case _ => true
  }

  lemma SoundLevel(l: Ledger, bid: bool, price: int)
    requires Sound(l)
    ensures price in l.SideOf(bid) ==> 0 < l.SideOf(bid)[price] <= Resting(l.orders, bid, price)
    ensures IsInt32(LevelOf(l.SideOf(bid), price))
    ensures l.overflow == 0 ==> LevelOf(l.SideOf(bid), price) == Resting(l.orders, bid, price)
  {
    RestingBounds(l.orders, bid, price);
  }

  lemma DropKeeps(l: Ledger, bid: bool)
    requires Sound(l)
    ensures Sound(l.WithSide(bid, l.SideOf(bid)).(overflow := l.overflow + 1))
  {
  }

  /** An add that the table has refused goes into the book all the same, unless the book drops it. */
  lemma RefusedAdd(l: Ledger, reference: int, bid: bool, price: int, shares: int, capacity: nat)
    requires Sound(l) && l.overflow == 0 && 0 < shares <= INT32_MAX
    requires !AddOrder(l, reference, bid, price, shares, capacity).ok
    ensures Sound(AddOrder(l, reference, bid, price, shares, capacity).ledger) <==> Overflows(l.SideOf(bid), price)
  {
    hide Sound, Resting;
    var after := AddOrder(l, reference, bid, price, shares, capacity).ledger;
    SoundLevel(l, bid, price);
    if Overflows(l.SideOf(bid), price) {
      DropKeeps(l, bid);
    } else if Sound(after) {
      SoundLevel(after, bid, price);
    }
  }

  lemma KeepsAddIff(l: Ledger, reference: int, bid: bool, price: int, shares: int, capacity: nat)
    requires Sound(l) && l.overflow == 0 && 0 < shares <= INT32_MAX
    ensures Sound(AddOrder(l, reference, bid, price, shares, capacity).ledger)
      <==> KeepsAdd(l, reference, bid, price, shares, capacity)
  {
    hide Sound;
    if AddOrder(l, reference, bid, price, shares, capacity).ok {
      AddKeepsIff(l, reference, bid, price, shares, capacity);
    } else {
      RefusedAdd(l, reference, bid, price, shares, capacity);
    }
  }

  /** With no add dropped so far, an event in range keeps the book a summary of the orders exactly
      under that condition: the source gives the book an add that the table has refused, and lets a
      level run over its register. */
  lemma KeepsIff(l: Ledger, e: Event, capacity: nat)
    requires Sound(l) && l.overflow == 0 && InRange(e)
    ensures Sound(ApplyEvent(l, e, capacity).ledger) <==> Keeps(l, e, capacity)
  {
    hide Sound, KeepsAdd, AddTo, TakeFrom, TakeShares, Overflows, ToInt32;
    match e.kind {
      case Add | AddMpid =>
        KeepsAddIff(l, e.orderReference, e.side == SIDE_B, e.price, e.shares, capacity);
      case Executed | ExecutedPrice | Cancel =>
        ReduceKeeps(l, e.orderReference, e.shares);
      case DeleteOrder =>
        ReduceKeeps(l, e.orderReference, INT32_MAX);
      case Replace =>
        ReduceKeeps(l, e.orderReference, INT32_MAX);
        if e.orderReference in l.orders {
          KeepsAddIff(ReduceOrder(l, e.orderReference, INT32_MAX).ledger, e.newReference, l.orders[e.orderReference].bid,
                      e.price, e.shares, capacity);
        }
      case Unknown => {}
    }
  }

  /** An order added again under its reference is refused by the table and doubled in the book. */
  lemma RefusedAddExample()
    ensures var e := Event(Add, 1, 0, 5, 100, SIDE_B, NO_STOCK);
      var once := ApplyEvent(EMPTY, e, 128).ledger;
      var twice := ApplyEvent(once, e, 128);
      && Sound(once) && !Keeps(once, e, 128) && !twice.ok && !Sound(twice.ledger)
      && twice.ledger.bids[100] == 10 && twice.ledger.orders[1].remaining == 5
  {
    var e := Event(Add, 1, 0, 5, 100, SIDE_B, NO_STOCK);
    NothingRests();
    KeepsIff(EMPTY, e, 128);
    KeepsIff(ApplyEvent(EMPTY, e, 128).ledger, e, 128);
  }

  // ---- over a sequence of messages ----

  lemma NothingRests()
    ensures Sound(EMPTY)
  {
  }

  /** What rests at each price fits an int32. */
  ghost predicate TotalsFit(orders: map<int, Order>)
  {
    forall bid, p :: Resting(orders, bid, p) <= INT32_MAX
  }

  lemma TotalGivesRoom(l: Ledger, reference: int, bid: bool, price: int, shares: int, capacity: nat)
    requires Sound(l) && 0 < shares <= INT32_MAX && AddOrder(l, reference, bid, price, shares, capacity).ok
    requires TotalsFit(AddOrder(l, reference, bid, price, shares, capacity).ledger.orders)
    ensures RoomFor(l.SideOf(bid), price, shares)
  {
    RestingPut(l.orders, reference, Order(bid, price, shares), bid, price);
    RestingBounds(l.orders, bid, price);
  }

  /** If what rests afterwards fits, the level had room. */
  lemma TotalsGiveRoom(l: Ledger, e: Event, capacity: nat)
    requires Sound(l) && InRange(e) && ApplyEvent(l, e, capacity).ok
    requires TotalsFit(ApplyEvent(l, e, capacity).ledger.orders)
    ensures HasRoom(l, e)
  {
    hide Sound, TotalsFit, RoomFor, AddTo, TakeFrom, TakeShares, Overflows, ToInt32;
    match e.kind {
      case Add | AddMpid =>
        TotalGivesRoom(l, e.orderReference, e.side == SIDE_B, e.price, e.shares, capacity);
      case Replace =>
        ReduceKeeps(l, e.orderReference, INT32_MAX);
        TotalGivesRoom(ReduceOrder(l, e.orderReference, INT32_MAX).ledger, e.newReference, l.orders[e.orderReference].bid,
                       e.price, e.shares, capacity);
      case _ => {}
    }
  }

  /** A book that has dropped nothing can only summarise totals that fit. */
  lemma SoundTotalsFit(l: Ledger)
    requires Sound(l) && l.overflow == 0
    ensures TotalsFit(l.orders)
  {
    forall bid, p ensures Resting(l.orders, bid, p) <= INT32_MAX {
      if 0 < Resting(l.orders, bid, p) {
        assert p in l.SideOf(bid);
      }
    }
  }

  /** The first k messages are accepted by the interpreter and in range. */
  ghost predicate AcceptedInRange(stream: Stream, k: nat)
    requires k <= stream.Count()
  {
    forall i {:trigger At(i)} :: At(i) && 0 <= i < k ==>
      stream.Accepted(i) && InRange(EventOf(stream.messages[i].bytes))
  }

  /** After each of the first k messages, what rests at each price fits an int32. */
  ghost predicate TotalsFitUpTo(stream: Stream, k: nat)
    requires k <= stream.Count()
  {
    forall j {:trigger At(j)} :: At(j) && 0 <= j <= k ==> TotalsFit(stream.After(j).orders)
  }

  lemma {:induction false} DropsStay(stream: Stream, j: nat, k: nat)
    requires j <= k <= stream.Count()
    ensures stream.After(j).overflow <= stream.After(k).overflow
    decreases k
  {
    hide EventOf, Supported, AddTo, TakeFrom, TakeShares, Overflows, ToInt32;
    if j < k {
      DropsStay(stream, j, k - 1);
    }
  }

  /** What an accepted message in range does to the orders, in whole numbers: a new order rests with its side, price
      and shares; shares taken leave one order, which goes with the last of them; a deletion takes it out; a
      replacement rests on the side of the order replaced. */
  lemma OrdersAfter(l: Ledger, e: Event, capacity: nat)
    requires Narrow(l) && AllPositive(l.orders) && InRange(e) && ApplyEvent(l, e, capacity).ok
    ensures var after, r := ApplyEvent(l, e, capacity).ledger.orders, e.orderReference;
      match e.kind
      case Add | AddMpid => r !in l.orders && after == l.orders[r := Order(e.side == 66, e.price, e.shares)]
      case Executed | ExecutedPrice | Cancel =>
        && r in l.orders
        && after == if e.shares < l.orders[r].remaining
             then l.orders[r := Order(l.orders[r].bid, l.orders[r].price, l.orders[r].remaining - e.shares)]
             else l.orders - {r}
      case DeleteOrder => r in l.orders && after == l.orders - {r}
      case Replace =>
        r in l.orders && after == (l.orders - {r})[e.newReference := Order(l.orders[r].bid, e.price, e.shares)]
      case Unknown => false
  {
    hide AddTo, Overflows, ReduceOrder, ToInt32, Narrow, AllPositive;
    match e.kind {
      case Executed | ExecutedPrice | Cancel =>
        OrdersTaken(l, e.orderReference, e.shares);
      case DeleteOrder | Replace =>
        OrderTaken(l, e.orderReference);
      case _ => {}
    }
  }

  lemma OrdersTaken(l: Ledger, r: int, shares: nat)
    requires Narrow(l) && AllPositive(l.orders) && ReduceOrder(l, r, shares).ok
    ensures r in l.orders && ReduceOrder(l, r, shares).ledger.orders
      == if shares < l.orders[r].remaining
         then l.orders[r := Order(l.orders[r].bid, l.orders[r].price, l.orders[r].remaining - shares)]
         else l.orders - {r}
  {
    hide TakeFrom;
    TakenInRegister(map[], l.orders, r, 0, Min(shares, l.orders[r].remaining));
  }

  lemma OrderTaken(l: Ledger, r: int)
    requires Narrow(l) && AllPositive(l.orders) && ReduceOrder(l, r, INT32_MAX).ok
    ensures r in l.orders && ReduceOrder(l, r, INT32_MAX).ledger.orders == l.orders - {r}
  {
    OrdersTaken(l, r, INT32_MAX);
    assert IsInt32(l.orders[r].remaining);
  }

  /** The event brings an order to a price that its side does not list afterwards. */
  predicate Dropped(l: Ledger, e: Event, after: Ledger)
  {
    match e.kind
    case Add | AddMpid => ToInt32(e.price) !in after.SideOf(e.side == SIDE_B)
    case Replace => e.orderReference in l.orders && ToInt32(e.price) !in after.SideOf(l.orders[e.orderReference].bid)
    case _ => false
  }

  lemma AddDropped(l: Ledger, reference: int, bid: bool, price: int, shares: int, capacity: nat)
    ensures var after := AddOrder(l, reference, bid, price, shares, capacity).ledger;
      after.overflow == l.overflow + if price in after.SideOf(bid) then 0 else 1
  {
  }

  /** The counter goes up by one just then, accepted or not. */
  lemma DropCounted(l: Ledger, e: Event, capacity: nat)
    ensures var after := ApplyEvent(l, e, capacity).ledger;
      after.overflow == l.overflow + if Dropped(l, e, after) then 1 else 0
  {
    hide AddOrder, ToInt32;
    match e.kind {
      case Add | AddMpid =>
        AddDropped(l, e.orderReference, e.side == SIDE_B, ToInt32(e.price), ToInt32(e.shares), capacity);
      case Replace =>
        if ReduceOrder(l, e.orderReference, INT32_MAX).ok {
          AddDropped(ReduceOrder(l, e.orderReference, INT32_MAX).ledger, e.newReference, l.orders[e.orderReference].bid,
                     ToInt32(e.price), ToInt32(e.shares), capacity);
        }
      case _ => {}
    }
  }

  /** How many of the first k messages had their order dropped. */
  ghost function DroppedAmong(stream: Stream, k: nat): nat
    requires k <= stream.Count()
  {
    if k == 0 then 0
    else
      var m := stream.messages[k - 1].bytes;
      DroppedAmong(stream, k - 1)
      + if Supported(m) && Dropped(stream.After(k - 1), EventOf(m), stream.After(k)) then 1 else 0
  }

  lemma {:induction false} DropsCounted(stream: Stream, k: nat)
    requires k <= stream.Count()
    ensures stream.After(k).overflow == DroppedAmong(stream, k)
  {
    hide Supported, EventOf, ApplyEvent, Dropped;
    if k > 0 {
      DropsCounted(stream, k - 1);
      var m := stream.messages[k - 1].bytes;
      if Supported(m) {
        DropCounted(stream.After(k - 1), EventOf(m), stream.orderCapacity);
      }
    }
  }

  /** Over every failure-free sequence of messages in range whose totals fit, the book never shows more
      than the live orders hold at a price, and shows exactly that at all prices while no add has been
      dropped. */
  lemma {:induction false} BookSummarisesOrders(stream: Stream, k: nat)
    requires k <= stream.Count()
    requires AcceptedInRange(stream, k) && TotalsFitUpTo(stream, k)
    ensures Sound(stream.After(k))
  {
    hide Sound, ApplyEvent, InRange, EventOf, TotalsFit, HasRoom;
    NothingRests();
    if k > 0 {
      assert At(k - 1) && At(k);
      BookSummarisesOrders(stream, k - 1);
      TotalsGiveRoom(stream.After(k - 1), EventOf(stream.messages[k - 1].bytes), stream.orderCapacity);
      AcceptedKeepsIff(stream.After(k - 1), EventOf(stream.messages[k - 1].bytes), stream.orderCapacity);
    }
  }

  /** After each of the first k messages the book summarises the orders. */
  ghost predicate SoundUpTo(stream: Stream, k: nat)
    requires k <= stream.Count()
  {
    forall j {:trigger At(j)} :: At(j) && 0 <= j <= k ==> Sound(stream.After(j))
  }

  /** Before each of the first k messages, the level that it adds to has room. */
  ghost predicate RoomUpTo(stream: Stream, k: nat)
    requires k <= stream.Count() && AcceptedInRange(stream, k)
  {
    forall i {:trigger At(i)} :: At(i) && 0 <= i < k ==> HasRoom(stream.After(i), EventOf(stream.messages[i].bytes))
  }

  /** Over every failure-free sequence of messages in range, however many adds the book has dropped, it
      stays a summary of the orders exactly as long as there is room. */
  lemma {:induction false} SummaryIffRoom(stream: Stream, k: nat)
    requires k <= stream.Count() && AcceptedInRange(stream, k)
    ensures SoundUpTo(stream, k) <==> RoomUpTo(stream, k)
  {
    hide Sound, ApplyEvent, InRange, EventOf, HasRoom;
    NothingRests();
    if k > 0 {
      assert At(k - 1) && At(k);
      SummaryIffRoom(stream, k - 1);
      if SoundUpTo(stream, k - 1) {
        AcceptedKeepsIff(stream.After(k - 1), EventOf(stream.messages[k - 1].bytes), stream.orderCapacity);
      }
    }
  }

  /** With no add dropped, the totals fitting is exactly what it takes. */
  lemma SummaryIffTotalsFit(stream: Stream, k: nat)
    requires k <= stream.Count() && AcceptedInRange(stream, k) && stream.After(k).overflow == 0
    ensures SoundUpTo(stream, k) <==> TotalsFitUpTo(stream, k)
  {
    hide Sound, TotalsFit, Stream.After, Stream.Accepted, InRange, EventOf;
    if TotalsFitUpTo(stream, k) {
      forall j | 0 <= j <= k ensures Sound(stream.After(j)) {
        BookSummarisesOrders(stream, j);
      }
    }
    if SoundUpTo(stream, k) {
      forall j | 0 <= j <= k ensures TotalsFit(stream.After(j).orders) {
        assert At(j);
        DropsStay(stream, j, k);
        SoundTotalsFit(stream.After(j));
      }
    }
  }

  /** The best price of an exact side, read off the orders: the extreme price at which one rests. */
  ghost predicate Extreme(orders: map<int, Order>, bid: bool, price: int)
  {
    && (exists r :: r in orders && orders[r].bid == bid && orders[r].price == price)
    && forall r :: r in orders && orders[r].bid == bid ==> if bid then orders[r].price <= price else price <= orders[r].price
  }

  ghost predicate NoneOn(orders: map<int, Order>, bid: bool)
  {
    forall r :: r in orders ==> orders[r].bid != bid
  }

  lemma BestIsExtreme(side: Side, orders: map<int, Order>, bid: bool)
    requires AllPositive(orders) && Exact(side, orders, bid)
    ensures var best := Best(side, bid);
      if NoneOn(orders, bid) then best == EMPTY_LEVEL
      else best.live && Extreme(orders, bid, best.key) && best.value == Resting(orders, bid, best.key)
  {
    var best := Best(side, bid);
    forall r | r in orders && orders[r].bid == bid ensures orders[r].price in side {
      RestingPositive(orders, bid, orders[r].price);
    }
    if best.live {
      RestingPositive(orders, bid, best.key);
    } else {
      assert side == map[];
    }
  }

  /** What a quote says of the orders, if no add has been dropped. */
  lemma QuoteShowsOrders(l: Ledger, emptyAsk: int)
    requires Sound(l) && l.overflow == 0
    ensures var q := QuoteOf(l, emptyAsk);
      && (if NoneOn(l.orders, true) then q.bidPrice == q.bidQty == 0
          else Extreme(l.orders, true, q.bidPrice) && q.bidQty == Resting(l.orders, true, q.bidPrice))
      && (if NoneOn(l.orders, false) then q.askPrice == emptyAsk && q.askQty == 0
          else Extreme(l.orders, false, q.askPrice) && q.askQty == Resting(l.orders, false, q.askPrice))
  {
    hide Extreme, Resting, NoneOn, Exact;
    BestIsExtreme(l.bids, l.orders, true);
    BestIsExtreme(l.asks, l.orders, false);
  }
}
