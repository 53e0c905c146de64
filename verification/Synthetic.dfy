/** The generator of include/pipeline/synthetic_itch.hpp, with its own ledger of the orders it has
    sent, against the interpreter of the messages it sends. */
module SyntheticLedger {
  import opened Words
  import opened SlotMaps
  import opened OrderTables
  import opened OrderBooks
  import opened Ofi
  import opened Ledgers
  import opened RestingOrders

  const BASE_BID: int := 1892500
  const BASE_ASK: int := 1893000
  const TICK: int := 100
  const PRICE_LEVELS: nat := 5
  const ORDER_CAPACITY: nat := 128
  const EMPTY_ASK: int := INT32_MAX

  function LevelPrice(bid: bool, level: nat): int
  {
    if bid then BASE_BID - level * TICK else BASE_ASK + level * TICK
  }

  datatype Live = Live(reference: nat, remaining: int, level: nat, bid: bool)

  /** What the generator remembers of an order is what the table holds of it. */
  ghost predicate OrderAt(orders: map<int, Order>, o: Live, next: nat)
  {
    && o.reference in orders && o.reference < next
    && o.level < PRICE_LEVELS && 0 < o.remaining <= 500
    && orders[o.reference] == Order(o.bid, LevelPrice(o.bid, o.level), o.remaining)
  }

  ghost predicate AllAt(live: seq<Live>, orders: map<int, Order>, next: nat)
  {
    forall j :: 0 <= j < |live| ==> OrderAt(orders, live[j], next)
  }

  ghost predicate Covers(live: seq<Live>, orders: map<int, Order>)
  {
    forall r :: r in orders ==> exists j :: 0 <= j < |live| && live[j].reference == r
  }

  ghost predicate NoneTwice(live: seq<Live>)
  {
    forall j, k :: 0 <= j < k < |live| ==> live[j].reference != live[k].reference
  }

  /** The generator's list lists the live orders. */
  ghost predicate Lists(live: seq<Live>, orders: map<int, Order>, next: nat)
  {
    |live| == |orders| && AllAt(live, orders, next) && Covers(live, orders) && NoneTwice(live)
  }

  /** The generator's quantities are what rests at the levels. */
  ghost predicate Counts(qty: seq<int>, orders: map<int, Order>, bid: bool)
  {
    |qty| == PRICE_LEVELS && forall v :: 0 <= v < PRICE_LEVELS ==> qty[v] == Resting(orders, bid, LevelPrice(bid, v))
  }

  /** Only the generator's prices occur. */
  ghost predicate OnLevels(orders: map<int, Order>)
  {
    forall r :: r in orders ==> exists v :: 0 <= v < PRICE_LEVELS && orders[r].price == LevelPrice(orders[r].bid, v)
  }

  lemma ListsOnLevels(live: seq<Live>, orders: map<int, Order>, next: nat)
    requires Lists(live, orders, next)
    ensures OnLevels(orders)
  {
    forall r | r in orders ensures exists v :: 0 <= v < PRICE_LEVELS && orders[r].price == LevelPrice(orders[r].bid, v) {
      var j :| 0 <= j < |live| && live[j].reference == r;
      assert OrderAt(orders, live[j], next);
      assert orders[r].price == LevelPrice(orders[r].bid, live[j].level);
    }
  }

  /** An order that another change does not touch is still there. */
  lemma OrderStays(orders: map<int, Order>, after: map<int, Order>, o: Live, next: nat, later: nat)
    requires OrderAt(orders, o, next) && next <= later
    requires o.reference in after && after[o.reference] == orders[o.reference]
    ensures OrderAt(after, o, later)
  {
  }

  lemma AllIn(live: seq<Live>, orders: map<int, Order>, next: nat)
    requires AllAt(live, orders, next)
    ensures forall j :: 0 <= j < |live| ==> live[j].reference in orders && live[j].reference < next
  {
    forall j | 0 <= j < |live| ensures live[j].reference in orders && live[j].reference < next {
      assert OrderAt(orders, live[j], next);
    }
  }

  lemma AllAdd(live: seq<Live>, orders: map<int, Order>, next: nat, o: Live, order: Order)
    requires AllAt(live, orders, next) && o.reference == next && OrderAt(orders[next := order], o, next + 1)
    ensures AllAt(live + [o], orders[next := order], next + 1)
  {
    AllIn(live, orders, next);
    hide OrderAt;
    forall j | 0 <= j < |live| ensures OrderAt(orders[next := order], live[j], next + 1) {
      OrderStays(orders, orders[next := order], live[j], next, next + 1);
    }
  }

  lemma CoversAdd(live: seq<Live>, orders: map<int, Order>, o: Live, order: Order)
    requires Covers(live, orders)
    ensures Covers(live + [o], orders[o.reference := order])
  {
    var now, after := live + [o], orders[o.reference := order];
    forall r | r in after ensures exists j :: 0 <= j < |now| && now[j].reference == r {
      if r == o.reference {
        assert now[|live|].reference == r;
      } else {
        var j :| 0 <= j < |live| && live[j].reference == r;
        assert now[j].reference == r;
      }
    }
  }

  lemma NextIsFresh(live: seq<Live>, orders: map<int, Order>, next: nat)
    requires AllAt(live, orders, next) && Covers(live, orders)
    ensures next !in orders
  {
    AllIn(live, orders, next);
    hide AllAt;
    forall r | r in orders ensures r < next {
      var j :| 0 <= j < |live| && live[j].reference == r;
    }
  }

  lemma NoneTwiceAdd(live: seq<Live>, orders: map<int, Order>, o: Live)
    requires AllAt(live, orders, o.reference) && NoneTwice(live)
    ensures NoneTwice(live + [o])
  {
    AllIn(live, orders, o.reference);
    hide AllAt;
  }

  lemma ListsAdd(live: seq<Live>, orders: map<int, Order>, next: nat, o: Live)
    requires Lists(live, orders, next) && o.reference == next && o.level < PRICE_LEVELS && 0 < o.remaining <= 500
    ensures next !in orders
    ensures Lists(live + [o], orders[next := Order(o.bid, LevelPrice(o.bid, o.level), o.remaining)], next + 1)
  {
    var order := Order(o.bid, LevelPrice(o.bid, o.level), o.remaining);
    assert OrderAt(orders[next := order], o, next + 1);
    hide AllAt, Covers, NoneTwice;
    NextIsFresh(live, orders, next);
    AllAdd(live, orders, next, o, order);
    CoversAdd(live, orders, o, order);
    NoneTwiceAdd(live, orders, o);
    assert orders[next := order].Keys == orders.Keys + {next};
  }

  lemma AllPart(live: seq<Live>, orders: map<int, Order>, next: nat, index: nat, o: Live, order: Order)
    requires AllAt(live, orders, next) && NoneTwice(live) && index < |live|
    requires o.reference == live[index].reference && OrderAt(orders[o.reference := order], o, next)
    ensures AllAt(live[index := o], orders[o.reference := order], next)
  {
    AllIn(live, orders, next);
    hide OrderAt;
    forall j | 0 <= j < |live| && j != index ensures OrderAt(orders[o.reference := order], live[j], next) {
      OrderStays(orders, orders[o.reference := order], live[j], next, next);
    }
  }

  lemma CoversPart(live: seq<Live>, orders: map<int, Order>, index: nat, o: Live, order: Order)
    requires Covers(live, orders) && index < |live| && o.reference == live[index].reference
    ensures Covers(live[index := o], orders[o.reference := order])
  {
    var now, after := live[index := o], orders[o.reference := order];
    forall r | r in after ensures exists j :: 0 <= j < |now| && now[j].reference == r {
      if r == o.reference {
        assert now[index].reference == r;
      } else {
        var j :| 0 <= j < |live| && live[j].reference == r;
        assert now[j].reference == r;
      }
    }
  }

  /** A part of an order goes. */
  lemma ListsPart(live: seq<Live>, orders: map<int, Order>, next: nat, index: nat, shares: int)
    requires Lists(live, orders, next) && index < |live| && 0 < shares < live[index].remaining
    ensures var o := live[index].(remaining := live[index].remaining - shares);
      && live[index].reference in orders
      && Lists(live[index := o], SharesTaken(orders, live[index].reference, shares), next)
  {
    AllIn(live, orders, next);
    assert OrderAt(orders, live[index], next);
    var o := live[index].(remaining := live[index].remaining - shares);
    var order := orders[o.reference].(remaining := o.remaining);
    assert OrderAt(orders[o.reference := order], o, next);
    AllPart(live, orders, next, index, o, order);
    CoversPart(live, orders, index, o, order);
    hide AllAt, Covers;
    assert orders[o.reference := order].Keys == orders.Keys;
  }

  lemma AllWithout(live: seq<Live>, orders: map<int, Order>, next: nat, index: nat)
    requires AllAt(live, orders, next) && NoneTwice(live) && index < |live|
    ensures AllAt(live[index := live[|live| - 1]][..|live| - 1], orders - {live[index].reference}, next)
  {
    var n := |live| - 1;
    var now := live[index := live[n]][..n];
    AllIn(live, orders, next);
    hide OrderAt;
    forall j | 0 <= j < n ensures OrderAt(orders - {live[index].reference}, now[j], next) {
      OrderStays(orders, orders - {live[index].reference}, if j == index then live[n] else live[j], next, next);
    }
  }

  lemma CoversWithout(live: seq<Live>, orders: map<int, Order>, index: nat)
    requires Covers(live, orders) && index < |live|
    ensures Covers(live[index := live[|live| - 1]][..|live| - 1], orders - {live[index].reference})
  {
    var n := |live| - 1;
    var now := live[index := live[n]][..n];
    forall r | r in orders - {live[index].reference} ensures exists j :: 0 <= j < n && now[j].reference == r {
      var j :| 0 <= j < |live| && live[j].reference == r;
      if j == n {
        assert now[index].reference == r;
      } else {
        assert now[j].reference == r;
      }
    }
  }

  /** A whole order goes, and the last one takes its place. */
  lemma ListsWhole(live: seq<Live>, orders: map<int, Order>, next: nat, index: nat)
    requires Lists(live, orders, next) && index < |live|
    ensures var r := live[index].reference;
      && r in orders
      && Lists(live[index := live[|live| - 1]][..|live| - 1], orders - {r}, next)
  {
    AllIn(live, orders, next);
    AllWithout(live, orders, next, index);
    CoversWithout(live, orders, index);
    hide AllAt, Covers;
    var gone := live[index].reference;
    assert orders.Keys == (orders - {gone}).Keys + {gone};
  }

  lemma CountsAdd(qty: seq<int>, orders: map<int, Order>, bid: bool, reference: nat, o: Order, level: nat)
    requires Counts(qty, orders, bid) && reference !in orders && level < PRICE_LEVELS && o.price == LevelPrice(o.bid, level)
    ensures Counts(if o.bid == bid then qty[level := qty[level] + o.remaining] else qty, orders[reference := o], bid)
  {
    hide Resting;
    forall v | 0 <= v < PRICE_LEVELS
      ensures Resting(orders[reference := o], bid, LevelPrice(bid, v))
        == Resting(orders, bid, LevelPrice(bid, v)) + if o.bid == bid && v == level then o.remaining else 0
    {
      RestingPut(orders, reference, o, bid, LevelPrice(bid, v));
    }
  }

  lemma CountsTake(qty: seq<int>, orders: map<int, Order>, bid: bool, reference: nat, shares: int, level: nat)
    requires Counts(qty, orders, bid) && reference in orders && 0 < shares <= orders[reference].remaining
    requires level < PRICE_LEVELS && orders[reference].price == LevelPrice(orders[reference].bid, level)
    ensures Counts(if orders[reference].bid == bid then qty[level := qty[level] - shares] else qty,
                   SharesTaken(orders, reference, shares), bid)
  {
    hide Resting;
    var o := orders[reference];
    forall v | 0 <= v < PRICE_LEVELS
      ensures Resting(SharesTaken(orders, reference, shares), bid, LevelPrice(bid, v))
        == Resting(orders, bid, LevelPrice(bid, v)) - if o.bid == bid && v == level then shares else 0
    {
      RestingPut(orders, reference, o.(remaining := o.remaining - shares), bid, LevelPrice(bid, v));
      RestingWithout(orders, reference, bid, LevelPrice(bid, v));
    }
  }

  function LevelPrices(bid: bool): set<int>
  {
    {LevelPrice(bid, 0), LevelPrice(bid, 1), LevelPrice(bid, 2), LevelPrice(bid, 3), LevelPrice(bid, 4)}
  }

  lemma FivePrices(bid: bool, v: nat)
    requires v < PRICE_LEVELS
    ensures |LevelPrices(bid)| == 5 && LevelPrice(bid, v) in LevelPrices(bid)
  {
    assert v == 0 || v == 1 || v == 2 || v == 3 || v == 4;
  }

  lemma OnlyLevelPrices(side: Side, orders: map<int, Order>, bid: bool)
    requires AllPositive(orders) && Exact(side, orders, bid) && OnLevels(orders)
    ensures side.Keys <= LevelPrices(bid)
  {
    hide Resting, LevelPrice, LevelPrices;
    forall p | p in side ensures p in LevelPrices(bid) {
      RestingPositive(orders, bid, p);
      var r :| r in orders && orders[r].bid == bid && orders[r].price == p;
      var v :| 0 <= v < PRICE_LEVELS && orders[r].price == LevelPrice(orders[r].bid, v);
      FivePrices(bid, v);
    }
  }

  /** With five prices a side there is always room for the level of a new order. */
  lemma RoomForLevel(side: Side, orders: map<int, Order>, bid: bool, level: nat)
    requires AllPositive(orders) && Exact(side, orders, bid) && OnLevels(orders) && level < PRICE_LEVELS
    ensures !Overflows(side, LevelPrice(bid, level))
  {
    hide Resting, LevelPrice, LevelPrices, Exact, OnLevels, AllPositive;
    OnlyLevelPrices(side, orders, bid);
    FivePrices(bid, level);
    var price, prices := LevelPrice(bid, level), LevelPrices(bid);
    if price !in side {
      assert side.Keys <= prices - {price} && |prices - {price}| == 4;
      SubsetSize(side.Keys, prices - {price});
    }
  }

  lemma {:induction false} SubsetSize(a: set<int>, b: set<int>)
    requires a <= b
    ensures |a| <= |b|
  {
    if exists x :: x in a {
      var x :| x in a;
      SubsetSize(a - {x}, b - {x});
    } else {
      assert a == {};
    }
  }

  /** The generator's list and quantities describe the ledger that the interpreter has after the
      messages sent so far. */
  ghost predicate Tracks(live: seq<Live>, bidQty: seq<int>, askQty: seq<int>, l: Ledger, next: nat)
  {
    && Sound(l) && l.overflow == 0 && Lists(live, l.orders, next)
    && Counts(bidQty, l.orders, true) && Counts(askQty, l.orders, false)
  }

  lemma {:induction false} RestingLight(orders: map<int, Order>, bid: bool, price: int)
    requires forall r :: r in orders ==> 0 < orders[r].remaining <= 500
    ensures Resting(orders, bid, price) <= 500 * |orders|
    decreases |orders|
  {
    if orders != map[] {
      EmptyOrInhabited(orders);
      var r :| r in orders;
      SmallerMap(orders, r);
      RestingWithout(orders, r, bid, price);
      RestingLight(orders - {r}, bid, price);
    }
  }

  /** The generator's totals stay far below the width of a register. */
  lemma ListsLight(live: seq<Live>, orders: map<int, Order>, next: nat, bid: bool, price: int)
    requires Lists(live, orders, next)
    ensures Resting(orders, bid, price) <= 500 * |live|
  {
    forall r | r in orders ensures 0 < orders[r].remaining <= 500 {
      var j :| 0 <= j < |live| && live[j].reference == r;
      assert OrderAt(orders, live[j], next);
    }
    RestingLight(orders, bid, price);
  }

  lemma RoomForShares(live: seq<Live>, l: Ledger, next: nat, bid: bool, price: int, shares: int)
    requires Lists(live, l.orders, next) && Sound(l) && |live| < ORDER_CAPACITY && shares <= 500
    ensures RoomFor(l.SideOf(bid), price, shares)
  {
    ListsLight(live, l.orders, next, bid, price);
    RestingBounds(l.orders, bid, price);
    hide Lists, Resting;
    assert price in l.SideOf(bid) ==> l.SideOf(bid)[price] <= Resting(l.orders, bid, price);
  }

  lemma TracksAdd(live: seq<Live>, bidQty: seq<int>, askQty: seq<int>, l: Ledger, o: Live)
    requires Tracks(live, bidQty, askQty, l, o.reference) && |live| < ORDER_CAPACITY
    requires o.level < PRICE_LEVELS && 0 < o.remaining <= 500
    ensures var after := AddOrder(l, o.reference, o.bid, LevelPrice(o.bid, o.level), o.remaining, ORDER_CAPACITY);
      && after.ok
      && Tracks(live + [o],
                if o.bid then bidQty[o.level := bidQty[o.level] + o.remaining] else bidQty,
                if o.bid then askQty else askQty[o.level := askQty[o.level] + o.remaining],
                after.ledger, o.reference + 1)
  {
    hide Exact, Within, Lists, Counts, OnLevels, LevelPrice, AllPositive, Resting, RoomFor, Narrow;
    var order := Order(o.bid, LevelPrice(o.bid, o.level), o.remaining);
    ListsAdd(live, l.orders, o.reference, o);
    ListsOnLevels(live, l.orders, o.reference);
    RoomForLevel(l.SideOf(o.bid), l.orders, o.bid, o.level);
    ListsSize(live, l.orders, o.reference);
    RoomForShares(live, l, o.reference, o.bid, order.price, o.remaining);
    AddKeeps(l, o.reference, o.bid, order.price, o.remaining, ORDER_CAPACITY);
    CountsSize(bidQty, l.orders, true);
    CountsSize(askQty, l.orders, false);
    CountsAdd(bidQty, l.orders, true, o.reference, order, o.level);
    CountsAdd(askQty, l.orders, false, o.reference, order, o.level);
  }

  lemma ListsSize(live: seq<Live>, orders: map<int, Order>, next: nat)
    requires Lists(live, orders, next)
    ensures |live| == |orders|
  {
  }

  lemma CountsSize(qty: seq<int>, orders: map<int, Order>, bid: bool)
    requires Counts(qty, orders, bid)
    ensures |qty| == PRICE_LEVELS
  {
  }

  /** The list after a reduction: the order shrinks, or the last one takes its place. */
  function Shrunk(live: seq<Live>, index: nat, shares: int): seq<Live>
    requires index < |live|
  {
    var o := live[index].(remaining := live[index].remaining - shares);
    if o.remaining == 0 then live[index := live[|live| - 1]][..|live| - 1] else live[index := o]
  }

  lemma ListsShrunk(live: seq<Live>, orders: map<int, Order>, next: nat, index: nat, shares: int)
    requires Lists(live, orders, next) && index < |live| && 0 < shares <= live[index].remaining
    ensures OrderAt(orders, live[index], next)
    ensures Lists(Shrunk(live, index, shares), SharesTaken(orders, live[index].reference, shares), next)
  {
    assert OrderAt(orders, live[index], next);
    hide Lists, LevelPrice;
    if shares < live[index].remaining {
      ListsPart(live, orders, next, index, shares);
    } else {
      ListsWhole(live, orders, next, index);
    }
  }

  lemma TracksReduce(live: seq<Live>, bidQty: seq<int>, askQty: seq<int>, l: Ledger, next: nat, index: nat, shares: int)
    requires Tracks(live, bidQty, askQty, l, next) && index < |live| && 0 < shares <= live[index].remaining
    ensures var o := live[index];
      var after := ReduceOrder(l, o.reference, shares);
      && after.ok && o.level < PRICE_LEVELS && |bidQty| == |askQty| == PRICE_LEVELS
      && Tracks(Shrunk(live, index, shares),
                if o.bid then bidQty[o.level := bidQty[o.level] - shares] else bidQty,
                if o.bid then askQty else askQty[o.level := askQty[o.level] - shares],
                after.ledger, next)
  {
    hide Exact, Within, Lists, Counts, OnLevels, LevelPrice, AllPositive, Resting, Narrow;
    var o := live[index];
    ListsShrunk(live, l.orders, next, index, shares);
    ReduceInRegister(l, o.reference, shares);
    ReduceKeeps(l, o.reference, shares);
    CountsSize(bidQty, l.orders, true);
    CountsSize(askQty, l.orders, false);
    CountsTake(bidQty, l.orders, true, o.reference, shares, o.level);
    CountsTake(askQty, l.orders, false, o.reference, shares, o.level);
  }

  /** Level k is the first with a quantity; k is the number of levels if there is none. */
  predicate FirstLevel(qty: seq<int>, k: nat)
  {
    k <= |qty| && (forall v :: 0 <= v < k ==> qty[v] <= 0) && (k < |qty| ==> 0 < qty[k])
  }

  /** The first level with a quantity is the best one. */
  lemma FirstIsBest(side: Side, orders: map<int, Order>, bid: bool, qty: seq<int>, k: nat)
    requires AllPositive(orders) && Exact(side, orders, bid) && OnLevels(orders) && Counts(qty, orders, bid)
    requires FirstLevel(qty, k)
    ensures Best(side, bid) == if k < PRICE_LEVELS then Cell(true, LevelPrice(bid, k), qty[k]) else EMPTY_LEVEL
  {
    hide Resting;
    forall p | p in side
      ensures k < PRICE_LEVELS && if bid then p <= LevelPrice(bid, k) else LevelPrice(bid, k) <= p
    {
      RestingPositive(orders, bid, p);
      var r :| r in orders && orders[r].bid == bid && orders[r].price == p;
      var v :| 0 <= v < PRICE_LEVELS && orders[r].price == LevelPrice(orders[r].bid, v);
      assert 0 < qty[v];
    }
    if k < PRICE_LEVELS {
      var best := Cell(true, LevelPrice(bid, k), qty[k]);
      assert best.key in side;
      BestIsUnique(side, bid, best, Best(side, bid));
    } else {
      EmptyOrInhabited(side);
    }
  }

  lemma TracksQuote(live: seq<Live>, bidQty: seq<int>, askQty: seq<int>, l: Ledger, next: nat, b: nat, a: nat)
    requires Tracks(live, bidQty, askQty, l, next) && FirstLevel(bidQty, b) && FirstLevel(askQty, a)
    ensures |bidQty| == |askQty| == PRICE_LEVELS
    ensures QuoteOf(l, EMPTY_ASK) ==
      BookQuote(if b < PRICE_LEVELS then LevelPrice(true, b) else 0, if b < PRICE_LEVELS then bidQty[b] else 0,
                if a < PRICE_LEVELS then LevelPrice(false, a) else EMPTY_ASK, if a < PRICE_LEVELS then askQty[a] else 0)
  {
    hide Exact, Within, Lists, OnLevels, LevelPrice, AllPositive, Resting;
    ListsOnLevels(live, l.orders, next);
    FirstIsBest(l.bids, l.orders, true, bidQty, b);
    FirstIsBest(l.asks, l.orders, false, askQty, a);
  }

  lemma TracksLive(live: seq<Live>, bidQty: seq<int>, askQty: seq<int>, l: Ledger, next: nat, index: nat)
    requires Tracks(live, bidQty, askQty, l, next) && index < |live|
    ensures live[index].reference < next && live[index].level < PRICE_LEVELS && 0 < live[index].remaining <= 500
  {
    assert OrderAt(l.orders, live[index], next);
  }

  lemma TracksLater(live: seq<Live>, bidQty: seq<int>, askQty: seq<int>, l: Ledger, next: nat)
    requires Tracks(live, bidQty, askQty, l, next)
    ensures Tracks(live, bidQty, askQty, l, next + 1)
  {
    hide Sound, Counts;
    forall j | 0 <= j < |live| ensures OrderAt(l.orders, live[j], next + 1) {
      assert OrderAt(l.orders, live[j], next);
    }
  }

  lemma TracksSize(live: seq<Live>, bidQty: seq<int>, askQty: seq<int>, l: Ledger, next: nat)
    requires Tracks(live, bidQty, askQty, l, next)
    ensures l.overflow == 0 && |l.orders| == |live|
  {
  }

  lemma TracksNothing()
    ensures Tracks([], [0, 0, 0, 0, 0], [0, 0, 0, 0, 0], EMPTY, 1000)
  {
    NothingRests();
  }

  /** Nothing rests anywhere that comes near the width of a register. */
  ghost predicate LightTotals(orders: map<int, Order>)
  {
    forall bid, p :: Resting(orders, bid, p) <= 50000
  }

  lemma TracksLight(live: seq<Live>, bidQty: seq<int>, askQty: seq<int>, l: Ledger, next: nat)
    requires Tracks(live, bidQty, askQty, l, next) && |live| <= 100
    ensures LightTotals(l.orders)
  {
    hide Lists, Resting;
    forall bid, p ensures Resting(l.orders, bid, p) <= 50000 {
      ListsLight(live, l.orders, next, bid, p);
    }
  }
}
