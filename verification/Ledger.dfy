/** What one ITCH event does to the live orders and the aggregate book: the meaning of
    `apply_to_book` in include/pipeline/tick_to_trade.hpp, on maps. */
module Ledgers {
  import opened Ofi
  import opened OrderBooks
  import opened OrderTables
  import opened Parser
  import opened Words

  const SIDE_B: byte := 66

  datatype Ledger = Ledger(orders: map<int, Order>, bids: Side, asks: Side, overflow: nat) {
    function SideOf(bid: bool): Side
    {
      if bid then bids else asks
    }

    function WithSide(bid: bool, side: Side): Ledger
    {
      if bid then this.(bids := side) else this.(asks := side)
    }
  }

  const EMPTY: Ledger := Ledger(map[], map[], map[], 0)

  datatype Applied = Applied(ledger: Ledger, ok: bool)

  /** A new order: refused if its reference is live or the table is full; the book gets the quantity
      either way, as in the source. */
  function AddOrder(l: Ledger, reference: int, bid: bool, price: int, shares: int, capacity: nat): Applied
  {
    var ok := reference !in l.orders && |l.orders| < capacity;
    var side := l.SideOf(bid);
    Applied(l.WithSide(bid, AddTo(side, price, shares))
             .(orders := if ok then l.orders[reference := Order(bid, price, shares)] else l.orders,
               overflow := l.overflow + if Overflows(side, price) then 1 else 0), ok)
  }

  /** Taking up to `shares` from a live order and from its level. */
  function ReduceOrder(l: Ledger, reference: int, shares: int): Applied
  {
    if reference !in l.orders then Applied(l, false)
    else
      var order := l.orders[reference];
      var applied := Min(shares, order.remaining);
      Applied(l.WithSide(order.bid, TakeFrom(l.SideOf(order.bid), order.price, applied))
               .(orders := TakeShares(l.orders, reference, applied)), true)
  }

  function ApplyEvent(l: Ledger, e: Event, capacity: nat): Applied
  {
    match e.kind
    case Add | AddMpid =>
      AddOrder(l, e.orderReference, e.side == SIDE_B, ToInt32(e.price), ToInt32(e.shares), capacity)
    case Executed | ExecutedPrice | Cancel => ReduceOrder(l, e.orderReference, ToInt32(e.shares))
    case DeleteOrder => ReduceOrder(l, e.orderReference, INT32_MAX)
    case Replace =>
      var removed := ReduceOrder(l, e.orderReference, INT32_MAX);
      if !removed.ok then removed
      else
        AddOrder(removed.ledger, e.newReference, l.orders[e.orderReference].bid, ToInt32(e.price), ToInt32(e.shares),
                 capacity)
    case Unknown => Applied(l, false)
  }

  /** The best prices and quantities; an empty side has quantity 0 and a fixed price. */
  ghost function QuoteOf(l: Ledger, emptyAsk: int): BookQuote
  {
    var b, a := Best(l.bids, true), Best(l.asks, false);
    BookQuote(if b.live then b.key else 0, if b.live then b.value else 0,
              if a.live then a.key else emptyAsk, if a.live then a.value else 0)
  }

  /** The table and the book together, as the pipeline holds them. */
  class BookKeeper {
    const orders: OrderTable
    const book: FiveLevelOrderBook
    ghost var contents: Ledger

    ghost predicate Valid()
      reads this, orders, orders.entries, book, book.bids, book.asks
    {
      && orders.Valid() && book.Valid()
      && contents == Ledger(orders.Orders(), book.Levels(true), book.Levels(false), book.overflowCount)
    }

    constructor (capacity: nat)
      ensures Valid() && contents == EMPTY && orders.entries.Length == capacity
      ensures fresh(orders) && fresh(orders.entries) && fresh(book) && fresh(book.bids) && fresh(book.asks)
    {
      orders := new OrderTable(capacity);
      book := new FiveLevelOrderBook();
      contents := EMPTY;
    }

    method Rest(reference: int, bid: bool, price: int, shares: int) returns (ok: bool)
      requires Valid()
      modifies this, orders.entries, book, book.bids, book.asks
      ensures Valid()
      ensures Applied(contents, ok) == AddOrder(old(contents), reference, bid, price, shares, orders.entries.Length)
    {
      ok := orders.Insert(reference, bid, price, shares);
      book.Add(bid, price, shares);
      contents := AddOrder(contents, reference, bid, price, shares, orders.entries.Length).ledger;
    }

    method Withdraw(reference: int, shares: int) returns (ok: bool, bid: bool)
      requires Valid()
      modifies this, orders.entries, book, book.bids, book.asks
      ensures Valid()
      ensures Applied(contents, ok) == ReduceOrder(old(contents), reference, shares)
      ensures ok ==> bid == old(contents).orders[reference].bid
    {
      var price, applied;
      ok, bid, price, applied := orders.Reduce(reference, shares);
      if ok {
        book.Execute(bid, price, applied);
      }
      contents := ReduceOrder(contents, reference, shares).ledger;
    }

    method Quote(emptyAsk: int) returns (quote: BookQuote)
      requires Valid()
      ensures quote == QuoteOf(contents, emptyAsk)
    {
      var b := book.BestBid();
      var a := book.BestAsk();
      quote := BookQuote(if b.live then b.key else 0, if b.live then b.value else 0,
                         if a.live then a.key else emptyAsk, if a.live then a.value else 0);
    }

    method ApplyToBook(e: Event, emptyAsk: int) returns (ok: bool, quote: BookQuote)
      requires Valid()
      modifies this, orders.entries, book, book.bids, book.asks
      ensures Valid()
      ensures Applied(contents, ok) == ApplyEvent(old(contents), e, orders.entries.Length)
      ensures quote == QuoteOf(contents, emptyAsk)
    {
      ok := true;
      var shares := ToInt32(e.shares);
      var bid;
      match e.kind {
        case Add | AddMpid =>
          ok := Rest(e.orderReference, e.side == SIDE_B, ToInt32(e.price), shares);
        case Executed | ExecutedPrice | Cancel =>
          ok, bid := Withdraw(e.orderReference, shares);
        case DeleteOrder =>
          ok, bid := Withdraw(e.orderReference, INT32_MAX);
        case Replace =>
          ok, bid := Withdraw(e.orderReference, INT32_MAX);
          if ok {
            ok := Rest(e.newReference, bid, ToInt32(e.price), shares);
          }
        case Unknown =>
          ok := false;
      }
      quote := Quote(emptyAsk);
    }
  }
}
