/** The full-depth book that tools/itch_analysis.hpp keeps for one stock. */
module RealBooks {
  import opened Words
  import opened SlotMaps
  import opened OrderTables
  import opened OrderBooks
  import opened Parser
  import opened Ledgers
  import opened RestingOrders
  import Walkers

  /** Every price level, every resting order, and how many messages named an order not resting. */
  datatype Depth = Depth(orders: map<int, Order>, bids: Side, asks: Side, unknownRefs: nat) {
    function SideOf(bid: bool): Side
    {
      if bid then bids else asks
    }

    function WithSide(bid: bool, side: Side): Depth
    {
      if bid then this.(bids := side) else this.(asks := side)
    }
  }

  const NO_DEPTH: Depth := Depth(map[], map[], map[], 0)

  function Deepen(side: Side, price: int, shares: int): Side
  {
    side[price := (if price in side then side[price] else 0) + shares]
  }

  function Added(d: Depth, reference: int, bid: bool, price: int, shares: int): Depth
  {
    d.WithSide(bid, Deepen(d.SideOf(bid), price, shares)).(orders := d.orders[reference := Order(bid, price, shares)])
  }

  function Reduced(d: Depth, reference: int, shares: int): Depth
  {
    if reference !in d.orders then d.(unknownRefs := d.unknownRefs + 1)
    else
      var o := d.orders[reference];
      var n := Min(shares, o.remaining);
      d.WithSide(o.bid, Taken(d.SideOf(o.bid), o.price, n)).(orders := SharesTaken(d.orders, reference, n))
  }

  function Removed(d: Depth, reference: int): Depth
  {
    if reference !in d.orders then d.(unknownRefs := d.unknownRefs + 1)
    else
      var o := d.orders[reference];
      d.WithSide(o.bid, Taken(d.SideOf(o.bid), o.price, o.remaining)).(orders := d.orders - {reference})
  }

  function EventApplied(d: Depth, e: Event): Depth
  {
    match e.kind
    case Add | AddMpid => Added(d, e.orderReference, e.side == SIDE_B, e.price, e.shares)
    case Executed | ExecutedPrice | Cancel => Reduced(d, e.orderReference, e.shares)
    case DeleteOrder => Removed(d, e.orderReference)
    case Replace =>
      if e.orderReference !in d.orders then d.(unknownRefs := d.unknownRefs + 1)
      else Added(Removed(d, e.orderReference), e.newReference, d.orders[e.orderReference].bid, e.price, e.shares)
    case Unknown => d
  }

  /** Messages that do not touch the displayed book are ignored. */
  function MessageApplied(d: Depth, m: seq<byte>): Depth
  {
    if Supported(m) then EventApplied(d, EventOf(m)) else d
  }

  class RealBook {
    var bids: Side
    var asks: Side
    var orders: map<int, Order>
    var unknownRefs: nat

    ghost function Contents(): Depth
      reads this
    {
      Depth(orders, bids, asks, unknownRefs)
    }

    constructor ()
      ensures Contents() == NO_DEPTH
    {
      bids, asks, orders, unknownRefs := map[], map[], map[], 0;
    }

    method Add(reference: int, bid: bool, price: int, shares: int)
      modifies this
      ensures Contents() == Added(old(Contents()), reference, bid, price, shares)
    {
      orders := orders[reference := Order(bid, price, shares)];
      if bid {
        bids := bids[price := (if price in bids then bids[price] else 0) + shares];
      } else {
        asks := asks[price := (if price in asks then asks[price] else 0) + shares];
      }
    }

    method Take(o: Order, n: int)
      modifies this`bids, this`asks
      ensures bids == if o.bid then Taken(old(bids), o.price, n) else old(bids)
      ensures asks == if o.bid then old(asks) else Taken(old(asks), o.price, n)
    {
      var side := if o.bid then bids else asks;
      if o.price !in side {
        return;
      }
      var left := side[o.price] - n;
      side := if left <= 0 then side - {o.price} else side[o.price := left];
      if o.bid {
        bids := side;
      } else {
        asks := side;
      }
    }

    method Reduce(reference: int, shares: int)
      modifies this
      ensures Contents() == Reduced(old(Contents()), reference, shares)
    {
      if reference !in orders {
        unknownRefs := unknownRefs + 1;
        return;
      }
      var o := orders[reference];
      var n := if shares < o.remaining then shares else o.remaining;
      Take(o, n);
      o := o.(remaining := o.remaining - n);
      orders := if o.remaining <= 0 then orders - {reference} else orders[reference := o];
    }

    method Remove(reference: int)
      modifies this
      ensures Contents() == Removed(old(Contents()), reference)
    {
      if reference !in orders {
        unknownRefs := unknownRefs + 1;
        return;
      }
      Take(orders[reference], orders[reference].remaining);
      orders := orders - {reference};
    }

    /** Applies a message that the walker has framed; `changed` is false for types it ignores. */
    method Apply(m: seq<byte>) returns (changed: bool)
      requires Walkers.SpecMessage(m)
      modifies this
      ensures changed == Supported(m)
      ensures Contents() == MessageApplied(old(Contents()), m)
    {
      if m[0] == TYPE_A || m[0] == TYPE_F {
        var reference := ReadBigEndian(m[11..19]);
        var price := ReadBigEndian(m[32..36]);
        var shares := ReadBigEndian(m[20..24]);
        Add(reference, m[19] == SIDE_B, price, shares);
        return true;
      } else if m[0] == TYPE_E || m[0] == TYPE_C || m[0] == TYPE_X {
        var reference := ReadBigEndian(m[11..19]);
        var shares := ReadBigEndian(m[19..23]);
        Reduce(reference, shares);
        return true;
      } else if m[0] == TYPE_D {
        var reference := ReadBigEndian(m[11..19]);
        Remove(reference);
        return true;
      } else if m[0] == TYPE_U {
        var reference := ReadBigEndian(m[11..19]);
        if reference !in orders {
          unknownRefs := unknownRefs + 1;
          return true;
        }
        var bid := orders[reference].bid;
        Remove(reference);
        var newReference := ReadBigEndian(m[19..27]);
        var price := ReadBigEndian(m[31..35]);
        var shares := ReadBigEndian(m[27..31]);
        Add(newReference, bid, price, shares);
        return true;
      }
      return false;
    }

    method BestBid() returns (found: bool, price: int)
      ensures found == (bids != map[])
      ensures found ==> price == Best(bids, true).key
    {
      if bids == map[] {
        return false, 0;
      }
      BestExists(bids, true);
      price :| price in bids && forall p :: p in bids ==> p <= price;
      found := true;
      BestIsUnique(bids, true, Cell(true, price, bids[price]), Best(bids, true));
    }

    method BestAsk() returns (found: bool, price: int)
      ensures found == (asks != map[])
      ensures found ==> price == Best(asks, false).key
    {
      if asks == map[] {
        return false, 0;
      }
      BestExists(asks, false);
      price :| price in asks && forall p :: p in asks ==> price <= p;
      found := true;
      BestIsUnique(asks, false, Cell(true, price, asks[price]), Best(asks, false));
    }
  }

  // ---- the levels are the sums of the resting orders ----

  ghost predicate DepthSound(d: Depth)
  {
    AllPositive(d.orders) && Exact(d.bids, d.orders, true) && Exact(d.asks, d.orders, false)
  }

  lemma DeepenedSide(side: Side, orders: map<int, Order>, bid: bool, r: int, o: Order)
    requires AllPositive(orders) && r !in orders && 0 < o.remaining && Exact(side, orders, bid)
    ensures Exact(if o.bid == bid then Deepen(side, o.price, o.remaining) else side, orders[r := o], bid)
  {
    hide Resting;
    RestingAdded(orders, bid, r, o);
  }

  lemma AddedSound(d: Depth, r: int, o: Order)
    requires DepthSound(d) && r !in d.orders && 0 < o.remaining
    ensures DepthSound(Added(d, r, o.bid, o.price, o.remaining))
  {
    hide Exact;
    DeepenedSide(d.bids, d.orders, true, r, o);
    DeepenedSide(d.asks, d.orders, false, r, o);
  }

  lemma TakenSound(d: Depth, r: int, n: int)
    requires DepthSound(d) && r in d.orders && 0 <= n <= d.orders[r].remaining
    ensures var o := d.orders[r];
      DepthSound(d.WithSide(o.bid, Taken(d.SideOf(o.bid), o.price, n)).(orders := SharesTaken(d.orders, r, n)))
  {
    TakenSide(d.bids, d.orders, true, r, n);
    TakenSide(d.asks, d.orders, false, r, n);
  }

  lemma RemovedSound(d: Depth, r: int)
    requires DepthSound(d)
    ensures DepthSound(Removed(d, r))
  {
    if r in d.orders {
      TakenSound(d, r, d.orders[r].remaining);
    }
  }

  /** Adding under a reference that still rests overwrites its order and leaves its shares in the level. */
  lemma OverwrittenUnsound(d: Depth, r: int, o: Order)
    requires DepthSound(d) && r in d.orders
    ensures !DepthSound(Added(d, r, o.bid, o.price, o.remaining))
  {
    var was := d.orders[r];
    RestingPut(d.orders, r, o, was.bid, was.price);
    RestingBounds(d.orders, was.bid, was.price);
    var after := Added(d, r, o.bid, o.price, o.remaining);
    assert was.price in d.SideOf(was.bid) && was.price in after.SideOf(was.bid);
    assert after.SideOf(was.bid)[was.price] == d.SideOf(was.bid)[was.price] + SharesAt(o, was.bid, was.price);
  }

  /** The reference that the event adds is not resting when it is added. */
  predicate AddsFresh(d: Depth, e: Event)
  {
    match e.kind
    case Add | AddMpid => e.orderReference !in d.orders
    case Replace => e.orderReference !in d.orders || e.newReference == e.orderReference || e.newReference !in d.orders
    case _ => true
  }

  /** With positive shares, the levels stay the sums of the resting orders exactly when no resting
      reference is added again. */
  lemma SoundIffFresh(d: Depth, e: Event)
    requires DepthSound(d)
    requires e.kind == Add || e.kind == AddMpid || e.kind == Replace ==> 1 <= e.shares
    ensures DepthSound(EventApplied(d, e)) <==> AddsFresh(d, e)
  {
    hide DepthSound;
    match e.kind {
      case Add | AddMpid =>
        AddStep(d, e.orderReference, Order(e.side == SIDE_B, e.price, e.shares));
      case Executed | ExecutedPrice | Cancel =>
        ReducedSound(d, e.orderReference, e.shares);
      case DeleteOrder =>
        RemovedSound(d, e.orderReference);
      case Replace =>
        if e.orderReference in d.orders {
          RemovedSound(d, e.orderReference);
          AddStep(Removed(d, e.orderReference), e.newReference, Order(d.orders[e.orderReference].bid, e.price, e.shares));
        } else {
          UnknownSound(d);
        }
      case Unknown => {}
    }
  }

  lemma AddStep(d: Depth, r: int, o: Order)
    requires DepthSound(d) && 0 < o.remaining
    ensures DepthSound(Added(d, r, o.bid, o.price, o.remaining)) <==> r !in d.orders
  {
    hide DepthSound;
    if r in d.orders {
      OverwrittenUnsound(d, r, o);
    } else {
      AddedSound(d, r, o);
    }
  }

  lemma UnknownSound(d: Depth)
    requires DepthSound(d)
    ensures DepthSound(d.(unknownRefs := d.unknownRefs + 1))
  {
  }

  lemma ReducedSound(d: Depth, r: int, shares: nat)
    requires DepthSound(d)
    ensures DepthSound(Reduced(d, r, shares))
  {
    if r in d.orders {
      TakenSound(d, r, Min(shares, d.orders[r].remaining));
    }
  }

  /** An example: the same reference added twice. */
  lemma OverwriteExample()
    ensures var once := Added(NO_DEPTH, 1, true, 100, 5);
      && DepthSound(once)
      && !DepthSound(Added(once, 1, true, 100, 5))
      && Added(once, 1, true, 100, 5).bids[100] == 10 && Added(once, 1, true, 100, 5).orders[1].remaining == 5
  {
    AddedSound(NO_DEPTH, 1, Order(true, 100, 5));
    OverwrittenUnsound(Added(NO_DEPTH, 1, true, 100, 5), 1, Order(true, 100, 5));
  }

  // ---- when a message changes the book ----

  predicate SameBook(a: Depth, b: Depth)
  {
    a.orders == b.orders && a.bids == b.bids && a.asks == b.asks
  }

  /** An unknown reference, no shares to take, or an order replaced by itself. */
  predicate NoEffect(d: Depth, e: Event)
  {
    match e.kind
    case Add | AddMpid => false
    case Executed | ExecutedPrice | Cancel => e.orderReference !in d.orders || e.shares == 0
    case DeleteOrder => e.orderReference !in d.orders
    case Replace =>
      e.orderReference in d.orders ==>
        var o := d.orders[e.orderReference];
        e.newReference == e.orderReference && e.price == o.price && e.shares == o.remaining
    case Unknown => true
  }

  lemma AddChanges(d: Depth, r: int, o: Order)
    requires DepthSound(d) && 0 < o.remaining
    ensures !SameBook(d, Added(d, r, o.bid, o.price, o.remaining))
  {
    assert LevelOf(Added(d, r, o.bid, o.price, o.remaining).SideOf(o.bid), o.price)
      == LevelOf(d.SideOf(o.bid), o.price) + o.remaining;
  }

  lemma ReduceChanges(d: Depth, r: int, shares: nat)
    requires DepthSound(d) && r in d.orders
    ensures SameBook(d, Reduced(d, r, shares)) <==> shares == 0
  {
    var o := d.orders[r];
    RestingBounds(d.orders, o.bid, o.price);
    if shares == 0 {
      assert o.price in d.SideOf(o.bid);
    }
  }

  /** Removing an order and putting the same one back restores its level. */
  lemma ReplaceChanges(d: Depth, r: int, q: int, price: int, shares: int)
    requires DepthSound(d) && r in d.orders && 0 < shares
    ensures SameBook(d, Added(Removed(d, r), q, d.orders[r].bid, price, shares))
      <==> q == r && price == d.orders[r].price && shares == d.orders[r].remaining
  {
    var o := d.orders[r];
    var after := Added(Removed(d, r), q, o.bid, price, shares);
    RestingBounds(d.orders, o.bid, o.price);
    assert o.price in d.SideOf(o.bid) && o.remaining <= d.SideOf(o.bid)[o.price];
    if q == r && price == o.price && shares == o.remaining {
      assert after.orders == d.orders;
      assert after.SideOf(o.bid) == d.SideOf(o.bid);
    } else if q != r {
      assert r !in after.orders;
    } else {
      assert after.orders[r] == Order(o.bid, price, shares);
    }
  }

  /** The orders and both sides stay as they are exactly in those cases, though the book reports every
      supported message as a change. */
  lemma UnchangedIff(d: Depth, e: Event)
    requires DepthSound(d)
    requires e.kind == Add || e.kind == AddMpid || e.kind == Replace ==> 1 <= e.shares
    ensures SameBook(d, EventApplied(d, e)) <==> NoEffect(d, e)
  {
    hide DepthSound, Added, Removed;
    match e.kind {
      case Add | AddMpid =>
        AddChanges(d, e.orderReference, Order(e.side == SIDE_B, e.price, e.shares));
      case Executed | ExecutedPrice | Cancel =>
        if e.orderReference in d.orders {
          ReduceChanges(d, e.orderReference, e.shares);
        }
      case DeleteOrder =>
        RemoveChanges(d, e.orderReference);
      case Replace =>
        if e.orderReference in d.orders {
          ReplaceChanges(d, e.orderReference, e.newReference, e.price, e.shares);
        }
      case Unknown => {}
    }
  }

  lemma RemoveChanges(d: Depth, r: int)
    ensures SameBook(d, Removed(d, r)) <==> r !in d.orders
  {
  }

  /** A deletion of an order that is not there: a supported message, and the same book. */
  lemma UnknownDeleteExample()
    ensures var e := Event(DeleteOrder, 7, 0, 0, 0, 0, NO_STOCK);
      && WellFormed(e) && Supported(Serialise(e, Zeros(10), []))
      && SameBook(NO_DEPTH, MessageApplied(NO_DEPTH, Serialise(e, Zeros(10), [])))
      && MessageApplied(NO_DEPTH, Serialise(e, Zeros(10), [])).unknownRefs == 1
  {
    hide EventOf, Serialise, Supported;
    var e := Event(DeleteOrder, 7, 0, 0, 0, 0, NO_STOCK);
    ByteWidths();
    SerialiseRoundTrip(e, Zeros(10), []);
  }

  // ---- over a sequence of messages ----

  /** The book after the first k messages. */
  function DepthAfter(messages: seq<seq<byte>>, k: nat): Depth
    requires k <= |messages|
  {
    if k == 0 then NO_DEPTH else MessageApplied(DepthAfter(messages, k - 1), messages[k - 1])
  }

  /** Each message that adds shares adds some, under a reference not resting then. */
  ghost predicate FreshAndPositive(messages: seq<seq<byte>>, k: nat)
    requires k <= |messages|
  {
    forall i :: 0 <= i < k && Supported(messages[i]) ==>
      var e := EventOf(messages[i]);
      && AddsFresh(DepthAfter(messages, i), e)
      && (e.kind == Add || e.kind == AddMpid || e.kind == Replace ==> 1 <= e.shares)
  }

  /** Through every such sequence each level is the sum of its resting orders, and the best prices
      are the extreme ones at which orders rest. */
  lemma {:induction false} DepthIsSum(messages: seq<seq<byte>>, k: nat)
    requires k <= |messages| && FreshAndPositive(messages, k)
    ensures DepthSound(DepthAfter(messages, k))
  {
    hide DepthSound, EventOf, EventApplied, AddsFresh, Supported;
    EmptySound();
    if k > 0 {
      DepthIsSum(messages, k - 1);
      if Supported(messages[k - 1]) {
        SoundIffFresh(DepthAfter(messages, k - 1), EventOf(messages[k - 1]));
      }
    }
  }

  /** The message is an execution, cancellation, deletion or replacement of an order that is not resting. */
  predicate NamesUnknown(d: Depth, m: seq<byte>)
  {
    && Supported(m) && EventOf(m).kind != Add && EventOf(m).kind != AddMpid
    && EventOf(m).orderReference !in d.orders
  }

  /** How many of the first k messages did so when they came. */
  function UnknownAmong(messages: seq<seq<byte>>, k: nat): nat
    requires k <= |messages|
  {
    if k == 0 then 0
    else UnknownAmong(messages, k - 1) + if NamesUnknown(DepthAfter(messages, k - 1), messages[k - 1]) then 1 else 0
  }

  /** That is what the book counts, and such messages change nothing else. */
  lemma {:induction false} UnknownCounted(messages: seq<seq<byte>>, k: nat)
    requires k <= |messages|
    ensures DepthAfter(messages, k).unknownRefs == UnknownAmong(messages, k)
    ensures k < |messages| && NamesUnknown(DepthAfter(messages, k), messages[k]) ==>
      SameBook(DepthAfter(messages, k), DepthAfter(messages, k + 1))
  {
    hide Supported, EventOf, Added, Taken, SharesTaken;
    if k > 0 {
      UnknownCounted(messages, k - 1);
      UnknownStep(DepthAfter(messages, k - 1), messages[k - 1]);
    }
    if k < |messages| {
      UnknownStep(DepthAfter(messages, k), messages[k]);
    }
  }

  lemma UnknownStep(d: Depth, m: seq<byte>)
    ensures MessageApplied(d, m).unknownRefs == d.unknownRefs + if NamesUnknown(d, m) then 1 else 0
    ensures NamesUnknown(d, m) ==> SameBook(d, MessageApplied(d, m))
  {
    hide Supported;
    if Supported(m) {
      EventIsKnown(m);
    }
  }

  lemma EventIsKnown(m: seq<byte>)
    requires Supported(m)
    ensures EventOf(m).kind != Unknown
  {
  }

  lemma EmptySound()
    ensures DepthSound(NO_DEPTH)
  {
  }

  lemma BestIsResting(d: Depth, bid: bool)
    requires DepthSound(d)
    ensures NoneOn(d.orders, bid) <==> d.SideOf(bid) == map[]
    ensures d.SideOf(bid) != map[] ==> Extreme(d.orders, bid, Best(d.SideOf(bid), bid).key)
  {
    BestIsExtreme(d.SideOf(bid), d.orders, bid);
  }
}
