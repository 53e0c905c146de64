/** The five-level aggregate book of include/modules/order_book.hpp: two unsorted arrays of
    price levels, each refining a map from price to quantity with at most five prices. */
module OrderBooks {
  import opened SlotMaps
  import opened Words

  const LEVELS: nat := 5

  type Level = Cell<int>

  const EMPTY_LEVEL: Level := Cell(false, 0, 0)

  /** A side of the book: quantity by price. The sums are those of 32-bit registers. */
  type Side = map<int, int>

  function AddTo(side: Side, price: int, quantity: int): Side
  {
    if price in side then side[price := ToInt32(side[price] + quantity)]
    else if |side| < LEVELS then side[price := quantity]
    else side
  }

  predicate Overflows(side: Side, price: int)
  {
    price !in side && LEVELS <= |side|
  }

  function TakeFrom(side: Side, price: int, quantity: int): Side
  {
    if price !in side then side
    else
      var left := ToInt32(side[price] - quantity);
      if left <= 0 then side - {price} else side[price := left]
  }

  /** The best level of a side: the highest price if `high`, otherwise the lowest. */
  ghost predicate IsBest(side: Side, high: bool, level: Level)
  {
    if side == map[] then level == EMPTY_LEVEL
    else
      && level.live
      && level.key in side
      && level.value == side[level.key]
      && forall p :: p in side ==> if high then p <= level.key else level.key <= p
  }

  lemma BestIsUnique(side: Side, high: bool, a: Level, b: Level)
    requires IsBest(side, high, a) && IsBest(side, high, b)
    ensures a == b
  {
  }

  ghost function Best(side: Side, high: bool): (level: Level)
    ensures IsBest(side, high, level)
  {
    if side == map[] then EMPTY_LEVEL
    else
      BestExists(side, high);
      var level :| IsBest(side, high, level);
      level
  }

  lemma {:induction false} BestExists(side: Side, high: bool)
    ensures exists level :: IsBest(side, high, level)
    decreases |side|
  {
    if side == map[] {
      assert IsBest(side, high, EMPTY_LEVEL);
    } else {
      EmptyOrInhabited(side);
      var p :| p in side;
      var rest := side - {p};
      assert side.Keys == rest.Keys + {p};
      BestExists(rest, high);
      var b :| IsBest(rest, high, b);
      if rest == map[] || (if high then b.key <= p else p <= b.key) {
        assert IsBest(side, high, Cell(true, p, side[p]));
      } else {
        assert forall q :: q in side ==> q == p || q in rest;
        assert IsBest(side, high, b);
      }
    }
  }

  class FiveLevelOrderBook {
    const bids: array<Level>
    const asks: array<Level>
    var overflowCount: nat

    ghost predicate Valid()
      reads bids, asks
    {
      && bids != asks
      && bids.Length == asks.Length == LEVELS
      && Distinct(bids[..])
      && Distinct(asks[..])
    }

    ghost function Levels(bid: bool): Side
      reads bids, asks
    {
      ToMap(if bid then bids[..] else asks[..])
    }

    constructor ()
      ensures Valid() && fresh(bids) && fresh(asks)
      ensures Levels(true) == Levels(false) == map[] && overflowCount == 0
    {
      bids := new Level[LEVELS](_ => EMPTY_LEVEL);
      asks := new Level[LEVELS](_ => EMPTY_LEVEL);
      overflowCount := 0;
      new;
      AllDead(bids[..]);
      AllDead(asks[..]);
    }

    method Add(bid: bool, price: int, quantity: int)
      requires Valid()
      modifies this, bids, asks
      ensures Valid()
      ensures Levels(bid) == AddTo(old(Levels(bid)), price, quantity)
      ensures Levels(!bid) == old(Levels(!bid))
      ensures overflowCount == old(overflowCount) + if Overflows(old(Levels(bid)), price) then 1 else 0
    {
      var side := if bid then bids else asks;
      ghost var was := side[..];
      CellsBound(was);
      for i := 0 to side.Length
        invariant forall j :: 0 <= j < i && side[j].live ==> side[j].key != price
      {
        if side[i].live && side[i].key == price {
          Lookup(was, i);
          var sum := ToInt32(side[i].value + quantity);
          PutCell(was, i, price, sum);
          side[i] := Cell(true, price, sum);
          assert side[..] == was[i := side[i]];
          return;
        }
      }
      Absent(was, price);
      for i := 0 to side.Length
        invariant forall j :: 0 <= j < i ==> side[j].live
      {
        if !side[i].live {
          PutCell(was, i, price, quantity);
          side[i] := Cell(true, price, quantity);
          assert side[..] == was[i := side[i]];
          return;
        }
      }
      overflowCount := overflowCount + 1;
    }

    method Execute(bid: bool, price: int, quantity: int)
      requires Valid()
      modifies bids, asks
      ensures Valid()
      ensures Levels(bid) == TakeFrom(old(Levels(bid)), price, quantity)
      ensures Levels(!bid) == old(Levels(!bid))
    {
      var side := if bid then bids else asks;
      ghost var was := side[..];
      for i := 0 to side.Length
        invariant forall j :: 0 <= j < i && side[j].live ==> side[j].key != price
      {
        if side[i].live && side[i].key == price {
          Lookup(was, i);
          var left := ToInt32(side[i].value - quantity);
          if left <= 0 {
            ClearCell(was, i, EMPTY_LEVEL);
            side[i] := EMPTY_LEVEL;
          } else {
            PutCell(was, i, price, left);
            side[i] := Cell(true, price, left);
          }
          assert side[..] == was[i := side[i]];
          return;
        }
      }
      Absent(was, price);
    }

    method BestBid() returns (best: Level)
      requires Valid()
      ensures best == Best(Levels(true), true)
    {
      best := EMPTY_LEVEL;
      for i := 0 to bids.Length
        invariant BestOf(bids[..i], true, best)
      {
        if bids[i].live && (!best.live || bids[i].key > best.key) {
          best := bids[i];
        }
      }
      assert bids[..bids.Length] == bids[..];
      BestOfCells(bids[..], true, best);
    }

    method BestAsk() returns (best: Level)
      requires Valid()
      ensures best == Best(Levels(false), false)
    {
      best := EMPTY_LEVEL;
      for i := 0 to asks.Length
        invariant BestOf(asks[..i], false, best)
      {
        if asks[i].live && (!best.live || asks[i].key < best.key) {
          best := asks[i];
        }
      }
      assert asks[..asks.Length] == asks[..];
      BestOfCells(asks[..], false, best);
    }
  }

  /** What a scan over the cells `s` has found. */
  ghost predicate BestOf(s: seq<Level>, high: bool, best: Level)
  {
    && (best.live ==> best in s)
    && (!best.live ==> best == EMPTY_LEVEL)
    && forall i :: 0 <= i < |s| && s[i].live ==>
         best.live && if high then s[i].key <= best.key else best.key <= s[i].key
  }

  lemma BestOfCells(s: seq<Level>, high: bool, best: Level)
    requires Distinct(s) && BestOf(s, high, best)
    ensures best == Best(ToMap(s), high)
  {
    var side := ToMap(s);
    if best.live {
      var i :| 0 <= i < |s| && s[i] == best;
      Lookup(s, i);
    }
    forall p | p in side ensures best.live && if high then p <= best.key else best.key <= p {
      var i := Present(s, p);
    }
    BestIsUnique(side, high, best, Best(side, high));
  }
}
