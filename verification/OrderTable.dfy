/** The fixed-capacity order-reference table of include/modules/order_table.hpp: a linear search
    over an array of entries, refining a map bounded by the capacity. */
module OrderTables {
  import opened SlotMaps
  import opened Words

  datatype Order = Order(bid: bool, price: int, remaining: int)

  type Entry = Cell<Order>

  const EMPTY_ENTRY: Entry := Cell(false, 0, Order(false, 0, 0))

  class OrderTable {
    const entries: array<Entry>

    ghost predicate Valid()
      reads entries
    {
      Distinct(entries[..])
    }

    /** The live orders by reference. */
    ghost function Orders(): map<int, Order>
      reads entries
    {
      ToMap(entries[..])
    }

    constructor (capacity: nat)
      ensures Valid() && fresh(entries) && entries.Length == capacity && Orders() == map[]
    {
      entries := new Entry[capacity](_ => EMPTY_ENTRY);
      new;
      AllDead(entries[..]);
    }

    /** Refused exactly when the reference is already live or every entry is taken. */
    method Insert(reference: int, bid: bool, price: int, shares: int) returns (ok: bool)
      requires Valid()
      modifies entries
      ensures Valid()
      ensures ok == (reference !in old(Orders()) && |old(Orders())| < entries.Length)
      ensures Orders() == if ok then old(Orders())[reference := Order(bid, price, shares)] else old(Orders())
    {
      var freeSlot := -1;
      CellsBound(entries[..]);
      for i := 0 to entries.Length
        invariant -1 <= freeSlot < i
        invariant 0 <= freeSlot ==> !entries[freeSlot].live
        invariant freeSlot == -1 ==> forall j :: 0 <= j < i ==> entries[j].live
        invariant forall j :: 0 <= j < i && entries[j].live ==> entries[j].key != reference
      {
        if entries[i].live && entries[i].key == reference {
          Lookup(entries[..], i);
          return false;
        }
        if !entries[i].live && freeSlot == -1 {
          freeSlot := i;
        }
      }
      if freeSlot == -1 {
        return false;
      }
      Absent(entries[..], reference);
      PutCell(entries[..], freeSlot, reference, Order(bid, price, shares));
      ghost var was := entries[..];
      entries[freeSlot] := Cell(true, reference, Order(bid, price, shares));
      assert entries[..] == was[freeSlot := Cell(true, reference, Order(bid, price, shares))];
      return true;
    }

    /** Takes up to `shares` from a live order, and frees its entry once nothing remains. */
    method Reduce(reference: int, shares: int) returns (ok: bool, bid: bool, price: int, applied: int)
      requires Valid()
      modifies entries
      ensures Valid()
      ensures ok == (reference in old(Orders()))
      ensures !ok ==> Orders() == old(Orders()) && !bid && price == 0 && applied == 0
      ensures ok ==>
        var order := old(Orders())[reference];
        && bid == order.bid
        && price == order.price
        && applied == Min(shares, order.remaining)
        && Orders() == TakeShares(old(Orders()), reference, applied)
    {
      for i := 0 to entries.Length
        invariant forall j :: 0 <= j < i && entries[j].live ==> entries[j].key != reference
      {
        var e := entries[i];
        if e.live && e.key == reference {
          Lookup(entries[..], i);
          bid, price := e.value.bid, e.value.price;
          applied := if shares < e.value.remaining then shares else e.value.remaining;
          ghost var was := entries[..];
          var left := e.value.(remaining := ToInt32(e.value.remaining - applied));
          if left.remaining <= 0 {
            ClearCell(entries[..], i, EMPTY_ENTRY);
            entries[i] := EMPTY_ENTRY;
            assert entries[..] == was[i := EMPTY_ENTRY];
          } else {
            PutCell(entries[..], i, reference, left);
            entries[i] := Cell(true, reference, left);
            assert entries[..] == was[i := Cell(true, reference, left)];
          }
          return true, bid, price, applied;
        }
      }
      Absent(entries[..], reference);
      return false, false, 0, 0;
    }
  }

  /** The live orders after `applied` shares of one of them are gone. */
  function TakeShares(orders: map<int, Order>, reference: int, applied: int): map<int, Order>
    requires reference in orders
  {
    var left := ToInt32(orders[reference].remaining - applied);
    if left <= 0 then orders - {reference} else orders[reference := orders[reference].(remaining := left)]
  }
}
