/** A fixed array of cells searched linearly, seen as a finite map. Both the order table
    (include/modules/order_table.hpp) and each side of the order book
    (include/modules/order_book.hpp) are such arrays. */
module SlotMaps {

  datatype Cell<V> = Cell(live: bool, key: int, value: V)

  /** No two live cells share a key. */
  ghost predicate Distinct<V>(s: seq<Cell<V>>)
  {
    forall i, j :: 0 <= i < j < |s| && s[i].live && s[j].live ==> s[i].key != s[j].key
  }

  lemma EmptyOrInhabited<V>(m: map<int, V>)
    ensures m == map[] || exists k :: k in m
  {
    if forall k :: k !in m {
      assert m.Keys == {};
    }
  }

  ghost function ToMap<V>(s: seq<Cell<V>>): map<int, V>
  {
    if s == [] then map[]
    else
      var m := ToMap(s[..|s| - 1]);
      var c := s[|s| - 1];
      if c.live then m[c.key := c.value] else m
  }

  lemma {:induction false} Lookup<V>(s: seq<Cell<V>>, i: nat)
    requires Distinct(s) && i < |s| && s[i].live
    ensures s[i].key in ToMap(s) && ToMap(s)[s[i].key] == s[i].value
  {
    var n := |s| - 1;
    if i < n {
      Lookup(s[..n], i);
      assert s[n].live ==> s[n].key != s[i].key;
    }
  }

  lemma {:induction false} Absent<V>(s: seq<Cell<V>>, key: int)
    requires forall i :: 0 <= i < |s| && s[i].live ==> s[i].key != key
    ensures key !in ToMap(s)
  {
    if s != [] {
      Absent(s[..|s| - 1], key);
    }
  }

  lemma {:induction false} AllDead<V>(s: seq<Cell<V>>)
    requires forall i :: 0 <= i < |s| ==> !s[i].live
    ensures ToMap(s) == map[]
  {
    if s != [] {
      AllDead(s[..|s| - 1]);
    }
  }

  lemma {:induction false} Present<V>(s: seq<Cell<V>>, key: int) returns (i: nat)
    requires key in ToMap(s)
    ensures i < |s| && s[i].live && s[i].key == key
  {
    var n := |s| - 1;
    if s[n].live && s[n].key == key {
      i := n;
    } else {
      i := Present(s[..n], key);
    }
  }

  /** The map is never larger than the array, and as large exactly when no cell is dead. */
  lemma {:induction false} CellsBound<V>(s: seq<Cell<V>>)
    requires Distinct(s)
    ensures |ToMap(s)| <= |s|
    ensures |ToMap(s)| == |s| <==> forall i :: 0 <= i < |s| ==> s[i].live
  {
    if s != [] {
      var n := |s| - 1;
      CellsBound(s[..n]);
      if s[n].live {
        Absent(s[..n], s[n].key);
      }
    }
  }

  /** Filling a dead cell with a new key, or rewriting a live cell's value, is a map update. */
  lemma {:induction false} PutCell<V>(s: seq<Cell<V>>, i: nat, key: int, value: V)
    requires Distinct(s) && i < |s|
    requires if s[i].live then s[i].key == key else key !in ToMap(s)
    ensures Distinct(s[i := Cell(true, key, value)])
    ensures ToMap(s[i := Cell(true, key, value)]) == ToMap(s)[key := value]
  {
    var t := s[i := Cell(true, key, value)];
    var n := |s| - 1;
    forall j | 0 <= j < |s| && j != i && s[j].live ensures s[j].key != key {
      if s[j].key == key { Lookup(s, j); }
    }
    if i < n {
      PutCell(s[..n], i, key, value);
      assert t[..n] == s[..n][i := Cell(true, key, value)];
    } else {
      assert t[..n] == s[..n];
    }
  }

  /** Clearing a live cell removes its key. */
  lemma {:induction false} ClearCell<V>(s: seq<Cell<V>>, i: nat, dead: Cell<V>)
    requires Distinct(s) && i < |s| && s[i].live && !dead.live
    ensures Distinct(s[i := dead])
    ensures ToMap(s[i := dead]) == ToMap(s) - {s[i].key}
  {
    var t := s[i := dead];
    var n := |s| - 1;
    if i < n {
      ClearCell(s[..n], i, dead);
      assert t[..n] == s[..n][i := dead];
    } else {
      assert t[..n] == s[..n];
      Absent(s[..n], s[n].key);
    }
  }
}
