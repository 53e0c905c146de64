/** The fixed-capacity circular buffer of include/core/aligned_slab.hpp, refining a bounded FIFO. */
module RingBuffers {

  /** The n indices starting at `from`, in order: the ids of consecutive messages. */
  function Ids(from: int, to: int): (r: seq<int>)
  {
    if from < to then seq(to - from, i => from + i) else []
  }

  lemma IdsEmpty(a: int)
    ensures Ids(a, a) == []
  {
  }

  lemma IdsConcat(a: int, b: int, c: int)
    requires a <= b <= c
    ensures Ids(a, b) + Ids(b, c) == Ids(a, c)
  {
  }

  lemma IdsFirst(a: int, b: int)
    requires a < b
    ensures Ids(a, b) != [] && Ids(a, b)[0] == a && Ids(a, b)[1..] == Ids(a + 1, b)
  {
  }

  /** Where the i-th slot after the start of a buffer of n slots lies. */
  function Wrap(i: nat, n: nat): int
  {
    if i < n then i else i - n
  }

  /** The `size` values held by a circular buffer from `head` on, oldest first. */
  ghost function Window<T>(slots: seq<T>, head: nat, size: nat): (s: seq<T>)
    requires head < |slots| && size <= |slots|
    ensures |s| == size && forall i :: 0 <= i < size ==> s[i] == slots[Wrap(head + i, |slots|)]
  {
    seq(size, i requires 0 <= i < size => slots[Wrap(head + i, |slots|)])
  }

  lemma WindowPush<T>(slots: seq<T>, head: nat, size: nat, value: T)
    requires head < |slots| && size < |slots|
    ensures Window(slots[Wrap(head + size, |slots|) := value], head, size + 1) == Window(slots, head, size) + [value]
  {
  }

  lemma WindowPop<T>(slots: seq<T>, head: nat, size: nat)
    requires head < |slots| && 0 < size <= |slots|
    ensures Window(slots, head, size)[0] == slots[head]
    ensures Window(slots, head, size)[1..] == Window(slots, Wrap(head + 1, |slots|), size - 1)
  {
  }

  /** One step of the index arithmetic: stepping modulo n is wrapping. */
  lemma WrapStep(i: nat, n: nat)
    requires i < n
    ensures (i + 1) % n == Wrap(i + 1, n)
  {
    if i + 1 < n {
      assert (i + 1) % n == i + 1;
    }
  }

  class RingBuffer<T(0)> {
    const slab: array<T>
    var head: nat
    var tail: nat
    var size: nat

    ghost predicate Valid()
      reads this
    {
      && 0 < slab.Length
      && head < slab.Length
      && size <= slab.Length
      && tail == Wrap(head + size, slab.Length)
    }

    /** The queued values, oldest first. */
    ghost function Contents(): (s: seq<T>)
      requires Valid()
      reads this, slab
      ensures |s| == size
    {
      Window(slab[..], head, size)
    }

    constructor (capacity: nat, zero: T)
      requires 0 < capacity
      ensures Valid() && fresh(slab) && slab.Length == capacity && Contents() == []
    {
      slab := new T[capacity](_ => zero);
      head, tail, size := 0, 0, 0;
    }

    method Push(value: T) returns (ok: bool)
      requires Valid()
      modifies this, slab
      ensures Valid()
      ensures ok == (|old(Contents())| < slab.Length)
      ensures Contents() == if ok then old(Contents()) + [value] else old(Contents())
    {
      if size == slab.Length {
        return false;
      }
      WindowPush(slab[..], head, size, value);
      WrapStep(tail, slab.Length);
      ghost var slots := slab[..];
      slab[tail] := value;
      assert slab[..] == slots[tail := value];
      tail := (tail + 1) % slab.Length;
      size := size + 1;
      return true;
    }

    /** `value` keeps what the caller passed in when the buffer is empty. */
    method Pop(initial: T) returns (ok: bool, value: T)
      requires Valid()
      modifies this
      ensures Valid()
      ensures ok == (old(Contents()) != [])
      ensures ok ==> value == old(Contents())[0] && Contents() == old(Contents())[1..]
      ensures !ok ==> value == initial && Contents() == old(Contents())
    {
      if size == 0 {
        return false, initial;
      }
      WindowPop(slab[..], head, size);
      WrapStep(head, slab.Length);
      value := slab[head];
      head := (head + 1) % slab.Length;
      size := size - 1;
      ok := true;
    }
  }
}
