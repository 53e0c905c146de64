/** The dual-port RAM of include/modules/bram_memory.hpp at the latency the pipeline instantiates,
    one: a request latched at a posedge is served at the next negedge, writes before reads. */
module Bram {

  datatype Request<T> = Request(read: bool, write: bool, address: nat, data: T)

  datatype Response<T> = Response(valid: bool, data: T)

  predicate Collide<T>(a: Request<T>, b: Request<T>)
  {
    a.address == b.address && ((a.write && b.write) || (a.write && b.read) || (b.write && a.read))
  }

  /** The memory after a request's write, if it has one in range. */
  function Written<T>(memory: seq<T>, r: Request<T>): (after: seq<T>)
    ensures |after| == |memory|
  {
    if r.write && r.address < |memory| then memory[r.address := r.data] else memory
  }

  /** It does not matter which request is served first. */
  ghost predicate Independent<T>(memory: seq<T>, a: Request<T>, b: Request<T>)
    requires a.address < |memory| && b.address < |memory|
  {
    && Written(Written(memory, a), b) == Written(Written(memory, b), a)
    && (a.read ==> Written(memory, b)[a.address] == memory[a.address])
    && (b.read ==> Written(memory, a)[b.address] == memory[b.address])
  }

  /** Requests that do not collide never depend on their order; those that do depend on it as soon as three different
      values are involved. */
  lemma CollideIff<T>(memory: seq<T>, a: Request<T>, b: Request<T>)
    requires a.address < |memory| && b.address < |memory|
    ensures !Collide(a, b) ==> Independent(memory, a, b)
    ensures Collide(a, b) && a.data != b.data && memory[a.address] != a.data && memory[a.address] != b.data ==>
      !Independent(memory, a, b)
  {
    var both, other := Written(Written(memory, a), b), Written(Written(memory, b), a);
    assert !Collide(a, b) ==> both == other;
    assert both[a.address] != other[a.address] ==> both != other;
  }

  class DualPortBram<T(0)> {
    const memory: array<T>
    const zero: T
    var pendingA: Request<T>
    var pendingB: Request<T>
    var responseA: Response<T>
    var responseB: Response<T>
    var collision: bool

    function Idle(): Request<T>
    {
      Request(false, false, 0, zero)
    }

    constructor (depth: nat, zero: T)
      ensures fresh(memory) && memory.Length == depth && this.zero == zero
      ensures forall i :: 0 <= i < depth ==> memory[i] == zero
      ensures pendingA == pendingB == Idle() && !responseA.valid && !responseB.valid && !collision
    {
      this.zero := zero;
      memory := new T[depth](_ => zero);
      pendingA, pendingB := Request(false, false, 0, zero), Request(false, false, 0, zero);
      responseA, responseB := Response(false, zero), Response(false, zero);
      collision := false;
    }

    /** Latches both requests. The source also asserts that they do not collide. */
    method Posedge(a: Request<T>, b: Request<T>)
      modifies this
      ensures pendingA == a && pendingB == b && collision == Collide(a, b)
      ensures responseA == old(responseA) && responseB == old(responseB)
    {
      collision := false;
      if (a.write && b.write && a.address == b.address) || (a.write && b.read && a.address == b.address)
         || (b.write && a.read && a.address == b.address) {
        collision := true;
      }
      pendingA, pendingB := a, b;
    }

    /** Serves the latched requests: both writes, then both reads of the memory they leave. */
    method Negedge()
      modifies this, memory
      ensures pendingA == old(pendingA) && pendingB == old(pendingB) && collision == old(collision)
      ensures memory[..] == Written(Written(old(memory[..]), pendingA), pendingB)
      ensures responseA.valid == (pendingA.read && pendingA.address < memory.Length)
      ensures responseA.valid ==> responseA.data == memory[pendingA.address]
      ensures responseB.valid == (pendingB.read && pendingB.address < memory.Length)
      ensures responseB.valid ==> responseB.data == memory[pendingB.address]
    {
      var a, b := pendingA, pendingB;
      responseA, responseB := Response(false, zero), Response(false, zero);
      if a.write && a.address < memory.Length {
        memory[a.address] := a.data;
      }
      if b.write && b.address < memory.Length {
        memory[b.address] := b.data;
      }
      if a.read && a.address < memory.Length {
        responseA := Response(true, memory[a.address]);
      }
      if b.read && b.address < memory.Length {
        responseB := Response(true, memory[b.address]);
      }
    }
  }
}
