/** The few lines of include/modules/pcie_dma.hpp and include/modules/mac_framer.hpp that a pipeline
    step needs. */
module PcieDma {
  import opened Words
  import opened RingBuffers

  datatype Tlp = Tlp(address: nat, byteCount: nat, tag: nat, payload: seq<byte>)

  const EMPTY_TLP: Tlp := Tlp(0, 0, 0, [])
  const RING_DEPTH: nat := 64

  class DmaEngine {
    const ring: RingBuffer<Tlp>
    var posted: nat
    var msix: bool

    ghost predicate Valid()
      reads this, ring
    {
      ring.Valid() && ring.slab.Length == RING_DEPTH
    }

    constructor ()
      ensures Valid() && fresh(ring) && fresh(ring.slab)
      ensures ring.Contents() == [] && posted == 0 && !msix
    {
      ring := new RingBuffer(RING_DEPTH, EMPTY_TLP);
      posted, msix := 0, false;
    }

    method PostWrite(tlp: Tlp) returns (ok: bool)
      requires Valid()
      modifies this, ring, ring.slab
      ensures Valid()
      ensures ok == (|old(ring.Contents())| < RING_DEPTH)
      ensures ok ==> ring.Contents() == old(ring.Contents()) + [tlp] && posted == old(posted) + 1 && msix
      ensures !ok ==> ring.Contents() == old(ring.Contents()) && posted == old(posted) && msix == old(msix)
    {
      ok := ring.Push(tlp);
      if ok {
        posted, msix := posted + 1, true;
      }
    }

    method Consume() returns (ok: bool, tlp: Tlp)
      requires Valid()
      modifies ring
      ensures Valid()
      ensures ok == (old(ring.Contents()) != [])
      ensures ok ==> tlp == old(ring.Contents())[0] && ring.Contents() == old(ring.Contents())[1..]
      ensures !ok ==> tlp == EMPTY_TLP && ring.Contents() == []
    {
      ok, tlp := ring.Pop(EMPTY_TLP);
    }

    method ClearMsix()
      modifies this`msix
      ensures !msix
    {
      msix := false;
    }
  }

  const MINIMUM_IPG_BYTES: nat := 12

  /** One beat is a transfer by construction; what matters is its last flag. */
  class MacFramer {
    var previousEnd: nat
    var ipgValid: bool

    constructor ()
      ensures previousEnd == 0 && !ipgValid
    {
      previousEnd, ipgValid := 0, false;
    }

    method VerifyIpg(idleBytes: nat) returns (ok: bool)
      modifies this`ipgValid
      ensures ok == ipgValid == (MINIMUM_IPG_BYTES <= idleBytes)
    {
      ipgValid := idleBytes >= MINIMUM_IPG_BYTES;
      ok := ipgValid;
    }

    method Accept(last: bool) returns (ok: bool)
      modifies this`previousEnd
      ensures previousEnd == (if last then 0 else old(previousEnd) + 64)
      ensures ok == (ipgValid || previousEnd != 0)
    {
      previousEnd := if last then 0 else previousEnd + 64;
      ok := ipgValid || previousEnd != 0;
    }
  }
}
