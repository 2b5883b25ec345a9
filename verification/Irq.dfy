/** The interrupt line towards the host. */
module Irq {

  datatype Interrupt = CommandError | PacketReceived | PacketTransmitted | TxQueueEmpty

  class IrqManager {
    var gActive: set<Interrupt>
    var gMask: set<Interrupt>
    var gMaskedActive: set<Interrupt>
    var lineAsserted: bool

    /** PacketReceived has been acknowledged since it was last asserted. */
    ghost var rxAcked: bool

    /** The line is level active: asserted exactly while an unmasked interrupt is active. */
    ghost predicate Valid()
      reads this
    {
      gMaskedActive == gActive * gMask && (lineAsserted <==> gMaskedActive != {})
    }

    /** Compared with the old state only interrupts in `which` were raised. */
    twostate predicate Raised(which: set<Interrupt>)
      reads this
    {
      gMask == old(gMask) && rxAcked == old(rxAcked) && old(gActive) <= gActive <= old(gActive) + which
    }

    constructor ()
      ensures Valid() && gActive == {} && gMask == {}
    {
      gActive, gMask, gMaskedActive, lineAsserted, rxAcked := {}, {}, {}, false, false;
    }

    method Update()
      modifies this`gMaskedActive, this`lineAsserted
      ensures Valid()
    {
      var result := gActive * gMask;
      lineAsserted := result != {};
      gMaskedActive := result;
    }

    method SetMask(newMask: set<Interrupt>)
      modifies this
      ensures Valid() && gMask == newMask && gActive == old(gActive) && rxAcked == old(rxAcked)
    {
      gMask := newMask;
      Update();
    }

    method Assert(which: set<Interrupt>)
      modifies this
      ensures Valid() && gMask == old(gMask) && gActive == old(gActive) + which
      ensures rxAcked == (old(rxAcked) && PacketReceived !in which)
    {
      gActive := gActive + which;
      rxAcked := rxAcked && PacketReceived !in which;
      Update();
    }

    method Acknowledge(which: set<Interrupt>)
      modifies this
      ensures Valid() && gMask == old(gMask) && gActive == old(gActive) - which
      ensures rxAcked == (old(rxAcked) || PacketReceived in which)
    {
      gActive := gActive - which;
      rxAcked := rxAcked || PacketReceived in which;
      Update();
    }

    /** Read and clear: the host is told exactly the unmasked active interrupts, and only those are
        cleared, so an interrupt is reported once and a masked one is kept for later. */
    method ReadStatus() returns (pending: set<Interrupt>)
      requires Valid()
      modifies this
      ensures Valid() && gMask == old(gMask)
      ensures pending == old(gActive) * gMask && gActive == old(gActive) - pending
      ensures rxAcked == (old(rxAcked) || PacketReceived in pending)
      ensures !lineAsserted
    {
      pending := gMaskedActive;
      Acknowledge(pending);
      assert gActive * gMask == {};
    }
  }
}
