/** A file descriptor and the events its owner cares about (Reactor/Channel.h, Reactor/Channel.cpp). */
module Channel {

  type Mask = bv16

  const NONE_EVENT: Mask := 0
  const READ_EVENT: Mask := 0x0003   // POLLIN | POLLPRI
  const WRITE_EVENT: Mask := 0x0004  // POLLOUT

  predicate IsReading(events: Mask) {
    events & READ_EVENT != 0
  }

  predicate IsWriting(events: Mask) {
    events & WRITE_EVENT != 0
  }

  function With(events: Mask, bits: Mask): Mask {
    events | bits
  }

  function Without(events: Mask, bits: Mask): Mask {
    events & !bits
  }

  lemma ReadingOn(events: Mask)
    ensures IsReading(With(events, READ_EVENT)) && IsWriting(With(events, READ_EVENT)) == IsWriting(events)
  {
  }

  lemma WritingOn(events: Mask)
    ensures IsWriting(With(events, WRITE_EVENT)) && IsReading(With(events, WRITE_EVENT)) == IsReading(events)
  {
  }

  lemma ReadingOff(events: Mask)
    ensures !IsReading(Without(events, READ_EVENT)) && IsWriting(Without(events, READ_EVENT)) == IsWriting(events)
  {
  }

  lemma WritingOff(events: Mask)
    ensures !IsWriting(Without(events, WRITE_EVENT)) && IsReading(Without(events, WRITE_EVENT)) == IsReading(events)
  {
  }

  lemma ReadingOffUndoesOn(events: Mask)
    ensures Without(With(events, READ_EVENT), READ_EVENT) == Without(events, READ_EVENT)
  {
  }

  lemma WritingOffUndoesOn(events: Mask)
    ensures Without(With(events, WRITE_EVENT), WRITE_EVENT) == Without(events, WRITE_EVENT)
  {
  }

  /** Each direction is switched by itself, and switching it off undoes switching it on. */
  lemma DirectionsAreIndependent(events: Mask)
    ensures IsReading(With(events, READ_EVENT)) && !IsReading(Without(events, READ_EVENT))
    ensures IsWriting(With(events, WRITE_EVENT)) && !IsWriting(Without(events, WRITE_EVENT))
    ensures IsWriting(With(events, READ_EVENT)) == IsWriting(Without(events, READ_EVENT)) == IsWriting(events)
    ensures IsReading(With(events, WRITE_EVENT)) == IsReading(Without(events, WRITE_EVENT)) == IsReading(events)
    ensures Without(With(events, READ_EVENT), READ_EVENT) == Without(events, READ_EVENT)
    ensures Without(With(events, WRITE_EVENT), WRITE_EVENT) == Without(events, WRITE_EVENT)
  {
    ReadingOn(events);
    ReadingOff(events);
    ReadingOffUndoesOn(events);
    WritingOn(events);
    WritingOff(events);
    WritingOffUndoesOn(events);
  }

  class Channel {
    const fd: nat
    var events: Mask
    var revents: int
    var index: int  // belongs to the poller; -1 for a channel no poller has seen

    constructor (fd: nat)
      ensures this.fd == fd && events == NONE_EVENT && index == -1
    {
      this.fd, events, revents, index := fd, NONE_EVENT, 0, -1;
    }

    method EnableReading()
      modifies this`events
      ensures events == With(old(events), READ_EVENT)
    {
      events := events | READ_EVENT;
    }

    method DisableReading()
      modifies this`events
      ensures events == Without(old(events), READ_EVENT)
    {
      events := events & !READ_EVENT;
    }

    method EnableWriting()
      modifies this`events
      ensures events == With(old(events), WRITE_EVENT)
    {
      events := events | WRITE_EVENT;
    }

    method DisableWriting()
      modifies this`events
      ensures events == Without(old(events), WRITE_EVENT)
    {
      events := events & !WRITE_EVENT;
    }

    method DisableAll()
      modifies this`events
      ensures events == NONE_EVENT && !IsReading(events) && !IsWriting(events)
    {
      events := NONE_EVENT;
    }
  }
}
