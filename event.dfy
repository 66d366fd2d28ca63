/** event_t: an entry of the simulator's event queue. The queue itself
    (sim_t::add_event and friends) is only declared in the header; the
    model keeps what its users rely on: a scheduled event carries the time
    it was scheduled for, an optional rescheduled time and a canceled flag. */
module Events {
  import opened Time

  class Event {
    var time: Timespan
    /** Zero means "not rescheduled". */
    var rescheduleTime: Timespan
    var canceled: bool

    /** `new ( sim ) X( ... )` followed by `sim -> add_event( this, delta )`:
        the event is stamped to fire `delta` after the current time. */
    constructor Scheduled(now: Timespan, delta: Timespan)
      ensures time == now.Add(delta)
      ensures rescheduleTime == Zero() && !canceled
    {
      time := now.Add(delta);
      rescheduleTime := Zero();
      canceled := false;
    }

    /** occurs(): the effective firing time. A non-zero rescheduled time
        overrides the scheduled one. */
    function Occurs(): (r: Timespan)
      reads this
      ensures rescheduleTime != Zero() ==> r == rescheduleTime
      ensures rescheduleTime == Zero() ==> r == time
    {
      if rescheduleTime != Zero() then rescheduleTime else time
    }

    /** remains(): how long from `now` until the event fires, so that `now`
        plus the result is the effective firing time. */
    function Remains(now: Timespan): (r: Timespan)
      reads this
      ensures now.Add(r) == Occurs()
      ensures r.Less(Zero()) <==> Occurs().Less(now)
    {
      Occurs().Sub(now)
    }

    /** event_t::cancel( e ): on a null handle nothing happens; otherwise the
        event is marked canceled (it keeps its times) and the caller's handle
        becomes null. The caller assigns the returned handle back. */
    static method Cancel(e: Event?) returns (handle: Event?)
      modifies e
      ensures handle == null
      ensures e != null ==> e.canceled
      ensures e != null ==> e.time == old(e.time) && e.rescheduleTime == old(e.rescheduleTime)
    {
      if e != null {
        e.canceled := true;
      }
      handle := null;
    }
  }

  /** Whatever the rescheduled time is, the effective time is one of the two
      stored times, and setting a non-zero rescheduled time moves the event
      exactly there. */
  lemma OccursIsRescheduledOrScheduled(e: Event)
    ensures e.Occurs() == e.rescheduleTime || e.Occurs() == e.time
    ensures e.Occurs() != e.rescheduleTime ==> e.rescheduleTime == Zero()
  {
  }
}
