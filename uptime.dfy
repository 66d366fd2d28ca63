/** uptime_common_t: tracks one on/off condition through an iteration. An
    up-interval is open while last_start is non-negative; closing it adds
    its length to iteration_uptime_sum. Simulation time is never negative,
    so a negative last_start (min()) means "no interval open". */
module UptimeModel {
  import opened Time

  datatype UptimeState = UptimeState(lastStart: Timespan, iterationUptimeSum: Timespan)
  {
    predicate IsOpen() { lastStart.GreaterEq(Zero()) }
  }

  /** The state the constructor builds: no interval open, nothing summed. */
  function Initial(): (r: UptimeState) { UptimeState(Min(), Zero()) }

  /** update( is_up ) at simulation time `now`. */
  function Update(s: UptimeState, isUp: bool, now: Timespan): (r: UptimeState)
    ensures !isUp ==> !r.IsOpen()
    ensures isUp && !now.Less(Zero()) ==> r.IsOpen()
    ensures s.IsOpen() && s.lastStart.LessEq(now) ==> s.iterationUptimeSum.LessEq(r.iterationUptimeSum)
    ensures !s.IsOpen() ==> r.iterationUptimeSum == s.iterationUptimeSum
  {
    if isUp then
      if s.lastStart.Less(Zero()) then s.(lastStart := now) else s
    else if s.lastStart.GreaterEq(Zero()) then
      UptimeState(Min(), s.iterationUptimeSum.Add(now.Sub(s.lastStart)))
    else
      s
  }

  /** reset(): drops an open interval without counting it. */
  function Reset(s: UptimeState): (r: UptimeState)
    ensures !r.IsOpen() && r.iterationUptimeSum == s.iterationUptimeSum
  {
    s.(lastStart := Min())
  }

  /** One observation: the condition and the time it was observed at. */
  datatype Sample = Sample(isUp: bool, now: Timespan)

  /** The state after observing every sample of a trace, in order. */
  function Run(s: UptimeState, trace: seq<Sample>): (r: UptimeState)
    decreases |trace|
  {
    if trace == [] then s
    else Run(Update(s, trace[0].isUp, trace[0].now), trace[1..])
  }

  /** Simulation time: never negative and never going back. */
  predicate Chronological(trace: seq<Sample>, from: Timespan)
  {
    && !from.Less(Zero())
    && (forall i :: 0 <= i < |trace| ==> from.LessEq(trace[i].now))
    && (forall i, j :: 0 <= i < j < |trace| ==> trace[i].now.LessEq(trace[j].now))
  }

  // ---------------------------------------------------------------------
  // Properties

  /** update( true ) opens an interval at `now` only when none is open, so a
      second update( true ) changes nothing. */
  lemma UpdateUpIdempotent(s: UptimeState, now: Timespan, later: Timespan)
    requires !now.Less(Zero())
    ensures Update(s, true, now).IsOpen()
    ensures Update(Update(s, true, now), true, later) == Update(s, true, now)
    ensures s.IsOpen() ==> Update(s, true, now) == s
    ensures !s.IsOpen() ==> Update(s, true, now).lastStart == now
  {
  }

  /** update( false ) closes an open interval, adding exactly its length to
      the sum; with none open it changes nothing. */
  lemma UpdateDownCloses(s: UptimeState, now: Timespan)
    ensures !Update(s, false, now).IsOpen()
    ensures s.IsOpen() ==>
      Update(s, false, now).iterationUptimeSum.Sub(s.iterationUptimeSum) == now.Sub(s.lastStart)
    ensures !s.IsOpen() ==> Update(s, false, now) == s
  {
  }

  /** What a chronological run keeps: the sum never exceeds the time an
      open interval started at, nor the latest observation time. */
  predicate Bounded(s: UptimeState, latest: Timespan)
  {
    && !s.iterationUptimeSum.Less(Zero())
    && (s.IsOpen() ==> s.lastStart.LessEq(latest) && s.iterationUptimeSum.LessEq(s.lastStart))
    && (!s.IsOpen() ==> s.iterationUptimeSum.LessEq(latest))
  }

  lemma {:induction false} RunBounded(s: UptimeState, trace: seq<Sample>, latest: Timespan)
    requires Bounded(s, latest) && Chronological(trace, latest)
    ensures Bounded(Run(s, trace), if trace == [] then latest else trace[|trace| - 1].now)
    ensures !Run(s, trace).iterationUptimeSum.Less(s.iterationUptimeSum)
    decreases |trace|
  {
    if trace != [] {
      var next := Update(s, trace[0].isUp, trace[0].now);
      assert Bounded(next, trace[0].now);
      var rest := trace[1..];
      assert Chronological(rest, trace[0].now) by {
        forall i | 0 <= i < |rest| ensures trace[0].now.LessEq(rest[i].now) {
          assert rest[i] == trace[i + 1];
        }
        forall i, j | 0 <= i < j < |rest| ensures rest[i].now.LessEq(rest[j].now) {
          assert rest[i] == trace[i + 1] && rest[j] == trace[j + 1];
        }
      }
      RunBounded(next, rest, trace[0].now);
      if rest != [] {
        assert rest[|rest| - 1] == trace[|trace| - 1];
      }
    }
  }

  /** Over an iteration that starts at time zero, the accumulated uptime
      never exceeds the time elapsed up to the last observation and never
      decreases, so the ratio combat_end() samples is at most one. */
  lemma UptimeWithinElapsed(trace: seq<Sample>)
    requires Chronological(trace, Zero())
    ensures var r := Run(Initial(), trace);
      && !r.iterationUptimeSum.Less(Zero())
      && (trace != [] ==> r.iterationUptimeSum.LessEq(trace[|trace| - 1].now))
      && (trace == [] ==> r == Initial())
  {
    RunBounded(Initial(), trace, Zero());
  }

}

/** The object itself, proved against UptimeModel. */
module Uptimes {
  import opened Time
  import UptimeModel

  class Uptime {
    var lastStart: Timespan
    var iterationUptimeSum: Timespan

    function State(): (s: UptimeModel.UptimeState)
      reads this
    {
      UptimeModel.UptimeState(lastStart, iterationUptimeSum)
    }

    constructor ()
      ensures State() == UptimeModel.Initial()
    {
      lastStart := Min();
      iterationUptimeSum := Zero();
    }

    method Update(isUp: bool, now: Timespan)
      modifies this
      ensures State() == UptimeModel.Update(old(State()), isUp, now)
    {
      if isUp {
        if lastStart.Less(Zero()) {
          lastStart := now;
        }
      } else if lastStart.GreaterEq(Zero()) {
        iterationUptimeSum := iterationUptimeSum.Add(now.Sub(lastStart));
        lastStart := Min();
      }
    }

    method Reset()
      modifies this
      ensures State() == UptimeModel.Reset(old(State()))
    {
      lastStart := Min();
    }
  }
}
