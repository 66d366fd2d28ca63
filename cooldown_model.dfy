/** The state machine of cooldown_t as values: every operation of the class
    in module Cooldowns is specified by one of the functions here, and the
    properties of the charge bookkeeping are proved about these functions.
    The pending recharge event is represented by the time it was scheduled
    for (the field the source reads back, recharge_event->time). */
module CooldownModel {
  import opened Time
  import opened Wrappers

  /** ready_init(): one hour before combat starts, so a fresh cooldown is
      ready at any simulation time. */
  function ReadyInit(): (r: Timespan) { FromSeconds(-60 * 60) }

  datatype CooldownState = CooldownState(
    duration: Timespan,
    ready: Timespan,
    resetReact: Timespan,
    charges: int,
    currentCharge: int,
    recharge: Option<Timespan>)

  /** The charge bookkeeping: at least one charge, the current count within
      bounds, and a recharge pending exactly while charges are missing. */
  predicate Inv(s: CooldownState)
  {
    && 1 <= s.charges
    && 0 <= s.currentCharge <= s.charges
    && (s.recharge.Some? <==> s.currentCharge < s.charges)
  }

  /** The state both constructors of cooldown_t build. */
  function Initial(): (s: CooldownState)
    ensures Inv(s) && s.currentCharge == s.charges
    ensures forall now: Timespan :: !now.Less(ReadyInit()) ==> Remains(s, now) == Zero()
  {
    CooldownState(Zero(), ReadyInit(), Zero(), 1, 1, None)
  }

  /** remains(): time until ready, clamped at zero. */
  function Remains(s: CooldownState, now: Timespan): (r: Timespan)
    ensures !r.Less(Zero())
    ensures r == Zero() <==> s.ready.LessEq(now)
    ensures r != Zero() ==> now.Add(r) == s.ready
  {
    var diff := s.ready.Sub(now);
    if diff.Less(Zero()) then Zero() else diff
  }

  /** reset( early ): all charges back, ready at ready_init(), no recharge
      pending; reset_react records when the actor notices an early reset. */
  function Reset(s: CooldownState, early: bool, now: Timespan, reaction: Timespan): (r: CooldownState)
    ensures 1 <= s.charges ==> Inv(r)
    ensures r.currentCharge == r.charges && r.recharge == None
  {
    s.(ready := ReadyInit(),
       currentCharge := s.charges,
       resetReact := if early then now.Add(reaction) else Zero(),
       recharge := None)
  }

  /** The duration start() uses: a non-negative override replaces it. */
  function NewDuration(s: CooldownState, override: Timespan): (d: Timespan)
  {
    if override.GreaterEq(Zero()) then override else s.duration
  }

  /** The two asserts of start(): a multi-charge cooldown being started has a
      charge to spend, and when it spends the last one a recharge is
      pending. */
  predicate StartAllowed(s: CooldownState, override: Timespan)
  {
    NewDuration(s, override).Greater(Zero()) && s.charges > 1 ==>
      s.currentCharge > 0 && (s.currentCharge == 1 ==> s.recharge.Some?)
  }

  /** start( override, delay ). */
  function Start(s: CooldownState, override: Timespan, delay: Timespan, now: Timespan): (r: CooldownState)
    requires StartAllowed(s, override)
    ensures Inv(s) ==> Inv(r)
  {
    var d := NewDuration(s, override);
    var s1 := s.(resetReact := Zero(), duration := d);
    if !d.Greater(Zero()) then
      s1
    else if s.charges > 1 then
      var c := s.currentCharge - 1;
      if c == s.charges - 1 then
        s1.(currentCharge := c, recharge := Some(now.Add(d.Add(delay))))
      else if c == 0 then
        s1.(currentCharge := c, ready := s.recharge.value.Add(FromMillis(1)))
      else
        s1.(currentCharge := c)
    else
      s1.(ready := now.Add(d).Add(delay))
  }

  /** recharge_event_t::execute(), fired at `now`: one charge comes back and
      the next recharge is armed `duration` later while any is missing. */
  function Recharge(s: CooldownState, now: Timespan): (r: CooldownState)
    requires s.currentCharge < s.charges
    ensures Inv(s) ==> Inv(r)
  {
    var c := s.currentCharge + 1;
    s.(currentCharge := c,
       recharge := if c < s.charges then Some(now.Add(s.duration)) else None)
  }

  /** adjust( amount ): shift the ready time; if that makes the cooldown
      ready, reset it early. */
  function Adjust(s: CooldownState, amount: Timespan, now: Timespan, reaction: Timespan): (r: CooldownState)
    ensures Inv(s) ==> Inv(r)
  {
    var s1 := s.(ready := s.ready.Add(amount));
    if Remains(s1, now) == Zero() then Reset(s1, true, now, reaction) else s1
  }

  // ---------------------------------------------------------------------
  // One call at a time

  /** After reset the cooldown is ready at any time after ready_init(), and
      reset_react is now + reaction exactly for an early reset. */
  lemma ResetMakesReady(s: CooldownState, early: bool, now: Timespan, reaction: Timespan, later: Timespan)
    requires !later.Less(ReadyInit())
    ensures Remains(Reset(s, early, now, reaction), later) == Zero()
    ensures Reset(s, early, now, reaction).resetReact == (if early then now.Add(reaction) else Zero())
  {
  }

  /** A single-charge start with a positive duration puts ready at
      now + duration + delay, so remains() right away is duration + delay
      when that is positive; charges are untouched. */
  lemma StartSingleCharge(s: CooldownState, override: Timespan, delay: Timespan, now: Timespan)
    requires s.charges <= 1 && NewDuration(s, override).Greater(Zero())
    ensures var r := Start(s, override, delay, now);
      && r.ready == now.Add(NewDuration(s, override)).Add(delay)
      && r.currentCharge == s.currentCharge && r.recharge == s.recharge
      && (delay.GreaterEq(Zero()) ==> Remains(r, now) == NewDuration(s, override).Add(delay))
  {
  }

  /** With a non-positive duration start() only clears reset_react (and
      records an override). */
  lemma StartWithoutDuration(s: CooldownState, override: Timespan, delay: Timespan, now: Timespan)
    requires !NewDuration(s, override).Greater(Zero())
    ensures Start(s, override, delay, now) == s.(resetReact := Zero(), duration := NewDuration(s, override))
  {
  }

  /** A multi-charge start spends one charge; it arms a recharge exactly when
      the cooldown was full, and only on spending the last charge does the
      ready time move, to 1 ms after the pending recharge. */
  lemma StartMultiCharge(s: CooldownState, override: Timespan, delay: Timespan, now: Timespan)
    requires Inv(s) && s.charges > 1 && NewDuration(s, override).Greater(Zero())
    requires StartAllowed(s, override)
    ensures var r := Start(s, override, delay, now);
      && r.currentCharge == s.currentCharge - 1
      && (s.currentCharge == s.charges <==> s.recharge == None && r.recharge.Some?)
      && (s.currentCharge == s.charges ==> r.recharge == Some(now.Add(NewDuration(s, override).Add(delay))))
      && (s.currentCharge < s.charges ==> r.recharge == s.recharge)
      && (r.currentCharge == 0 ==> r.ready == s.recharge.value.Add(FromMillis(1)))
      && (r.currentCharge > 0 ==> r.ready == s.ready)
  {
  }

  /** A recharge gives one charge back and re-arms itself if and only if the
      cooldown is still short of charges. */
  lemma RechargeRearmsIffMissing(s: CooldownState, now: Timespan)
    requires Inv(s) && s.currentCharge < s.charges
    ensures var r := Recharge(s, now);
      && r.currentCharge == s.currentCharge + 1
      && (r.recharge.Some? <==> r.currentCharge < r.charges)
      && (r.recharge.Some? ==> r.recharge.value == now.Add(s.duration))
      && r.ready == s.ready
  {
  }

  /** adjust() resets the cooldown exactly when the shifted ready time is no
      later than now; otherwise only the ready time moves. */
  lemma AdjustResetsIffReady(s: CooldownState, amount: Timespan, now: Timespan, reaction: Timespan)
    ensures var r := Adjust(s, amount, now, reaction);
      && (s.ready.Add(amount).LessEq(now) ==>
            r == Reset(s, true, now, reaction) && r.resetReact == now.Add(reaction))
      && (!s.ready.Add(amount).LessEq(now) ==>
            r == s.(ready := s.ready.Add(amount)) && Remains(r, now) != Zero())
  {
  }

  // ---------------------------------------------------------------------
  // Sequences of calls

  /** start() called k times at the same instant with no override. */
  function StartRepeated(s: CooldownState, k: nat, delay: Timespan, now: Timespan): (r: CooldownState)
    requires Inv(s) && s.charges > 1 && s.duration.Greater(Zero()) && k <= s.currentCharge
    ensures Inv(r) && r.currentCharge == s.currentCharge - k
    ensures r.charges == s.charges && r.duration == s.duration
    decreases k
  {
    if k == 0 then s else Start(StartRepeated(s, k - 1, delay, now), Min(), delay, now)
  }

  /** The pending recharge fires k times in a row, each time at the moment it
      was scheduled for. */
  function FireRecharges(s: CooldownState, k: nat): (r: CooldownState)
    requires Inv(s) && k <= s.charges - s.currentCharge
    ensures Inv(r) && r.currentCharge == s.currentCharge + k
    ensures r.charges == s.charges && r.duration == s.duration
    decreases k
  {
    if k == 0 then s
    else
      var p := FireRecharges(s, k - 1);
      Recharge(p, p.recharge.value)
  }

  /** Spending k charges of a full cooldown at one instant arms a single
      recharge at now + duration + delay; the ready time stays put until the
      last charge goes, and then sits 1 ms after that recharge. */
  lemma {:induction false} StartRepeatedFromFull(s: CooldownState, k: nat, delay: Timespan, now: Timespan)
    requires Inv(s) && s.charges > 1 && s.duration.Greater(Zero()) && s.currentCharge == s.charges
    requires 1 <= k <= s.charges
    ensures var r := StartRepeated(s, k, delay, now);
      && r.recharge == Some(now.Add(s.duration.Add(delay)))
      && (k < s.charges ==> r.ready == s.ready)
      && (k == s.charges ==> r.ready == now.Add(s.duration.Add(delay)).Add(FromMillis(1)))
  {
    if k > 1 {
      StartRepeatedFromFull(s, k - 1, delay, now);
    }
  }

  /** Firing k recharges, each at its own time, starting from one pending at
      t: the next is pending k durations after t until the cooldown is full,
      and then none is. */
  lemma {:induction false} FireRechargesSchedule(s: CooldownState, k: nat, t: Timespan)
    requires Inv(s) && k <= s.charges - s.currentCharge && s.recharge == Some(t)
    ensures var r := FireRecharges(s, k);
      && (r.currentCharge < r.charges ==> r.recharge == Some(t.Add(Repeated(s.duration, k))))
      && (r.currentCharge == r.charges ==> r.recharge == None)
  {
    if k > 0 {
      FireRechargesSchedule(s, k - 1, t);
      var p := FireRecharges(s, k - 1);
      assert p.recharge == Some(t.Add(Repeated(s.duration, k - 1)));
    }
  }

  /** A cooldown with n > 1 charges, emptied at one instant `now` and then
      left to recharge: it is at 0 charges with exactly one recharge pending
      at now + duration; the n-th recharge fires at now + n * duration and
      leaves it full with nothing pending. */
  lemma ChargeCycle(s: CooldownState, now: Timespan)
    requires Inv(s) && s.charges > 1 && s.duration.Greater(Zero()) && s.currentCharge == s.charges
    ensures var drained := StartRepeated(s, s.charges, Zero(), now);
      && drained.currentCharge == 0
      && drained.recharge == Some(now.Add(s.duration))
      && FireRecharges(drained, s.charges - 1).recharge
           == Some(now.Add(s.duration.Scale(s.charges)))
      && FireRecharges(drained, s.charges).currentCharge == s.charges
      && FireRecharges(drained, s.charges).recharge == None
  {
    var n := s.charges;
    var t := now.Add(s.duration);
    StartRepeatedFromFull(s, n, Zero(), now);
    var drained := StartRepeated(s, n, Zero(), now);
    assert drained.recharge == Some(t) by {
      assert s.duration.Add(Zero()) == s.duration;
    }
    FireRechargesSchedule(drained, n - 1, t);
    var almost := FireRecharges(drained, n - 1);
    assert almost.recharge == Some(t.Add(Repeated(s.duration, n - 1)));
    assert Repeated(s.duration, n) == Repeated(s.duration, n - 1).Add(s.duration);
    RepeatedIsScale(s.duration, n);
    FireRechargesSchedule(drained, n, t);
  }
}
