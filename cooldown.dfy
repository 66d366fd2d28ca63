/** cooldown_t: an ability's availability, updated in place. Each method is
    proved to move State() exactly as the matching function of
    CooldownModel does, and to keep Valid(). The simulation clock and the
    owner's reaction time are passed in as `now` and `reaction`; remains()
    is CooldownModel.Remains applied to State(). A cooldown built for a
    player has an owner; one built for the simulator alone (player( 0 )) has
    none, and the paths that reach the owner require one. */
module Cooldowns {
  import opened Time
  import opened Wrappers
  import opened Events
  import CooldownModel

  class Cooldown {
    var duration: Timespan
    var ready: Timespan
    var resetReact: Timespan
    var charges: int
    var currentCharge: int
    var rechargeEvent: Event?
    /** Whether the cooldown was built with an owning player. */
    const owned: bool

    /** The abstract value: the pending recharge is seen through the time it
        was scheduled for. */
    function State(): (s: CooldownModel.CooldownState)
      reads this, rechargeEvent
    {
      CooldownModel.CooldownState(duration, ready, resetReact, charges, currentCharge,
        if rechargeEvent == null then None else Some(rechargeEvent.time))
    }

    /** Charge bounds, a live recharge event exactly while charges are
        missing. */
    ghost predicate Valid()
      reads this, rechargeEvent
    {
      && CooldownModel.Inv(State())
      && (rechargeEvent != null ==> !rechargeEvent.canceled && owned)
    }

    /** cooldown_t( name, player ) when `owned`, cooldown_t( name, sim )
        otherwise. */
    constructor (owned: bool)
      ensures Valid() && State() == CooldownModel.Initial()
      ensures this.owned == owned
    {
      this.owned := owned;
      duration := Zero();
      ready := CooldownModel.ReadyInit();
      resetReact := Zero();
      charges := 1;
      currentCharge := 1;
      rechargeEvent := null;
    }

    /** An early reset reads the owner's reaction time. */
    method Reset(early: bool, now: Timespan, reaction: Timespan)
      requires early ==> owned
      modifies this, rechargeEvent
      ensures State() == CooldownModel.Reset(old(State()), early, now, reaction)
      ensures old(rechargeEvent) != null ==> old(rechargeEvent).canceled
      ensures rechargeEvent == null
      ensures 1 <= charges ==> Valid()
    {
      ready := CooldownModel.ReadyInit();
      currentCharge := charges;
      if early {
        resetReact := now.Add(reaction);
      } else {
        resetReact := Zero();
      }
      rechargeEvent := Event.Cancel(rechargeEvent);
    }

    /** An adjustment that makes the cooldown ready resets it early. */
    method Adjust(amount: Timespan, now: Timespan, reaction: Timespan)
      requires ready.Add(amount).LessEq(now) ==> owned
      modifies this, rechargeEvent
      ensures State() == CooldownModel.Adjust(old(State()), amount, now, reaction)
      ensures old(Valid()) ==> Valid()
      ensures rechargeEvent != old(rechargeEvent) ==> rechargeEvent == null && old(rechargeEvent).canceled
      ensures rechargeEvent == old(rechargeEvent) && rechargeEvent != null ==> unchanged(rechargeEvent)
    {
      ready := ready.Add(amount);
      if CooldownModel.Remains(State(), now) == Zero() {
        Reset(true, now, reaction);
      }
    }

    /** Spending the first of several charges schedules a recharge event,
        which is built from the owner. */
    method Start(override: Timespan, delay: Timespan, now: Timespan)
      requires CooldownModel.StartAllowed(State(), override)
      requires CooldownModel.NewDuration(State(), override).Greater(Zero()) && charges > 1 && currentCharge == charges ==> owned
      modifies this
      ensures State() == CooldownModel.Start(old(State()), override, delay, now)
      ensures old(Valid()) ==> Valid()
      ensures rechargeEvent != old(rechargeEvent) ==> fresh(rechargeEvent)
    {
      resetReact := Zero();
      if override.GreaterEq(Zero()) {
        duration := override;
      }
      if duration.Greater(Zero()) {
        if charges > 1 {
          currentCharge := currentCharge - 1;
          if currentCharge == charges - 1 {
            rechargeEvent := new Event.Scheduled(now, duration.Add(delay));
          } else if currentCharge == 0 {
            ready := rechargeEvent.time.Add(FromMillis(1));
          }
        } else {
          ready := now.Add(duration).Add(delay);
        }
      }
    }

    /** recharge_event_t::execute(), run by the scheduler at `now`. */
    method ExecuteRecharge(now: Timespan)
      requires currentCharge < charges
      requires currentCharge + 1 < charges ==> owned
      modifies this
      ensures State() == CooldownModel.Recharge(old(State()), now)
      ensures old(Valid()) ==> Valid()
      ensures rechargeEvent != null ==> fresh(rechargeEvent)
    {
      currentCharge := currentCharge + 1;
      if currentCharge < charges {
        rechargeEvent := new Event.Scheduled(now, duration);
      } else {
        rechargeEvent := null;
      }
    }
  }
}
