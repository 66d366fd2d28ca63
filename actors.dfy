/** The parts of player_t the modelled code touches: the global-cooldown
    gate, the in-combat flag, and the per-target slot vector that
    target_specific_t indexes. */
module Actors {
  import opened Time

  /** An untyped per-target pointer (void*): NULL or some object. */
  datatype Slot = Null | Data(handle: nat)

  class Player {
    var gcdReady: Timespan
    var inCombat: bool
    var targetSpecificPtrs: seq<Slot>

    /** in_gcd(): the global cooldown is still running at `now`. */
    function InGcd(now: Timespan): (r: bool)
      reads this
    {
      gcdReady.Greater(now)
    }
  }

  /** The global cooldown holds exactly before gcd_ready: once it has ended
      it stays ended as time moves on, and it is running at any earlier
      instant at which it is running later. */
  lemma InGcdUntilReady(p: Player, now: Timespan, later: Timespan)
    requires now.LessEq(later)
    ensures p.InGcd(now) <==> now.Less(p.gcdReady)
    ensures !p.InGcd(now) ==> !p.InGcd(later)
    ensures p.InGcd(later) ==> p.InGcd(now)
    ensures !p.InGcd(p.gcdReady)
  {
  }
}
