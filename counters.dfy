/** Small counters the simulator updates as it runs: benefit_t's up/down
    tally, the benefit sample every buff_t accessor except check() records,
    and sequence_t's restart guard. */
module Benefits {

  class Benefit {
    var up: int
    var down: int

    constructor ()
      ensures up == 0 && down == 0
    {
      up := 0;
      down := 0;
    }

    /** update( is_up ): any non-zero argument counts as up. */
    method Update(isUp: int)
      modifies this
      ensures up == old(up) + (if isUp != 0 then 1 else 0)
      ensures down == old(down) + (if isUp != 0 then 0 else 1)
    {
      if isUp != 0 {
        up := up + 1;
      } else {
        down := down + 1;
      }
    }

    /** merge( other ): add the other tally to this one (other may be this
        very object, which then doubles). */
    method Merge(other: Benefit)
      modifies this
      ensures up == old(up) + old(other.up) && down == old(down) + old(other.down)
    {
      up := up + other.up;
      down := down + other.down;
    }
  }
}

module Buffs {

  class Buff {
    var currentStack: int
    var currentValue: real
    var upCount: int
    var downCount: int

    /** check(): the stack count, read without recording a sample (it is a
        function, so it cannot change the counters). */
    function Check(): (r: int)
      reads this
    {
      currentStack
    }

    /** One benefit sample: up exactly when the buff has a stack. */
    twostate predicate SampledOnce()
      reads this
    {
      && upCount == old(upCount) + (if currentStack > 0 then 1 else 0)
      && downCount == old(downCount) + (if currentStack > 0 then 0 else 1)
      && currentStack == old(currentStack) && currentValue == old(currentValue)
    }

    method Up() returns (r: bool)
      modifies this
      ensures SampledOnce()
      ensures r <==> Check() > 0
    {
      if currentStack > 0 { upCount := upCount + 1; } else { downCount := downCount + 1; }
      r := currentStack > 0;
    }

    method Stack() returns (r: int)
      modifies this
      ensures SampledOnce()
      ensures r == Check()
    {
      if currentStack > 0 { upCount := upCount + 1; } else { downCount := downCount + 1; }
      r := currentStack;
    }

    method Value() returns (r: real)
      modifies this
      ensures SampledOnce()
      ensures r == currentValue
    {
      if currentStack > 0 { upCount := upCount + 1; } else { downCount := downCount + 1; }
      r := currentValue;
    }
  }
}

module Sequences {
  import opened Time

  class Sequence {
    var currentAction: int
    var restarted: bool
    var lastRestart: Timespan

    /** can_restart(): never restarted, or the last restart lies more than
        one millisecond in the past. */
    function CanRestart(now: Timespan): (r: bool)
      reads this
    {
      !restarted || lastRestart.Add(FromMillis(1)).Less(now)
    }

    /** restart(): back to the first sub-action, and no further restart
        until more than 1 ms has passed. */
    method Restart(now: Timespan)
      modifies this
      ensures currentAction == 0 && restarted && lastRestart == now
      ensures forall t: Timespan :: CanRestart(t) <==> now.Add(FromMillis(1)).Less(t)
    {
      currentAction := 0;
      restarted := true;
      lastRestart := now;
    }
  }

  /** Once a sequence may restart, it may at every later time too. */
  lemma CanRestartStaysTrue(sq: Sequence, now: Timespan, later: Timespan)
    requires sq.CanRestart(now) && now.LessEq(later)
    ensures sq.CanRestart(later)
  {
  }
}
