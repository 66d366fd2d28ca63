# Discrete-event bookkeeping of the SimulationCraft engine, in Dafny

SimulationCraft is a Monte-Carlo combat simulator: it replays scripted
character actions against targets over many randomized iterations, driven
by a time-ordered event queue. This project models the bookkeeping whose
code is written inline in `engine/simulationcraft.hpp`:

- **Time** (`timespan_t`, integer build): a signed count of milliseconds
  with exact arithmetic, orderings, unit conversions, `zero`/`min`/`max`,
  and C++ truncating division by an integer.
- **Events** (`event_t`): the effective firing time (`occurs`), the time
  left (`remains`), and `cancel`, which marks the event and nulls the
  caller's handle.
- **Cooldowns** (`cooldown_t` and its nested `recharge_event_t`): a pure
  state machine in `CooldownModel` and the in-place class
  `Cooldowns.Cooldown`. Each method of the class is proved to move its
  abstract `State()` exactly as the matching model function does. The
  charge invariant is proved about the model: `1 <= charges`,
  `0 <= current_charge <= charges`, and a recharge pending exactly while
  charges are missing. So are single-call facts and whole sequences. One
  sequence drains n charges at one instant, then fires n recharges; the
  last one fires n durations later and leaves the cooldown full with
  nothing pending.
- **Uptime** (`uptime_common_t`): open/close bookkeeping of up-intervals,
  as a model (`UptimeModel`) and a class (`Uptimes.Uptime`). A lemma over
  whole observation traces shows the summed uptime never exceeds the
  elapsed time.
- **Target-specific slots**: the registry behind
  `sim_t::target_specific_index`, which is lookup-or-append, and
  `target_specific_t`, whose `operator[]` grows a target's slot vector with
  NULLs.
- **Callback dispatch** (`action_callback_t::trigger`): which callbacks of
  a list are called, and in what order.
- **Small counters**: `benefit_t::update/merge`, the benefit sample that
  `buff_t::up/stack/value` record (and `check` does not), the
  `sequence_t::restart/can_restart` guard, and `player_t::in_gcd`.

The simulation clock (`sim->current_time`) and the owner's reaction time
(`player->total_reaction_time()`) are parameters named `now` and
`reaction`. The event queue is only declared in the header. A scheduled
event is therefore modelled as an `Events.Event` stamped with
`now + delta`, which is what `sim_t::add_event` is used for. A pending
recharge is the cooldown's `rechargeEvent` object. The model sees it
through its scheduled `time`, because that is the field `start()` reads
back. `cooldown_t::remains()` is `CooldownModel.Remains` applied to
`Cooldown.State()`. `buff_t::check()` is the reads-only function
`Buffs.Buff.Check`.

Behaviour as written that is worth knowing:
- In the integer build that this model follows, time is a whole number
  of milliseconds.
- `start()` on a single-charge cooldown does not touch `current_charge`:
  it only moves `ready`.
- The first recharge is armed `duration + delay` after the start that
  leaves full charges. Every later one is armed `duration` after the
  previous recharge fires, not after the last charge was spent.
- `adjust()` resets a cooldown, restoring every charge, whenever the
  shifted ready time is not after `now`. A multi-charge cooldown that still
  has a charge keeps its ready time at `ready_init()` or 1 ms after a
  recharge, unless an earlier `adjust()` moved it. So almost any
  adjustment of such a cooldown refills it at once
  (`CooldownModel.AdjustResetsIffReady`).
- A cooldown built for the simulator alone (`cooldown_t( name, sim )`)
  has no owning player. An early reset, an adjustment that resets, and the
  first start of a multi-charge cooldown all reach the owner, so such a
  cooldown must not take those paths. `Cooldowns.Cooldown` carries the
  owner as `owned` and requires it on exactly those paths.
- In `action_callback_t::trigger`, the first active callback that refuses
  a proc or item-proc action ends the whole dispatch. Later callbacks that
  would accept the action are not called either.

## Model

| member | source | states |
|---|---|---|
| Time.Timespan.TotalMillis | engine/simulationcraft.hpp:1180 | `total_millis()` is the stored count itself; the round trip with `from_millis` is `Time.MillisRoundTrip` |
| Time.FromMillis | engine/simulationcraft.hpp:1182-1184 | `total_millis()` of the result is the argument |
| Time.FromSeconds | engine/simulationcraft.hpp:1186-1188 | an integral number of seconds is 1000 milliseconds each; the relation is `Time.UnitConversions` |
| Time.FromMinutes | engine/simulationcraft.hpp:1190-1192 | an integral number of minutes is 60000 milliseconds each; the relation is `Time.UnitConversions` |
| Time.Timespan.Less | engine/simulationcraft.hpp:1199 | `<` compares the stored counts; `Time.CompareAgreesWithNative` relates all orderings |
| Time.Timespan.LessEq | engine/simulationcraft.hpp:1200 | `<=` compares the stored counts; `Time.CompareAgreesWithNative` shows it is `<` or `==` |
| Time.Timespan.Greater | engine/simulationcraft.hpp:1197 | `>` compares the stored counts; `Time.CompareAgreesWithNative` shows it is `<` reversed |
| Time.Timespan.GreaterEq | engine/simulationcraft.hpp:1198 | `>=` compares the stored counts; `Time.CompareAgreesWithNative` shows it is the negation of `<` |
| Time.Timespan.Add | engine/simulationcraft.hpp:1234-1235 | `+`: subtracting either operand from the sum gives the other back |
| Time.Timespan.Sub | engine/simulationcraft.hpp:1237-1238 | `-` subtracts the stored counts; `Time.AdditiveGroup` shows it undoes `+` and equals adding the negation |
| Time.Timespan.Neg | engine/simulationcraft.hpp:1231-1232 | unary `-` gives the additive inverse: the sum with the operand is `zero()` on both sides |
| Time.Timespan.Scale | engine/simulationcraft.hpp:1240-1243 | `*` by an integer multiplies the count; `Time.RepeatedIsScale` shows it is repeated addition |
| Time.Timespan.Div | engine/simulationcraft.hpp:1250-1253 | `/` by a non-zero integer truncates toward zero: quotient times divisor is within one divisor of the dividend, never beyond it in magnitude, and has its sign |
| Time.Zero | engine/simulationcraft.hpp:1263 | `zero()` is the identity of `+` |
| Time.Max | engine/simulationcraft.hpp:1264 | `max()` fits int64 and is at least every span that does |
| Time.Min | engine/simulationcraft.hpp:1265-1271 | `min()` of the integer build fits int64 and is at most every span that does |
| Time.MillisRoundTrip | engine/simulationcraft.hpp:1180-1184 | `from_millis(n).total_millis() == n`, and `from_millis(t.total_millis()) == t` |
| Time.UnitConversions | engine/simulationcraft.hpp:1186-1192 | `from_seconds(n)` is `from_millis(1000 n)`; `from_minutes(n)` is `from_seconds(60 n)` |
| Time.CompareAgreesWithNative | engine/simulationcraft.hpp:1194-1200 | `==`, `<`, `<=`, `>`, `>=` agree with the stored integer and form a total order |
| Time.AdditiveGroup | engine/simulationcraft.hpp:1202-1238 | `zero()` is the identity of `+` and `-`; `+` is commutative and associative; `-` undoes `+`; subtraction is adding the negation; negation is an involution |
| Time.AddMonotone | engine/simulationcraft.hpp:1234-1238 | adding the same span to both sides preserves `<` and `<=` |
| Time.Extremes | engine/simulationcraft.hpp:1263-1271 | `min() < zero() < max()`, both extremes fit int64, a span is representable iff it lies between them, and `-max() == min() + 1 ms` |
| Time.TruncDivBounds | engine/simulationcraft.hpp:1250-1253 | integer division of a span truncates toward zero: quotient times divisor is within one divisor of the dividend, never beyond it, and has the dividend's sign |
| Time.ScaleDivRoundTrip | engine/simulationcraft.hpp:1240-1253 | `(t * d) / d == t` for every non-zero integer `d` |
| Time.RepeatedIsScale | engine/simulationcraft.hpp:1240-1243 | `k` copies of a span added end to end equal the span times `k` |
| Events.Event.Scheduled | engine/simulationcraft.hpp:4334-4338 | a newly scheduled event fires at `now + delta`, is not rescheduled and not canceled |
| Events.Event.Occurs | engine/simulationcraft.hpp:2701 | the effective time is the rescheduled time when that is non-zero, otherwise the scheduled time |
| Events.Event.Remains | engine/simulationcraft.hpp:2702 | `now + remains(now) == occurs()`; the result is negative exactly when the event is overdue |
| Events.Event.Cancel | engine/simulationcraft.hpp:2709-2710 | the caller's handle is null afterwards; a non-null event is marked canceled and keeps its times; a null handle touches nothing |
| Events.OccursIsRescheduledOrScheduled | engine/simulationcraft.hpp:2701 | the effective time is one of the two stored times, and differs from the rescheduled time only when that is zero |
| CooldownModel.ReadyInit | engine/simulationcraft.hpp:4415-4416 | `ready_init()` is one hour before time zero; `CooldownModel.Initial` and `CooldownModel.ResetMakesReady` show a cooldown with this ready time is ready from then on |
| CooldownModel.NewDuration | engine/simulationcraft.hpp:4381 | the duration `start()` goes on with: the override when it is non-negative, otherwise the stored duration; `CooldownModel.StartWithoutDuration` states its effect |
| CooldownModel.Initial | engine/simulationcraft.hpp:4357-4360 | a new cooldown satisfies the charge invariant, is full, and has nothing remaining at any time from `ready_init()` on |
| CooldownModel.Remains | engine/simulationcraft.hpp:4406-4411 | `remains()` is never negative, is zero iff `ready <= now`, and otherwise reaches `ready` from `now` |
| CooldownModel.Reset | engine/simulationcraft.hpp:4369-4378 | reset restores all charges and leaves no recharge pending; it establishes the charge invariant whenever `charges >= 1` |
| CooldownModel.Start | engine/simulationcraft.hpp:4379-4405 | `start()` preserves the charge invariant |
| CooldownModel.Recharge | engine/simulationcraft.hpp:4340-4353 | `recharge_event_t::execute()` preserves the charge invariant |
| CooldownModel.Adjust | engine/simulationcraft.hpp:4362-4368 | `adjust()` preserves the charge invariant |
| CooldownModel.ResetMakesReady | engine/simulationcraft.hpp:4369-4378 | after reset nothing remains at any time from `ready_init()` on; `reset_react` is `now + reaction` for an early reset and zero otherwise |
| CooldownModel.StartSingleCharge | engine/simulationcraft.hpp:4400-4403 | single charge, positive duration: `ready = now + duration + delay`, so `remains()` is `duration + delay` for a non-negative delay; charges and recharge untouched |
| CooldownModel.StartWithoutDuration | engine/simulationcraft.hpp:4379-4383 | with a duration `<= 0`, `start()` only clears `reset_react` and records a non-negative override |
| CooldownModel.StartMultiCharge | engine/simulationcraft.hpp:4385-4399 | several charges: one charge is spent; a recharge at `now + duration + delay` is armed iff the cooldown was full; an existing one is kept; `ready` moves only on spending the last charge, to the pending recharge's time + 1 ms |
| CooldownModel.RechargeRearmsIffMissing | engine/simulationcraft.hpp:4340-4353 | a recharge adds one charge and re-arms at `now + duration` iff charges are still missing; `ready` is untouched |
| CooldownModel.AdjustResetsIffReady | engine/simulationcraft.hpp:4362-4368 | `adjust(a)` does an early reset (`reset_react = now + reaction`) exactly when `ready + a <= now`; otherwise only `ready` moves and time remains |
| CooldownModel.StartRepeated | engine/simulationcraft.hpp:4379-4405 | k starts at one instant keep the invariant and spend exactly k charges |
| CooldownModel.FireRecharges | engine/simulationcraft.hpp:4340-4353 | k recharges, each fired at its scheduled time, keep the invariant and return exactly k charges |
| CooldownModel.StartRepeatedFromFull | engine/simulationcraft.hpp:4385-4399 | draining a full cooldown arms one recharge at `now + duration + delay`; `ready` stays put until the last charge goes, then sits 1 ms after that recharge |
| CooldownModel.FireRechargesSchedule | engine/simulationcraft.hpp:4340-4353 | after k recharges the next one is pending k durations after the first, until the cooldown is full and none is |
| CooldownModel.ChargeCycle | engine/simulationcraft.hpp:4334-4404 | n charges spent at `now` leave 0 charges and one recharge at `now + duration`; the n-th recharge fires at `now + n * duration` and leaves n charges with nothing pending |
| Cooldowns.Cooldown.constructor | engine/simulationcraft.hpp:4357-4360 | either constructor: the new object's state is `CooldownModel.Initial()`, it is valid, and it has an owner iff built for a player |
| Cooldowns.Cooldown.Reset | engine/simulationcraft.hpp:4369-4378 | an early reset needs an owner; the state moves as `CooldownModel.Reset`; the old recharge event is canceled and the handle nulled; valid whenever `charges >= 1` |
| Cooldowns.Cooldown.Adjust | engine/simulationcraft.hpp:4362-4368 | a resetting adjustment needs an owner; the state moves as `CooldownModel.Adjust`; validity is kept; a replaced recharge event is canceled and the handle nulled, a kept one is untouched |
| Cooldowns.Cooldown.Start | engine/simulationcraft.hpp:4379-4405 | under the source's two asserts, and with an owner when a recharge gets scheduled, the state moves as `CooldownModel.Start`; validity is kept; a changed recharge event is a new one |
| Cooldowns.Cooldown.ExecuteRecharge | engine/simulationcraft.hpp:4340-4353 | under the source's assert `current_charge < charges`, and with an owner when re-arming, the state moves as `CooldownModel.Recharge`; validity is kept |
| UptimeModel.Initial | engine/simulationcraft.hpp:4695-4697 | the constructor's state; `UptimeModel.UptimeWithinElapsed` starts from it |
| UptimeModel.Update | engine/simulationcraft.hpp:4699-4711 | `update(false)` leaves no interval open; `update(true)` at a non-negative time leaves one open; closing an interval no earlier than its start never lowers the sum; with none open the sum is unchanged |
| UptimeModel.Reset | engine/simulationcraft.hpp:4719 | `reset()` leaves no interval open and the sum unchanged |
| UptimeModel.UpdateUpIdempotent | engine/simulationcraft.hpp:4699-4705 | `update(true)` opens an interval at `now` only if none is open, so repeating it changes nothing |
| UptimeModel.UpdateDownCloses | engine/simulationcraft.hpp:4706-4711 | `update(false)` closes an open interval and adds exactly `now - last_start` to the sum; with none open it changes nothing |
| UptimeModel.RunBounded | engine/simulationcraft.hpp:4699-4711 | over a chronological trace the sum never decreases and stays within the latest observation time, or within the start of an open interval |
| UptimeModel.UptimeWithinElapsed | engine/simulationcraft.hpp:4699-4717 | from a fresh tracker, the summed uptime is non-negative and at most the time of the last observation, so the ratio `combat_end()` samples is at most one |
| Uptimes.Uptime.constructor | engine/simulationcraft.hpp:4695-4697 | no interval open, nothing summed |
| Uptimes.Uptime.Update | engine/simulationcraft.hpp:4699-4711 | the state moves as `UptimeModel.Update` |
| Uptimes.Uptime.Reset | engine/simulationcraft.hpp:4719 | an open interval is dropped without being counted |
| Actors.Player.InGcd | engine/simulationcraft.hpp:3677 | `in_gcd()` compares `gcd_ready` with the clock; `Actors.InGcdUntilReady` states when it holds |
| Actors.InGcdUntilReady | engine/simulationcraft.hpp:3677 | `in_gcd()` holds exactly before `gcd_ready`; once over it stays over as time advances |
| TargetSpecifics.Find | engine/simulationcraft.hpp:2563-2567 | the lookup returns the first position registered under (name, source), or none when no entry matches |
| TargetSpecifics.Register | engine/simulationcraft.hpp:2561-2570 | the returned index names an entry of that (name, source); old entries are kept; at most one is appended, exactly when no entry of the pair exists, and otherwise the index is an existing one |
| TargetSpecifics.FindAppend | engine/simulationcraft.hpp:2561-2570 | appending an entry never changes an existing lookup result, and a lookup that found nothing finds the new entry iff it matches |
| TargetSpecifics.RegisterFindsOrAppends | engine/simulationcraft.hpp:2561-2570 | the returned index names an entry of that (name, source) recording its own position; the registry only grows, by at most one entry, and no pair is registered twice |
| TargetSpecifics.RegisterIdempotent | engine/simulationcraft.hpp:2561-2570 | asking again for the same pair returns the same index and adds nothing |
| TargetSpecifics.Grown | engine/simulationcraft.hpp:5109-5117 | the grown vector reaches `index`, keeps every old slot, and every new slot is NULL |
| TargetSpecifics.Sim.TargetSpecificIndex | engine/simulationcraft.hpp:2561-2570 | returns the index and leaves the registry exactly as `Register` describes |
| TargetSpecifics.TargetSpecific.constructor | engine/simulationcraft.hpp:5099-5102 | the object's index is the one the registry hands out for (name, source) |
| TargetSpecifics.TargetSpecific.Init | engine/simulationcraft.hpp:5103-5106 | the same lookup, for an object already built |
| TargetSpecifics.TargetSpecific.Grow | engine/simulationcraft.hpp:5109-5117 | the target's vector becomes `Grown(old vector, index)`; no other field of the target changes |
| TargetSpecifics.TargetSpecific.Get | engine/simulationcraft.hpp:5107-5118 | reading through `operator[]`: grows the vector and returns the slot at `index`, which is NULL if it was just created; no other field of the target changes |
| TargetSpecifics.TargetSpecific.Set | engine/simulationcraft.hpp:5107-5118 | writing through `operator[]`: grows the vector and changes only the slot at `index`; no other field of the target changes |
| Callbacks.Trigger | engine/simulationcraft.hpp:4480-4495 | nothing is called for an action whose owner is out of combat; otherwise the called positions, in increasing order, are exactly the active callbacks before the first active callback that refuses the action |
| Callbacks.ReachedIsPrefix | engine/simulationcraft.hpp:4486-4494 | every active callback before a called one is called too |
| Benefits.Benefit.constructor | engine/simulationcraft.hpp:4668-4670 | both counts start at zero |
| Benefits.Benefit.Update | engine/simulationcraft.hpp:4672 | a non-zero argument adds one to `up`, zero adds one to `down` |
| Benefits.Benefit.Merge | engine/simulationcraft.hpp:4682-4683 | both counts become the sums of the two tallies, including when merging an object into itself |
| Buffs.Buff.Check | engine/simulationcraft.hpp:1895 | `check()` is the stack count and, being a function, records no sample; `Up`, `Stack` and `Value` are stated against it |
| Buffs.Buff.Up | engine/simulationcraft.hpp:1896 | records one benefit sample, up iff the buff has a stack, and returns whether it has one |
| Buffs.Buff.Stack | engine/simulationcraft.hpp:1897 | records one benefit sample and returns the stack count |
| Buffs.Buff.Value | engine/simulationcraft.hpp:1898 | records one benefit sample and returns the current value |
| Sequences.Sequence.CanRestart | engine/simulationcraft.hpp:4312-4313 | never restarted, or restarted more than 1 ms before `now`; `Restart` and `CanRestartStaysTrue` state its behaviour |
| Sequences.Sequence.Restart | engine/simulationcraft.hpp:4311 | back to the first sub-action; afterwards `can_restart(t)` holds exactly for `t` more than 1 ms after the restart |
| Sequences.CanRestartStaysTrue | engine/simulationcraft.hpp:4312-4313 | once a sequence may restart it may at every later time |

## Left out

- The event queue (`sim_t::add_event`, `reschedule_event`, `next_event`, `flush_events`) and the event free list are only declared in the header. Scheduling is modelled as stamping `now + delta`; ordering, execution and memory reuse are not modelled.
- `event_t::early` and `event_t::reschedule` are not modelled: the bodies they call are not in the header.
- `Events.Event.Cancel`: the private `cancel_` it calls is not in the header; the model marks the event canceled and nothing more. Any per-player event counting is not modelled.
- Time.UnitConversions: the integer-time arithmetic is exact, and no overflow is modelled. This covers int64 overflow, which the source trusts never to happen, and the narrower overflow of `from_seconds`/`from_minutes` with an `int` argument. Those multiply in `int` (`t * 1000`, `t * ( 60 * 1000 )`), which overflows 32 bits beyond about 24.8 days. `Time.UnitConversions`, `Time.FromSeconds` and `Time.FromMinutes` hold for every integer. Only `min()` and `max()` carry the int64 limits.
- Floating-point parts: `total_seconds`/`total_minutes`, `from_seconds` with a fractional argument, `operator*` and `operator/` with a floating factor, timespan-by-timespan division, `benefit_t::analyze`, `uptime_common_t::combat_end`'s sample, and the floating-point `timespan_t` build.
- `Buffs.Buff.Value` returns the stored value as a Dafny `real`; no floating-point arithmetic is done on it.
- Callbacks' own `trigger()` bodies are virtual and unseen. The model reports which positions are called, not what the calls do. In particular it does not model a callback that deactivates another during dispatch.
- `target_specific_t`'s default constructor, which leaves the index at `(size_t)-1`, is not modelled: the index is a `nat` set by the constructor or `init`.
- `action_callback_t::reset`, `activate` and `deactivate` run virtual code or only assign `active`; they are not modelled.
- The scheduler's own check against negative delays is not modelled. `start()` with a negative delay therefore schedules into the past without complaint here.
- `charges` and `duration` of a cooldown are public fields that other code assigns directly. `Cooldown.Valid()` holds again only after the next `Reset`; this is why `Reset` promises validity only for `charges >= 1`.
