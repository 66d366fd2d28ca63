/** action_callback_t::trigger( v, a ): run every active callback of a
    list, in order, unless the action is one the callbacks may not react to.
    The callbacks' own trigger() bodies are virtual and not modelled: the
    result is the ordered list of positions whose trigger() gets called. */
module Callbacks {
  import opened Wrappers

  datatype ActionCallback = ActionCallback(
    active: bool,
    allowSelfProcs: bool,
    allowItemProcs: bool,
    allowProcs: bool)

  /** What trigger() reads of an action: its owner's combat state and
      whether the action is itself an item proc or a proc. */
  datatype Action = Action(playerInCombat: bool, itemProc: bool, proc: bool)

  /** An active callback that refuses this action ends the whole dispatch. */
  predicate Stops(cb: ActionCallback, a: Option<Action>)
  {
    cb.active && a.Some? &&
      ((!cb.allowItemProcs && a.value.itemProc) || (!cb.allowProcs && a.value.proc))
  }

  /** Dispatch happens at all: there is no action, or its owner is in
      combat. */
  predicate Eligible(a: Option<Action>)
  {
    a.None? || a.value.playerInCombat
  }

  /** Position k is reached and its callback is called. */
  predicate Reached(v: seq<ActionCallback>, a: Option<Action>, k: int)
  {
    0 <= k < |v| && v[k].active && forall j :: 0 <= j <= k ==> !Stops(v[j], a)
  }

  method Trigger(v: seq<ActionCallback>, a: Option<Action>) returns (fired: seq<nat>)
    ensures !Eligible(a) ==> fired == []
    ensures forall x, y :: 0 <= x < y < |fired| ==> fired[x] < fired[y]
    ensures forall k :: k in fired <==> Eligible(a) && Reached(v, a, k)
  {
    fired := [];
    if a.Some? && !a.value.playerInCombat {
      return;
    }
    var size := |v|;
    var i := 0;
    while i < size
      invariant 0 <= i <= size
      invariant forall x, y :: 0 <= x < y < |fired| ==> fired[x] < fired[y]
      invariant forall x :: 0 <= x < |fired| ==> fired[x] < i
      invariant forall j :: 0 <= j < i ==> !Stops(v[j], a)
      invariant forall k :: k in fired <==> 0 <= k < i && Reached(v, a, k)
    {
      var cb := v[i];
      if cb.active {
        if !cb.allowItemProcs && a.Some? && a.value.itemProc {
          assert Stops(v[i], a);
          return;
        }
        if !cb.allowProcs && a.Some? && a.value.proc {
          assert Stops(v[i], a);
          return;
        }
        fired := fired + [i];
      }
      i := i + 1;
    }
  }

  /** The dispatch never skips: the callbacks called are the active ones of
      a prefix of the list, the prefix ending just before the first active
      callback that refuses the action. */
  lemma ReachedIsPrefix(v: seq<ActionCallback>, a: Option<Action>, k: int, m: int)
    requires Reached(v, a, k) && 0 <= m < k && v[m].active
    ensures Reached(v, a, m)
  {
  }
}
