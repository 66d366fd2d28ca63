/** Target-specific data slots. The simulator hands every (name, source)
    pair a slot index once (sim_t::target_specific_index); a
    target_specific_t remembers its index and, given a target, reaches the
    target's slot at that index, growing the target's vector with NULLs on
    demand (target_specific_t::operator[]). */
module TargetSpecifics {
  import opened Wrappers
  import opened Actors

  datatype Entry = Entry(index: nat, name: string, source: Player)

  predicate Matches(e: Entry, name: string, source: Player)
  {
    e.name == name && e.source == source
  }

  /** The first position at or after `from` registered under (name, source). */
  function Find(entries: seq<Entry>, name: string, source: Player, from: nat): (r: Option<nat>)
    requires from <= |entries|
    ensures r.Some? ==> from <= r.value < |entries| && Matches(entries[r.value], name, source)
    ensures r.Some? ==> forall j :: from <= j < r.value ==> !Matches(entries[j], name, source)
    ensures r.None? ==> forall j :: from <= j < |entries| ==> !Matches(entries[j], name, source)
    decreases |entries| - from
  {
    if from == |entries| then None
    else if Matches(entries[from], name, source) then Some(from)
    else Find(entries, name, source, from + 1)
  }

  /** The registry's shape: each entry records its own position, and no
      (name, source) pair is registered twice. */
  predicate WellFormed(entries: seq<Entry>)
  {
    && (forall i :: 0 <= i < |entries| ==> entries[i].index == i)
    && (forall i, j :: 0 <= i < j < |entries| ==> !Matches(entries[j], entries[i].name, entries[i].source))
  }

  /** target_specific_index( name, source ) on a registry: the index and the
      registry afterwards. */
  function Register(entries: seq<Entry>, name: string, source: Player): (r: (nat, seq<Entry>))
    ensures r.0 < |r.1| && Matches(r.1[r.0], name, source)
    ensures |entries| <= |r.1| <= |entries| + 1 && r.1[..|entries|] == entries
    ensures |r.1| == |entries| ==> r.0 < |entries|
    ensures |r.1| > |entries| <==> forall j :: 0 <= j < |entries| ==> !Matches(entries[j], name, source)
  {
    match Find(entries, name, source, 0)
    case Some(i) => (i, entries)
    case None => (|entries|, entries + [Entry(|entries|, name, source)])
  }

  /** Registering returns a slot of that pair, only ever appends, and keeps
      the registry well formed. */
  lemma RegisterFindsOrAppends(entries: seq<Entry>, name: string, source: Player)
    requires WellFormed(entries)
    ensures var (i, after) := Register(entries, name, source);
      && i < |after| && Matches(after[i], name, source) && after[i].index == i
      && after[..|entries|] == entries
      && |after| <= |entries| + 1
      && WellFormed(after)
  {
    var (i, after) := Register(entries, name, source);
    if Find(entries, name, source, 0).None? {
      assert after[..|entries|] == entries;
      forall a, b | 0 <= a < b < |after|
        ensures !Matches(after[b], after[a].name, after[a].source)
      {
        if b == |entries| {
          assert !Matches(entries[a], name, source);
        } else {
          assert after[a] == entries[a] && after[b] == entries[b];
        }
      }
    }
  }

  /** Finding on a registry with one more entry at the end. */
  lemma {:induction false} FindAppend(entries: seq<Entry>, e: Entry, name: string, source: Player, from: nat)
    requires from <= |entries|
    ensures Find(entries + [e], name, source, from) ==
      if Find(entries, name, source, from).Some? then Find(entries, name, source, from)
      else if Matches(e, name, source) then Some(|entries|)
      else None
    decreases |entries| - from
  {
    var grown := entries + [e];
    if from < |entries| {
      assert grown[from] == entries[from];
      FindAppend(entries, e, name, source, from + 1);
    }
  }

  /** Asking twice for the same pair gives the same index and registers
      nothing the second time. */
  lemma RegisterIdempotent(entries: seq<Entry>, name: string, source: Player)
    ensures var (i, after) := Register(entries, name, source);
      Register(after, name, source) == (i, after)
  {
    if Find(entries, name, source, 0).None? {
      FindAppend(entries, Entry(|entries|, name, source), name, source, 0);
    }
  }

  /** The target's slot vector after growing it to reach `index`: the old
      slots are kept and every new one is NULL. */
  function Grown(v: seq<Slot>, index: nat): (r: seq<Slot>)
    ensures |r| == if index < |v| then |v| else index + 1
    ensures r[..|v|] == v
    ensures forall k :: |v| <= k < |r| ==> r[k] == Null
  {
    if index < |v| then v else v + seq(index + 1 - |v|, _ => Null)
  }

  /** The part of sim_t that hands out target-specific indices. */
  class Sim {
    var targetSpecifics: seq<Entry>

    constructor ()
      ensures targetSpecifics == [] && WellFormed(targetSpecifics)
    {
      targetSpecifics := [];
    }

    method TargetSpecificIndex(name: string, source: Player) returns (index: nat)
      modifies this
      ensures (index, targetSpecifics) == Register(old(targetSpecifics), name, source)
    {
      var size := |targetSpecifics|;
      var i := 0;
      while i < size
        invariant 0 <= i <= size == |targetSpecifics|
        invariant targetSpecifics == old(targetSpecifics)
        invariant forall j :: 0 <= j < i ==> !Matches(targetSpecifics[j], name, source)
      {
        if targetSpecifics[i].name == name && targetSpecifics[i].source == source {
          return i;
        }
        i := i + 1;
      }
      targetSpecifics := targetSpecifics + [Entry(size, name, source)];
      index := size;
    }
  }

  class TargetSpecific {
    var index: nat

    constructor (name: string, source: Player, sim: Sim)
      modifies sim
      ensures (index, sim.targetSpecifics) == Register(old(sim.targetSpecifics), name, source)
    {
      var i := sim.TargetSpecificIndex(name, source);
      index := i;
    }

    /** init( name, source ): the same lookup for an already built object. */
    method Init(name: string, source: Player, sim: Sim)
      modifies this, sim
      ensures (index, sim.targetSpecifics) == Register(old(sim.targetSpecifics), name, source)
    {
      index := sim.TargetSpecificIndex(name, source);
    }

    /** The growing half of operator[]: resize the target's vector to
        index + 1 (new slots NULL) and NULL the slots below index again. */
    method Grow(target: Player)
      modifies target`targetSpecificPtrs
      ensures target.targetSpecificPtrs == Grown(old(target.targetSpecificPtrs), index)
    {
      var size := |target.targetSpecificPtrs|;
      if index >= size {
        target.targetSpecificPtrs := target.targetSpecificPtrs + seq(index + 1 - size, _ => Null);
        var i := size;
        while i < index
          invariant size <= i <= index
          invariant target.targetSpecificPtrs == Grown(old(target.targetSpecificPtrs), index)
        {
          target.targetSpecificPtrs := target.targetSpecificPtrs[i := Null];
          i := i + 1;
        }
      }
    }

    /** Reading through operator[]. */
    method Get(target: Player) returns (p: Slot)
      modifies target`targetSpecificPtrs
      ensures target.targetSpecificPtrs == Grown(old(target.targetSpecificPtrs), index)
      ensures p == target.targetSpecificPtrs[index]
      ensures index >= |old(target.targetSpecificPtrs)| ==> p == Null
    {
      Grow(target);
      p := target.targetSpecificPtrs[index];
    }

    /** Writing through operator[]: only this object's slot changes. */
    method Set(target: Player, p: Slot)
      modifies target`targetSpecificPtrs
      ensures target.targetSpecificPtrs == Grown(old(target.targetSpecificPtrs), index)[index := p]
    {
      Grow(target);
      target.targetSpecificPtrs := target.targetSpecificPtrs[index := p];
    }
  }
}
