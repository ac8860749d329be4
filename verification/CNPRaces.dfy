/** A reconcile pass with other writers: between the listing of the managed policies and the last of its
    calls, anybody may create, change or delete any NetworkPolicy.
 */
module CNPRaces {
  import opened NetworkPolicies
  import opened CNPController
  import opened Wrappers

  /** The keys a pass still has to deal with shrink, those written by others since the listing grow. */
  datatype State = State(objects: Objects, done: set<Key>, touched: set<Key>, failed: bool)

  datatype Step = Foreign(key: Key, written: Option<NetworkPolicy>) | Act(key: Key) | Fail

  ghost function Listed(before: Objects): Objects {
    map k | k in before && Managed(before[k]) :: before[k]
  }

  /** Desired keys are created or updated, the other listed ones deleted, in whatever order. */
  ghost predicate Enabled(before: Objects, desired: Objects, s: State, step: Step) {
    match step
    case Foreign(_, _) => true
    case Act(k) => !s.failed && k in desired.Keys + Listed(before).Keys && k !in s.done
    case Fail => true
  }

  ghost function Apply(before: Objects, desired: Objects, s: State, step: Step): State
    requires Enabled(before, desired, s, step)
  {
    match step
    case Foreign(k, written) =>
      s.(objects := if written.Some? then s.objects[k := written.value] else s.objects - {k}, touched := s.touched + {k})
    case Act(k) =>
      if Stale(Listed(before), desired, s.objects, k) then s.(failed := true)
      else s.(objects := Acted(Listed(before), desired, s.objects, k), done := s.done + {k})
    case Fail => s.(failed := true)
  }

  ghost predicate IsRun(before: Objects, desired: Objects, states: seq<State>, steps: seq<Step>) {
    && |states| == |steps| + 1 && states[0] == State(before, {}, {}, false)
    && forall i | 0 <= i < |steps| ::
         Enabled(before, desired, states[i], steps[i]) && states[i + 1] == Apply(before, desired, states[i], steps[i])
  }

  /** Keys no other writer has touched are as before, or as a complete pass would leave them once done. */
  ghost predicate Undisturbed(before: Objects, desired: Objects, s: State) {
    && s.done <= desired.Keys + Listed(before).Keys
    && forall k | k !in s.touched ::
         if k in s.done then HoldsReached(before, desired, s.objects, k) else Unchanged(before, s.objects, k)
  }

  lemma ActKeeps(before: Objects, desired: Objects, s: State, k: Key)
    requires Undisturbed(before, desired, s) && Enabled(before, desired, s, Act(k))
    ensures Undisturbed(before, desired, Apply(before, desired, s, Act(k)))
  {
    var s' := Apply(before, desired, s, Act(k));
    forall other | other !in s'.touched && other != k && !s'.failed
      ensures Unchanged(s.objects, s'.objects, other)
    {
    }
  }

  lemma {:induction false} RunUndisturbed(before: Objects, desired: Objects, states: seq<State>, steps: seq<Step>)
    requires IsRun(before, desired, states, steps)
    ensures Undisturbed(before, desired, states[|steps|])
  {
    if steps != [] {
      var n := |steps| - 1;
      RunUndisturbed(before, desired, states[..n + 1], steps[..n]);
      if steps[n].Act? {
        ActKeeps(before, desired, states[n], steps[n].key);
      }
    }
  }

  /** A pass that deals with every key leaves each key nobody else wrote as the undisturbed pass would,
      whatever the others did elsewhere and in whatever order.
   */
  lemma RaceReconciles(before: Objects, desired: Objects, states: seq<State>, steps: seq<Step>, k: Key)
    requires IsRun(before, desired, states, steps) && states[|steps|].done == desired.Keys + Listed(before).Keys
    requires k !in states[|steps|].touched
    ensures Unchanged(Reconciled(before, desired), states[|steps|].objects, k)
  {
    RunUndisturbed(before, desired, states, steps);
    assert k in states[|steps|].done ==> HoldsReached(before, desired, states[|steps|].objects, k);
  }

  /** A pass writes over a policy of somebody else exactly when it deletes: creating finds the key taken,
      updating finds a conflict, but deleting goes by the name alone.
   */
  lemma OverwritesExactly(before: Objects, desired: Objects, s: State, k: Key)
    requires Enabled(before, desired, s, Act(k)) && k in s.objects && !Managed(s.objects[k])
    ensures !Unchanged(s.objects, Apply(before, desired, s, Act(k)).objects, k) <==> k !in desired
  {
  }

  /** An orphan that is replaced between the listing and the deletion by a policy of somebody else takes
      that policy with it.
   */
  lemma DeleteHitsReplacement(orphan: NetworkPolicy, other: NetworkPolicy)
    requires Managed(orphan) && !Managed(other) && KeyOf(other) == KeyOf(orphan)
    ensures
      var k, before := KeyOf(orphan), map[KeyOf(orphan) := orphan];
      var steps := [Foreign(k, Some(other)), Act(k)];
      exists states: seq<State> :: IsRun(before, map[], states, steps) && states[1].objects == map[k := other] && states[2].objects == map[]
  {
    var k, before := KeyOf(orphan), map[KeyOf(orphan) := orphan];
    var s0 := State(before, {}, {}, false);
    var s1 := Apply(before, map[], s0, Foreign(k, Some(other)));
    assert k in Listed(before);
    var s2 := Apply(before, map[], s1, Act(k));
    assert s1.objects == map[k := other];
    assert IsRun(before, map[], [s0, s1, s2], [Foreign(k, Some(other)), Act(k)]);
  }
}
