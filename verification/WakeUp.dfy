/** The coalescing wake-up shared by the ClusterNetworkPolicy and LoadBalancer controllers
    (internal/agent/cnpcontroller.go, internal/agent/loadbalancercontroller.go).

    Informers update their caches and then notify; a notification puts a token into a channel that
    holds one; the Run loop takes the token and starts a pass, and the pass reads the caches one after
    the other. The machine interleaves these steps in every way. Versions count cache updates.
 */
module WakeUp {

  /** Where the Run loop is: waiting, or in a pass that has read the first `next` caches. */
  datatype Pc = Waiting | Reading(next: nat)

  datatype State = State(
    cache: seq<nat>,  // the version each informer's cache is at
    notifications: nat,  // events not yet handed to enqueue
    token: bool,  // the one slot of the queue channel
    pc: Pc,
    seen: seq<int>)  // the version the most recent read of each cache found, -1 before the first

  datatype Step =
    | CacheUpdate(i: nat)
    | Notify
    | Begin
    | Read
    | Finish
    | Abort

  ghost predicate WellFormed(s: State) {
    && |s.seen| == |s.cache|
    && (s.pc.Reading? ==> s.pc.next <= |s.cache|)
  }

  /** Run once the caches have synced: line by line, the enqueue before the loop left a token. */
  ghost predicate Init(s: State) {
    WellFormed(s) && s.token && s.pc == Waiting && forall i | 0 <= i < |s.seen| :: s.seen[i] == -1
  }

  ghost predicate Enabled(s: State, step: Step) {
    match step
    case CacheUpdate(i) => i < |s.cache|
    case Notify => s.notifications > 0
    case Begin => s.pc == Waiting && s.token
    case Read => s.pc.Reading? && s.pc.next < |s.cache|
    case Finish => s.pc == Reading(|s.cache|)
    case Abort => s.pc.Reading? && s.pc.next < |s.cache|
  }

  /** A pass finishes after its last read whether or not the writes that follow succeed; it is aborted
      when listing a cache fails, which leaves the caches after that one unread.
   */
  function Apply(s: State, step: Step): State
    requires WellFormed(s) && Enabled(s, step)
  {
    match step
    case CacheUpdate(i) => s.(cache := s.cache[i := s.cache[i] + 1], notifications := s.notifications + 1)
    case Notify => s.(notifications := s.notifications - 1, token := true)
    case Begin => s.(token := false, pc := Reading(0))
    case Read => s.(seen := s.seen[s.pc.next := s.cache[s.pc.next]], pc := Reading(s.pc.next + 1))
    case Finish => s.(pc := Waiting)
    case Abort => s.(pc := Waiting)
  }

  ghost predicate Newer(s: State, i: nat)
    requires WellFormed(s) && i < |s.cache|
  {
    s.seen[i] < s.cache[i]
  }

  /** A cache newer than its last read has a notification or the token pending, or a pass that has
      yet to read it.
   */
  ghost predicate NoLostWakeUp(s: State) {
    && WellFormed(s)
    && forall i: nat | i < |s.cache| && Newer(s, i) ::
         s.notifications > 0 || s.token || (s.pc.Reading? && s.pc.next <= i)
  }

  lemma InitHolds(s: State)
    requires Init(s)
    ensures NoLostWakeUp(s)
  {
  }

  /** Every step keeps the invariant, except an Abort that leaves a newer cache unread with nothing
      pending: exactly then the wake-up is lost.
   */
  lemma StepKeeps(s: State, step: Step)
    requires NoLostWakeUp(s) && Enabled(s, step)
    ensures NoLostWakeUp(Apply(s, step)) <==>
              !(step == Abort && s.notifications == 0 && !s.token
                && exists i: nat | i < |s.cache| :: Newer(s, i) && s.pc.next <= i)
  {
    var next := Apply(s, step);
    if step == Abort {
      forall i: nat | i < |s.cache| ensures Newer(next, i) <==> Newer(s, i) {
      }
    } else {
      forall i: nat | i < |next.cache| && Newer(next, i)
        ensures next.notifications > 0 || next.token || (next.pc.Reading? && next.pc.next <= i)
      {
        if step.Finish? {
          assert Newer(s, i);
        } else if step.Read? && i != s.pc.next {
          assert Newer(s, i);
        }
      }
    }
  }

  /** States linked by steps that are not aborts. */
  ghost predicate IsRun(states: seq<State>, steps: seq<Step>) {
    && |states| == |steps| + 1
    && Init(states[0])
    && forall k | 0 <= k < |steps| ::
         steps[k] != Abort && WellFormed(states[k]) && Enabled(states[k], steps[k]) && states[k + 1] == Apply(states[k], steps[k])
  }

  /** Coalesced wake-ups are never lost, in any interleaving. */
  lemma {:induction false} RunKeeps(states: seq<State>, steps: seq<Step>)
    requires IsRun(states, steps)
    ensures NoLostWakeUp(states[|steps|])
  {
    if steps == [] {
      InitHolds(states[0]);
    } else {
      var n := |steps| - 1;
      RunKeeps(states[..|states| - 1], steps[..n]);
      StepKeeps(states[n], steps[n]);
    }
  }

  ghost predicate Quiescent(s: State) {
    s.notifications == 0 && !s.token && s.pc == Waiting
  }

  /** Once events stop and nothing is left to do, the last reads found the final caches. */
  lemma QuiescentIsCurrent(states: seq<State>, steps: seq<Step>)
    requires IsRun(states, steps) && Quiescent(states[|steps|])
    ensures
      var s := states[|steps|];
      |s.seen| == |s.cache| && forall i | 0 <= i < |s.cache| :: s.seen[i] == s.cache[i]
  {
    RunKeeps(states, steps);
    SeenIsPast(states, steps);
    var s := states[|steps|];
    forall i: nat | i < |s.cache| ensures s.seen[i] == s.cache[i] {
      assert !Newer(s, i);
    }
  }

  /** No read finds a version from the future. */
  lemma {:induction false} SeenIsPast(states: seq<State>, steps: seq<Step>)
    requires IsRun(states, steps)
    ensures
      var s := states[|steps|];
      WellFormed(s) && forall i | 0 <= i < |s.cache| :: s.seen[i] <= s.cache[i]
  {
    if steps != [] {
      SeenIsPast(states[..|states| - 1], steps[..|steps| - 1]);
    }
  }

  /** The work left when no cache changes any more. */
  ghost function Work(s: State): nat
    requires WellFormed(s)
  {
    var n := |s.cache|;
    s.notifications * (n + 3) + (if s.token then n + 2 else 0) + (if s.pc.Reading? then n + 1 - s.pc.next else 0)
  }

  /** Without cache updates the loop comes to rest: every step uses up work, and while work is left
      some step is enabled.
   */
  lemma WorkShrinks(s: State, step: Step)
    requires WellFormed(s) && Enabled(s, step) && !step.CacheUpdate?
    ensures WellFormed(Apply(s, step)) && Work(Apply(s, step)) < Work(s)
  {
    var n := |s.cache|;
    if step == Notify {
      assert s.notifications * (n + 3) == (s.notifications - 1) * (n + 3) + (n + 3);
    }
  }

  lemma RestIsQuiescent(s: State)
    requires WellFormed(s)
    ensures Work(s) == 0 <==> Quiescent(s)
    ensures !Quiescent(s) ==> Enabled(s, Notify) || Enabled(s, Begin) || Enabled(s, Read) || Enabled(s, Finish)
  {
    if s.notifications > 0 {
      assert s.notifications * (|s.cache| + 3) >= |s.cache| + 3;
    }
  }

  /** A pass that cannot list the first cache forgets an update of the second. */
  lemma AbortLosesWakeUp()
    ensures
      var s := State([0, 1], 0, false, Reading(0), [0, 0]);
      NoLostWakeUp(s) && Enabled(s, Abort) && Quiescent(Apply(s, Abort)) && Newer(Apply(s, Abort), 1)
  {
    var s := State([0, 1], 0, false, Reading(0), [0, 0]);
    assert forall i: nat | i < 2 && Newer(s, i) :: i == 1;
  }

  /** A cache newer than its last read, and nothing left that would read it. */
  ghost predicate Lost(s: State, i: nat) {
    WellFormed(s) && i < |s.cache| && Newer(s, i) && Quiescent(s)
  }

  /** The same, reached from the start with two caches: a first pass reads both, the second cache changes,
      its notification starts a second pass, and that pass is aborted at the first cache.
   */
  lemma AbortLosesWakeUpInRun(s0: State)
    requires Init(s0) && |s0.cache| == 2 && s0.cache == [0, 0] && s0.notifications == 0
    ensures
      var steps := [Begin, Read, Read, Finish, CacheUpdate(1), Notify, Begin];
      exists states :: IsRun(states, steps) && states[0] == s0
        && WellFormed(states[7]) && Enabled(states[7], Abort) && Lost(Apply(states[7], Abort), 1)
  {
    var s1 := Apply(s0, Begin);
    var s2 := Apply(s1, Read);
    var s3 := Apply(s2, Read);
    var s4 := Apply(s3, Finish);
    var s5 := Apply(s4, CacheUpdate(1));
    var s6 := Apply(s5, Notify);
    var s7 := Apply(s6, Begin);
    assert IsRun([s0, s1, s2, s3, s4, s5, s6, s7], [Begin, Read, Read, Finish, CacheUpdate(1), Notify, Begin]);
  }
}
