/** Status writes of the TargetGroupBinding controller end: its own writes come back through the watch
    and requeue the binding, and that reconcile writes nothing unless something else changed.
 */
module TargetGroupBindingWrites {
  import opened TargetGroupBindingControllers
  import opened TargetGroupBindingProgress
  import opened Wrappers

  /** Reads happen after the reads of the last write. */
  ghost predicate ReadsLater(w: Work, audit: Audit) {
    && (w.HasService? || w.HasSlices? || w.HasNodes? ==> audit.a <= w.a)
    && (w.HasSlices? || w.HasNodes? ==> audit.b <= w.b)
    && (w.HasNodes? ==> audit.c <= w.c)
  }

  /** The last write's status is what its reads asked for, as long as nothing else edited the binding. */
  ghost predicate OwnStatus(s: State, key: Key, audit: Audit)
    requires WellFormed(s)
  {
    audit.own ==>
      && key in s.server && audit.a < |s.services| && audit.b < |s.slices| && audit.c < |s.nodes|
      && ServiceKey(key, s.server[key]) in s.services[audit.a]
      && var r := Desired(key, s.server[key], s.services[audit.a], s.slices[audit.b], s.nodes[audit.c]);
         r.Success? && s.server[key].status == Some(r.value)
  }

  /** Every write is paid for by an edit of the binding or by a change of a cache that happened before
      the write's own reads; the first one is free.
   */
  ghost predicate Paid(audit: Audit) {
    audit.writes + (if audit.own then 0 else 1) <= 1 + audit.edits + audit.a + audit.b + audit.c
  }

  ghost predicate Audited(s: State, key: Key)
    requires WellFormed(s)
  {
    var audit := AuditOf(s, key);
    && audit.a < |s.services| && audit.b < |s.slices| && audit.c < |s.nodes|
    && Paid(audit) && OwnStatus(s, key, audit)
    && (key in s.work ==> ReadsLater(s.work[key], audit))
  }

  ghost predicate AllAudited(s: State) {
    WellFormed(s) && Versioned(s) && forall key :: Audited(s, key)
  }

  lemma InitAudited(s: State)
    requires Init(s)
    ensures AllAudited(s)
  {
  }

  /** The version invariant through a change of the server's binding under `key`. */
  lemma ServerChangeVersioned(s: State, s': State, key: Key, b: Option<Binding>)
    requires Versioned(s) && s'.bindings == s.bindings && s'.nextVersion == s.nextVersion + 1
    requires s'.watch == s.watch + [Change(key, b)] && s'.server == Put(s.server, key, b)
    requires b.Some? ==> b.value.version == s.nextVersion
    requires forall k | k in s'.work && HoldsBinding(s'.work[k]) :: k in s.work && HoldsBinding(s.work[k]) && s'.work[k].binding == s.work[k].binding
    ensures Versioned(s')
  {
    assert forall c | c in s'.watch :: c in s.watch || c == Change(key, b);
    forall k, x | Known(s, k, x) ensures Known(s', k, x) {
    }
  }

  /** The version invariant through a step that leaves the server alone. */
  lemma SameServerVersioned(s: State, s': State)
    requires Versioned(s) && s'.server == s.server && s'.nextVersion == s.nextVersion
    requires forall k | k in s'.bindings :: Known(s, k, s'.bindings[k])
    requires forall c | c in s'.watch :: c in s.watch
    requires forall k | k in s'.work && HoldsBinding(s'.work[k]) :: Known(s, k, s'.work[k].binding)
    ensures Versioned(s')
  {
    forall k, x | Known(s, k, x) ensures Known(s', k, x) {
    }
  }

  lemma WatchVersioned(s: State)
    requires WellFormed(s) && Versioned(s) && s.watch != []
    ensures Versioned(Apply(s, Step.Watch))
  {
    var s' := Apply(s, Step.Watch);
    assert s.watch[0] in s.watch && forall c | c in s'.watch :: c in s.watch;
    SameServerVersioned(s, s');
  }

  lemma EditVersioned(s: State, step: Step)
    requires WellFormed(s) && Versioned(s) && step.EditBinding? && Enabled(s, step)
    ensures Versioned(Apply(s, step))
  {
    ServerChangeVersioned(s, Apply(s, step), step.key,
                          if step.edited.None? then None else Some(step.edited.value.(version := s.nextVersion)));
  }

  lemma UpdateVersioned(s: State, step: Step)
    requires WellFormed(s) && Versioned(s) && step.Update? && Enabled(s, step)
    ensures Versioned(Apply(s, step))
  {
    var s' := Apply(s, step);
    if s'.watch == s.watch {
      SameServerVersioned(s, s');
    } else {
      ServerChangeVersioned(s, s', step.key, Some(s'.server[step.key]));
    }
  }

  lemma CacheVersioned(s: State, step: Step)
    requires WellFormed(s) && Versioned(s) && Enabled(s, step)
    requires step.EditService? || step.EditSlice? || step.EditNode? || step.Notify?
    ensures Versioned(Apply(s, step))
  {
    SameServerVersioned(s, Apply(s, step));
  }

  /** The steps of a worker other than its status write, and the queue's. */
  predicate Inner(step: Step) {
    step.Take? || step.ReadBinding? || step.ReadService? || step.ReadSlices? || step.ReadNodes?
    || step.Fail? || step.Requeue? || step.Done? || step.Retry?
  }

  lemma InnerVersioned(s: State, step: Step)
    requires WellFormed(s) && Versioned(s) && Enabled(s, step) && Inner(step)
    ensures Versioned(Apply(s, step))
  {
    SameServerVersioned(s, Apply(s, step));
  }

  /** A step that leaves a key's audit and server binding alone keeps them in order. */
  lemma StillAudited(s: State, s': State, key: Key)
    requires WellFormed(s) && WellFormed(s') && Audited(s, key)
    requires AuditOf(s', key) == AuditOf(s, key)
    requires (key in s'.server <==> key in s.server) && (key in s.server ==> s'.server[key] == s.server[key])
    requires s.services <= s'.services && s.slices <= s'.slices && s.nodes <= s'.nodes
    requires key in s'.work ==> ReadsLater(s'.work[key], AuditOf(s, key))
    ensures Audited(s', key)
  {
  }

  /** Reading what the last write read asks for the status it wrote. */
  lemma SameReadsSameStatus(s: State, key: Key)
    requires AllAudited(s) && key in s.work && s.work[key].HasNodes? && key in s.server
    requires s.server[key].version == s.work[key].binding.version
    ensures
      var audit, w, wanted := AuditOf(s, key), s.work[key], Wanted(s, key);
      audit.own && audit.a == w.a && audit.b == w.b && audit.c == w.c ==>
        wanted.Success? && w.binding.status == Some(wanted.value)
  {
    assert Audited(s, key) && Known(s, key, s.work[key].binding);
  }

  /** A second write by the controller reads something the last one did not. */
  lemma WritePays(s: State, key: Key)
    requires AllAudited(s) && key in s.work && s.work[key].HasNodes? && key in s.server
    requires s.server[key].version == s.work[key].binding.version
    requires Wanted(s, key).Success? && s.work[key].binding.status != Some(Wanted(s, key).value)
    ensures Paid(Audit(AuditOf(s, key).writes + 1, AuditOf(s, key).edits, true, s.work[key].a, s.work[key].b, s.work[key].c))
  {
    SameReadsSameStatus(s, key);
    assert Audited(s, key);
  }

  /** Desired does not look at the version or the status. */
  lemma DesiredIgnoresStatus(key: Key, binding: Binding, version: nat, status: Option<Status>, services: Services, slices: Slices, nodes: Nodes)
    requires ServiceKey(key, binding) in services
    ensures Desired(key, binding.(version := version, status := status), services, slices, nodes)
            == Desired(key, binding, services, slices, nodes)
  {
  }

  /** A step that leaves audits and the server alone and reads, if anything, the current caches. */
  lemma FrameAudited(s: State, s': State)
    requires AllAudited(s) && WellFormed(s') && Versioned(s') && s'.audit == s.audit && s'.server == s.server
    requires s.services <= s'.services && s.slices <= s'.slices && s.nodes <= s'.nodes
    requires forall k | k in s'.work :: (k in s.work && s'.work[k] == s.work[k]) || ReadsLater(s'.work[k], AuditOf(s, k))
    ensures AllAudited(s')
  {
    forall key ensures Audited(s', key) {
      assert Audited(s, key);
      StillAudited(s, s', key);
    }
  }

  lemma EndAudited(s: State, key: Key, w: Work)
    requires AllAudited(s) && key in s.work && (w == Finished || w == Erred)
    ensures AllAudited(s.(work := s.work[key := w]))
  {
    var s' := s.(work := s.work[key := w]);
    SameServerVersioned(s, s');
    FrameAudited(s, s');
  }

  lemma UpdateAudited(s: State, step: Step)
    requires AllAudited(s) && step.Update? && Enabled(s, step)
    ensures AllAudited(Apply(s, step))
  {
    var key := step.key;
    var w, wanted := s.work[key], Wanted(s, key);
    if wanted.Failure? || w.binding.status == Some(wanted.value) {
      EndAudited(s, key, Finished);
    } else if key in s.server && s.server[key].version == w.binding.version {
      UpdateVersioned(s, step);
      WriteAudited(s, key, Apply(s, step));
    } else {
      EndAudited(s, key, Erred);
    }
  }

  lemma WriteAudited(s: State, key: Key, s': State)
    requires AllAudited(s) && key in s.work && s.work[key].HasNodes? && key in s.server
    requires s.server[key].version == s.work[key].binding.version
    requires Wanted(s, key).Success? && s.work[key].binding.status != Some(Wanted(s, key).value)
    requires s' == Updated(s, key) && Versioned(s')
    ensures AllAudited(s')
  {
    WrittenAudited(s, key, s');
    forall k ensures Audited(s', k) {
      assert Audited(s, k);
      if k != key {
        StillAudited(s, s', k);
      }
    }
  }

  lemma WrittenAudited(s: State, key: Key, s': State)
    requires AllAudited(s) && key in s.work && s.work[key].HasNodes? && key in s.server
    requires s.server[key].version == s.work[key].binding.version
    requires Wanted(s, key).Success? && s.work[key].binding.status != Some(Wanted(s, key).value)
    requires s' == Updated(s, key)
    ensures WellFormed(s') && Audited(s', key)
  {
    var w := s.work[key];
    WritePays(s, key);
    DesiredIgnoresStatus(key, w.binding, s.nextVersion, Some(Wanted(s, key).value), s.services[w.a], s.slices[w.b], s.nodes[w.c]);
  }

  lemma EditAudited(s: State, step: Step)
    requires AllAudited(s) && step.EditBinding? && Enabled(s, step)
    ensures AllAudited(Apply(s, step))
  {
    var s' := Apply(s, step);
    EditVersioned(s, step);
    forall key ensures Audited(s', key) {
      assert Audited(s, key);
      if key != step.key {
        StillAudited(s, s', key);
      }
    }
  }

  lemma QueueAudited(s: State, step: Step)
    requires AllAudited(s) && Enabled(s, step)
    requires step.Take? || step.ReadBinding? || step.Requeue? || step.Fail? || step.Done? || step.Retry?
    ensures AllAudited(Apply(s, step))
  {
    InnerVersioned(s, step);
    FrameAudited(s, Apply(s, step));
  }

  lemma ReadAudited(s: State, step: Step)
    requires AllAudited(s) && Enabled(s, step) && (step.ReadService? || step.ReadSlices? || step.ReadNodes?)
    ensures AllAudited(Apply(s, step))
  {
    var s' := Apply(s, step);
    InnerVersioned(s, step);
    assert Audited(s, step.key);
    assert ReadsLater(s'.work[step.key], AuditOf(s, step.key));
    FrameAudited(s, s');
  }

  lemma CacheAudited(s: State, step: Step)
    requires AllAudited(s) && Enabled(s, step)
    requires step.EditService? || step.EditSlice? || step.EditNode? || step.Notify?
    ensures AllAudited(Apply(s, step))
  {
    CacheVersioned(s, step);
    FrameAudited(s, Apply(s, step));
  }

  lemma StepAudited(s: State, step: Step)
    requires AllAudited(s) && Enabled(s, step)
    ensures AllAudited(Apply(s, step))
  {
    if step.Update? {
      UpdateAudited(s, step);
    } else if step.EditBinding? {
      EditAudited(s, step);
    } else if step.Watch? {
      WatchVersioned(s);
      FrameAudited(s, Apply(s, step));
    } else if step.ReadService? || step.ReadSlices? || step.ReadNodes? {
      ReadAudited(s, step);
    } else if Inner(step) {
      QueueAudited(s, step);
    } else {
      CacheAudited(s, step);
    }
  }

  /** The reconcile that the controller's own write triggers: the status it finds is the one it wrote,
      so unless something it reads has changed it writes nothing.
   */
  lemma OwnWriteIsFinal(s: State, key: Key)
    requires AllAudited(s) && AuditOf(s, key).own && key in s.work && s.work[key].HasNodes?
    requires key in s.server && s.work[key].binding == s.server[key]
    requires
      var w, audit := s.work[key], AuditOf(s, key);
      && audit.a < |s.services| && audit.b < |s.slices| && audit.c < |s.nodes|
      && s.services[w.a] == s.services[audit.a] && s.slices[w.b] == s.slices[audit.b] && s.nodes[w.c] == s.nodes[audit.c]
    ensures Updated(s, key) == s.(work := s.work[key := Finished])
  {
    assert Audited(s, key);
  }

  // ---------------------------------------------------------------- counted over a run

  predicate Wrote(s: State, step: Step, s': State, key: Key) {
    step == Update(key) && s'.watch != s.watch
  }

  function Writes(states: seq<State>, steps: seq<Step>, key: Key): nat
    requires |states| == |steps| + 1
  {
    if steps == [] then 0
    else
      var n := |steps| - 1;
      Writes(states[..n + 1], steps[..n], key) + if Wrote(states[n], steps[n], states[n + 1], key) then 1 else 0
  }

  /** The changes from outside that can matter to a binding: its own edits and those of the caches. */
  predicate External(step: Step, key: Key) {
    step.EditService? || step.EditSlice? || step.EditNode? || (step.EditBinding? && step.key == key)
  }

  function Externals(steps: seq<Step>, key: Key): nat {
    if steps == [] then 0
    else Externals(steps[..|steps| - 1], key) + if External(steps[|steps| - 1], key) then 1 else 0
  }

  /** The audit and the histories have counted `writes` and `externals`. */
  ghost predicate Counted(s: State, key: Key, writes: nat, externals: nat) {
    && AllAudited(s) && AuditOf(s, key).writes == writes
    && AuditOf(s, key).edits + |s.services| + |s.slices| + |s.nodes| == 3 + externals
  }

  lemma UpdateCounted(s: State, k: Key, key: Key, writes: nat, externals: nat)
    requires Counted(s, key, writes, externals) && Enabled(s, Update(k))
    ensures
      var s' := Apply(s, Update(k));
      Counted(s', key, writes + if Wrote(s, Update(k), s', key) then 1 else 0, externals)
  {
    UpdateAudited(s, Update(k));
  }

  /** Steps that are neither status writes nor changes from outside count for nothing. */
  lemma OtherCounted(s: State, step: Step, key: Key, writes: nat, externals: nat)
    requires Counted(s, key, writes, externals) && Enabled(s, step) && !step.Update? && !External(step, key)
    ensures Counted(Apply(s, step), key, writes, externals)
  {
    StepAudited(s, step);
  }

  lemma ExternalCounted(s: State, step: Step, key: Key, writes: nat, externals: nat)
    requires Counted(s, key, writes, externals) && Enabled(s, step) && External(step, key)
    ensures Counted(Apply(s, step), key, writes, externals + 1)
  {
    StepAudited(s, step);
  }

  lemma StepCounted(s: State, step: Step, s': State, key: Key, writes: nat, externals: nat)
    requires Linked(s, step, s') && Counted(s, key, writes, externals)
    ensures Counted(s', key, writes + (if Wrote(s, step, s', key) then 1 else 0), externals + (if External(step, key) then 1 else 0))
  {
    if step.Update? {
      UpdateCounted(s, step.key, key, writes, externals);
    } else if External(step, key) {
      ExternalCounted(s, step, key, writes, externals);
    } else {
      OtherCounted(s, step, key, writes, externals);
    }
  }

  lemma {:induction false} RunCounted(states: seq<State>, steps: seq<Step>, key: Key)
    requires IsRun(states, steps)
    ensures Counted(states[|steps|], key, Writes(states, steps, key), Externals(steps, key))
  {
    if steps == [] {
      InitAudited(states[0]);
    } else {
      var n := |steps| - 1;
      RunPrefix(states, steps);
      RunCounted(states[..n + 1], steps[..n], key);
      RunCountedLast(states, steps, key);
    }
  }

  lemma RunCountedLast(states: seq<State>, steps: seq<Step>, key: Key)
    requires steps != [] && IsRun(states, steps)
    requires
      var n := |steps| - 1;
      Counted(states[n], key, Writes(states[..n + 1], steps[..n], key), Externals(steps[..n], key))
    ensures Counted(states[|steps|], key, Writes(states, steps, key), Externals(steps, key))
  {
    var n := |steps| - 1;
    var s, step, s' := states[n], steps[n], states[n + 1];
    RunPrefix(states, steps);
    StepCounted(s, step, s', key, Writes(states[..n + 1], steps[..n], key), Externals(steps[..n], key));
  }

  /** Status self-triggering terminates: over a whole run a binding's status is written at most once more
      than there were changes from outside, however often its own writes brought it back to the queue.
   */
  lemma StatusWritesEnd(states: seq<State>, steps: seq<Step>, key: Key)
    requires IsRun(states, steps)
    ensures Writes(states, steps, key) <= 1 + Externals(steps, key)
  {
    RunCounted(states, steps, key);
    assert Audited(states[|steps|], key);
  }
}
