/** Safety of the TargetGroupBinding controller over whole runs: no reconciliation is missed. */
module TargetGroupBindingProgress {
  import opened Kube
  import opened Sequences
  import opened Sorting
  import opened TargetGroupBindingControllers
  import opened TargetGroupBindings
  import opened Wrappers

  // ---------------------------------------------------------------- the invariant

  /** The server's bindings are the cached ones with the watch applied. */
  function Replayed(bindings: map<Key, Binding>, watch: seq<Change>): map<Key, Binding>
    decreases |watch|
  {
    if watch == [] then bindings else Replayed(Put(bindings, watch[0].key, watch[0].binding), watch[1..])
  }

  /** The status is what resolving against the current caches yields, or resolving fails on them. */
  ghost predicate Settled(s: State, key: Key)
    requires WellFormed(s)
  {
    && key in s.bindings && ServiceKey(key, s.bindings[key]) in Last(s.services)
    && var r := Desired(key, s.bindings[key], Last(s.services), Last(s.slices), Last(s.nodes));
       r.Failure? || s.bindings[key].status == Some(r.value)
  }

  /** A worker that will end up with the current caches: what it has read of them is still current. */
  ghost predicate UpToDate(s: State, key: Key, w: Work)
    requires WellFormed(s) && WorkWellFormed(s, key, w)
  {
    match w
    case Began => true
    case Erred => true
    case Finished => false
    case HasBinding(binding) => Current(s, key, binding)
    case HasService(binding, a) => Current(s, key, binding) && SameService(s, key, binding, a)
    case HasSlices(binding, a, b) => Current(s, key, binding) && SameService(s, key, binding, a) && SameOwn(s, key, binding, b)
    case HasNodes(binding, a, b, c) =>
      Current(s, key, binding) && SameService(s, key, binding, a) && SameOwn(s, key, binding, b) && s.nodes[c] == Last(s.nodes)
  }

  predicate Current(s: State, key: Key, binding: Binding) {
    key in s.bindings && s.bindings[key] == binding
  }

  ghost predicate SameService(s: State, key: Key, binding: Binding, a: nat)
    requires s.services != [] && a < |s.services| && ServiceKey(key, binding) in s.services[a]
  {
    var k := ServiceKey(key, binding);
    k in Last(s.services) && Last(s.services)[k] == s.services[a][k]
  }

  ghost predicate SameOwn(s: State, key: Key, binding: Binding, b: nat)
    requires s.slices != [] && b < |s.slices|
  {
    Of(s.slices[b], key.namespace, binding.serviceName) == Of(Last(s.slices), key.namespace, binding.serviceName)
  }

  predicate Watched(watch: seq<Change>, key: Key) {
    exists c | c in watch :: c.key == key
  }

  ghost predicate Noticed(s: State, key: Key) {
    exists e | e in s.pending :: Affects(s.bindings, e, key)
  }

  ghost predicate Covered(s: State, key: Key)
    requires WellFormed(s)
  {
    || Watched(s.watch, key)
    || Noticed(s, key)
    || key in s.dirty
    || key in s.retries
    || (key in s.work && UpToDate(s, key, s.work[key]))
    || Settled(s, key)
  }

  ghost predicate NoneMissed(s: State) {
    && WellFormed(s)
    && Replayed(s.bindings, s.watch) == s.server
    && (forall k | k in Last(s.services) :: k.name != "")
    && forall key | key in s.server :: Covered(s, key)
  }

  /** An update that leaves the service name an EndpointSlice's label carries as it was. */
  ghost predicate KeepsLabel(s: State, step: Step)
    requires WellFormed(s)
  {
    step.EditSlice? && step.labelled.Some? && step.key in Last(s.slices) ==>
      step.labelled.value.serviceName == Last(s.slices)[step.key].serviceName
  }

  /** Run once the caches have synced: every cached binding has its initial notification. */
  ghost predicate Init(s: State) {
    && WellFormed(s) && s.work == map[] && s.audit == map[]
    && |s.services| == |s.slices| == |s.nodes| == 1
    && Replayed(s.bindings, s.watch) == s.server
    && (forall k | k in Last(s.services) :: k.name != "")
    && (forall key | key in s.bindings :: BindingEvent(key) in s.pending)
    && Versioned(s)
  }

  /** The worker has read the binding. */
  predicate HoldsBinding(w: Work) {
    w.HasBinding? || w.HasService? || w.HasSlices? || w.HasNodes?
  }

  /** No two versions of a binding are alike: what is cached, watched or held by a worker at the
      server's version is what the server has.
   */
  ghost predicate Versioned(s: State) {
    && (forall key | key in s.server :: s.server[key].version < s.nextVersion)
    && (forall key | key in s.bindings :: Known(s, key, s.bindings[key]))
    && (forall c | c in s.watch && c.binding.Some? :: Known(s, c.key, c.binding.value))
    && (forall key | key in s.work && HoldsBinding(s.work[key]) :: Known(s, key, s.work[key].binding))
  }

  ghost predicate Known(s: State, key: Key, binding: Binding) {
    binding.version < s.nextVersion && (key in s.server && s.server[key].version == binding.version ==> s.server[key] == binding)
  }

  // ---------------------------------------------------------------- the watch

  lemma {:induction false} ReplayedSnoc(bindings: map<Key, Binding>, watch: seq<Change>, c: Change)
    ensures Replayed(bindings, watch + [c]) == Put(Replayed(bindings, watch), c.key, c.binding)
    decreases |watch|
  {
    if watch == [] {
      assert (watch + [c])[1..] == [];
    } else {
      assert (watch + [c])[1..] == watch[1..] + [c];
      ReplayedSnoc(Put(bindings, watch[0].key, watch[0].binding), watch[1..], c);
    }
  }

  lemma {:induction false} Unwatched(bindings: map<Key, Binding>, watch: seq<Change>, key: Key)
    requires !Watched(watch, key)
    ensures key in bindings <==> key in Replayed(bindings, watch)
    ensures key in bindings ==> Replayed(bindings, watch)[key] == bindings[key]
    decreases |watch|
  {
    if watch != [] {
      assert watch[0] in watch && forall c | c in watch[1..] :: c in watch;
      Unwatched(Put(bindings, watch[0].key, watch[0].binding), watch[1..], key);
    }
  }

  lemma WatchedSnoc(watch: seq<Change>, c: Change, key: Key)
    ensures Watched(watch + [c], key) <==> Watched(watch, key) || c.key == key
  {
    assert forall d :: d in watch + [c] <==> d in watch || d == c;
  }

  lemma WatchedTail(watch: seq<Change>, key: Key)
    requires watch != [] && Watched(watch, key)
    ensures Watched(watch[1..], key) || watch[0].key == key
  {
    var c :| c in watch && c.key == key;
    assert watch == [watch[0]] + watch[1..];
  }

  // ---------------------------------------------------------------- steps that leave a key covered

  /** Desired looks at the binding's service, its slices and the nodes only. */
  lemma DesiredDepends(key: Key, binding: Binding, services: Services, slices: Slices, nodes: Nodes, services': Services, slices': Slices)
    requires ServiceKey(key, binding) in services && ServiceKey(key, binding) in services'
    requires services[ServiceKey(key, binding)] == services'[ServiceKey(key, binding)]
    requires Of(slices, key.namespace, binding.serviceName) == Of(slices', key.namespace, binding.serviceName)
    ensures Desired(key, binding, services, slices, nodes) == Desired(key, binding, services', slices', nodes)
  {
  }

  lemma EditBindingKeeps(s: State, step: Step)
    requires NoneMissed(s) && step.EditBinding? && Enabled(s, step)
    ensures NoneMissed(Apply(s, step))
  {
    var s', key := Apply(s, step), step.key;
    var b := if step.edited.None? then None else Some(step.edited.value.(version := s.nextVersion));
    ReplayedSnoc(s.bindings, s.watch, Change(key, b));
    forall k | k in s'.server ensures Covered(s', k) {
      WatchedSnoc(s.watch, Change(key, b), k);
      if k != key {
        assert Covered(s, k);
        assert Noticed(s', k) == Noticed(s, k);
      }
    }
  }

  lemma WatchKeeps(s: State)
    requires NoneMissed(s) && s.watch != []
    ensures NoneMissed(Apply(s, Step.Watch))
  {
    var s', c := Apply(s, Step.Watch), s.watch[0];
    forall k | k in s'.server ensures Covered(s', k) {
      assert BindingEvent(c.key) in s'.pending;
      if k == c.key {
        assert Affects(s'.bindings, BindingEvent(k), k);
      } else if Watched(s.watch, k) {
        WatchedTail(s.watch, k);
      } else {
        assert Covered(s, k);
        if Noticed(s, k) {
          var e :| e in s.pending && Affects(s.bindings, e, k);
          assert e in s'.pending && Affects(s'.bindings, e, k);
        }
      }
    }
  }

  /** A key no pending event affects stays covered through a new event. */
  lemma StillNoticed(s: State, s': State, e: Event, key: Key)
    requires s'.bindings == s.bindings && s'.pending == s.pending + multiset{e}
    ensures Noticed(s', key) <==> Noticed(s, key) || Affects(s.bindings, e, key)
  {
    assert forall d :: d in s'.pending <==> d in s.pending || d == e;
  }

  lemma EditServiceKeeps(s: State, step: Step)
    requires NoneMissed(s) && step.EditService? && Enabled(s, step)
    ensures NoneMissed(Apply(s, step))
  {
    var s' := Apply(s, step);
    forall k | k in s'.server ensures Covered(s', k) {
      StillNoticed(s, s', ServiceEvent(step.key), k);
      if !Noticed(s', k) && !Watched(s.watch, k) {
        Unwatched(s.bindings, s.watch, k);
        assert Covered(s, k);
        OtherService(s, step, k);
      }
    }
  }

  lemma OtherService(s: State, step: Step, k: Key)
    requires NoneMissed(s) && step.EditService? && Enabled(s, step)
    requires k in s.bindings && !Affects(s.bindings, ServiceEvent(step.key), k)
    ensures k in s.work && UpToDate(s, k, s.work[k]) ==> UpToDate(Apply(s, step), k, s.work[k])
    ensures Settled(s, k) ==> Settled(Apply(s, step), k)
  {
    var s' := Apply(s, step);
    assert Last(s'.services) == Put(Last(s.services), step.key, step.service);
    if Settled(s, k) {
      DesiredDepends(k, s.bindings[k], Last(s.services), Last(s.slices), Last(s.nodes), Last(s'.services), Last(s.slices));
    }
  }

  lemma EditSliceKeeps(s: State, step: Step)
    requires NoneMissed(s) && step.EditSlice? && Enabled(s, step) && KeepsLabel(s, step)
    ensures NoneMissed(Apply(s, step))
  {
    var s' := Apply(s, step);
    var e := SliceEventOf(Last(s.slices), step.key, step.labelled);
    forall k | k in s'.server ensures Covered(s', k) {
      StillNoticed(s, s', e, k);
      if !Noticed(s', k) && !Watched(s.watch, k) {
        Unwatched(s.bindings, s.watch, k);
        assert Covered(s, k);
        OtherSlices(s, step, k);
      }
    }
  }

  /** The slices of a service the event does not name stay the same, unless the service is named "". */
  lemma OtherOwn(slices: Slices, key: Key, labelled: Option<Labelled>, namespace: string, serviceName: string)
    requires labelled.None? ==> key in slices
    requires labelled.Some? && key in slices ==> labelled.value.serviceName == slices[key].serviceName
    requires serviceName != "" && SliceEventOf(slices, key, labelled) != SliceEvent(namespace, serviceName)
    ensures Of(Put(slices, key, labelled), namespace, serviceName) == Of(slices, namespace, serviceName)
  {
  }

  lemma OtherSlices(s: State, step: Step, k: Key)
    requires NoneMissed(s) && step.EditSlice? && Enabled(s, step) && KeepsLabel(s, step)
    requires k in s.bindings && !Affects(s.bindings, SliceEventOf(Last(s.slices), step.key, step.labelled), k)
    ensures k in s.work && UpToDate(s, k, s.work[k]) ==> Covered(Apply(s, step), k)
    ensures Settled(s, k) ==> Settled(Apply(s, step), k)
  {
    var s', name := Apply(s, step), s.bindings[k].serviceName;
    assert Last(s'.slices) == Put(Last(s.slices), step.key, step.labelled);
    if name != "" {
      OtherOwn(Last(s.slices), step.key, step.labelled, k.namespace, name);
      if Settled(s, k) {
        DesiredDepends(k, s.bindings[k], Last(s.services), Last(s.slices), Last(s.nodes), Last(s.services), Last(s'.slices));
      }
    } else {
      assert ServiceKey(k, s.bindings[k]) !in Last(s.services);
    }
  }

  lemma EditNodeKeeps(s: State, step: Step)
    requires NoneMissed(s) && step.EditNode?
    ensures NoneMissed(Apply(s, step))
  {
    var s' := Apply(s, step);
    forall k | k in s'.server ensures Covered(s', k) {
      StillNoticed(s, s', NodeEvent, k);
      if !Watched(s.watch, k) {
        Unwatched(s.bindings, s.watch, k);
      }
    }
  }

  lemma NotifyKeeps(s: State, step: Step)
    requires NoneMissed(s) && step.Notify? && Enabled(s, step)
    ensures NoneMissed(Apply(s, step))
  {
    var s' := Apply(s, step);
    forall k | k in s'.server ensures Covered(s', k) {
      assert Covered(s, k);
      if Noticed(s, k) {
        var e :| e in s.pending && Affects(s.bindings, e, k);
        if e == step.event {
          assert k in Affected(s.bindings, e);
        } else {
          assert e in s'.pending;
        }
      }
    }
  }

  /** A step of the worker that holds `key`: everything but its work, and what the step adds, is as before. */
  lemma OthersCovered(s: State, s': State, key: Key)
    requires NoneMissed(s) && WellFormed(s')
    requires s' == s.(work := s'.work, dirty := s'.dirty, retries := s'.retries)
    requires forall k | k != key :: (k in s.work <==> k in s'.work) && (k in s.work ==> s'.work[k] == s.work[k])
    requires forall k | k != key :: (k in s.dirty ==> k in s'.dirty) && (k in s.retries ==> k in s'.retries)
    requires key in s.server ==> Covered(s', key)
    ensures NoneMissed(s')
  {
    forall k | k in s'.server ensures Covered(s', k) {
      assert Covered(s, k);
      if k != key {
        OtherCovered(s, s', k);
      }
    }
  }

  lemma OtherCovered(s: State, s': State, k: Key)
    requires WellFormed(s) && WellFormed(s') && Covered(s, k)
    requires s' == s.(work := s'.work, dirty := s'.dirty, retries := s'.retries)
    requires (k in s.work <==> k in s'.work) && (k in s.work ==> s'.work[k] == s.work[k])
    requires (k in s.dirty ==> k in s'.dirty) && (k in s.retries ==> k in s'.retries)
    ensures Covered(s', k)
  {
    assert Noticed(s', k) == Noticed(s, k);
    if k in s.work {
      assert UpToDate(s', k, s'.work[k]) == UpToDate(s, k, s.work[k]);
    }
    assert Settled(s', k) == Settled(s, k);
  }

  lemma TakeKeeps(s: State, step: Step)
    requires NoneMissed(s) && step.Take? && Enabled(s, step)
    ensures NoneMissed(Apply(s, step))
  {
    OthersCovered(s, Apply(s, step), step.key);
  }

  /** A binding that is not cached has a change on its way. */
  lemma UncachedIsWatched(s: State, key: Key)
    requires NoneMissed(s) && key in s.server && key !in s.bindings
    ensures Watched(s.watch, key)
  {
    if !Watched(s.watch, key) {
      Unwatched(s.bindings, s.watch, key);
    }
  }

  lemma ReadBindingKeeps(s: State, step: Step)
    requires NoneMissed(s) && step.ReadBinding? && Enabled(s, step)
    ensures NoneMissed(Apply(s, step))
  {
    var s', key := Apply(s, step), step.key;
    if key in s.server && key !in s.bindings {
      UncachedIsWatched(s, key);
    }
    OthersCovered(s, s', key);
  }

  /** A worker's own progress: enough that an up-to-date worker leaves its key covered. */
  lemma ProgressKeeps(s: State, key: Key, w: Work)
    requires NoneMissed(s) && key in s.work && WorkWellFormed(s, key, w)
    requires UpToDate(s, key, s.work[key]) ==> UpToDate(s, key, w) || Settled(s, key)
    ensures NoneMissed(s.(work := s.work[key := w]))
  {
    var s' := s.(work := s.work[key := w]);
    if key in s.server {
      assert Covered(s, key);
      assert Noticed(s', key) == Noticed(s, key);
      assert UpToDate(s, key, w) ==> UpToDate(s', key, w);
      assert Settled(s, key) ==> Settled(s', key);
    }
    OthersCovered(s, s', key);
  }

  lemma ReadServiceKeeps(s: State, step: Step)
    requires NoneMissed(s) && step.ReadService? && Enabled(s, step)
    ensures NoneMissed(Apply(s, step))
  {
    var key, binding := step.key, s.work[step.key].binding;
    ProgressKeeps(s, key, if ServiceKey(key, binding) in Last(s.services) then HasService(binding, |s.services| - 1) else Erred);
  }

  lemma ReadSlicesKeeps(s: State, step: Step)
    requires NoneMissed(s) && step.ReadSlices? && Enabled(s, step)
    ensures NoneMissed(Apply(s, step))
  {
    var w := s.work[step.key];
    ProgressKeeps(s, step.key, HasSlices(w.binding, w.a, |s.slices| - 1));
  }

  lemma ReadNodesKeeps(s: State, step: Step)
    requires NoneMissed(s) && step.ReadNodes? && Enabled(s, step)
    ensures NoneMissed(Apply(s, step))
  {
    var w := s.work[step.key];
    ProgressKeeps(s, step.key, HasNodes(w.binding, w.a, w.b, |s.nodes| - 1));
  }

  lemma RequeueKeeps(s: State, step: Step)
    requires NoneMissed(s) && (step.Fail? || step.Requeue?) && Enabled(s, step)
    ensures NoneMissed(Apply(s, step))
  {
    if step.Fail? {
      ProgressKeeps(s, step.key, Erred);
    } else {
      OthersCovered(s, Apply(s, step), step.key);
    }
  }

  lemma EndKeeps(s: State, step: Step)
    requires NoneMissed(s) && (step.Done? || step.Retry?) && Enabled(s, step)
    ensures NoneMissed(Apply(s, step))
  {
    var s', key := Apply(s, step), step.key;
    if key in s.server {
      assert Covered(s, key);
      assert Noticed(s', key) == Noticed(s, key);
    }
    OthersCovered(s, s', key);
  }

  /** A worker that is up to date wants what the current caches ask for. */
  lemma WantedIsCurrent(s: State, key: Key)
    requires WellFormed(s) && key in s.work && s.work[key].HasNodes? && UpToDate(s, key, s.work[key])
    ensures ServiceKey(key, s.bindings[key]) in Last(s.services)
    ensures Wanted(s, key) == Desired(key, s.bindings[key], Last(s.services), Last(s.slices), Last(s.nodes))
  {
    var w := s.work[key];
    DesiredDepends(key, w.binding, s.services[w.a], s.slices[w.b], s.nodes[w.c], Last(s.services), Last(s.slices));
  }

  lemma UpdateKeeps(s: State, step: Step)
    requires NoneMissed(s) && step.Update? && Enabled(s, step)
    ensures NoneMissed(Apply(s, step))
  {
    var key := step.key;
    var w, wanted := s.work[key], Wanted(s, key);
    if UpToDate(s, key, w) {
      WantedIsCurrent(s, key);
    }
    if wanted.Failure? || w.binding.status == Some(wanted.value) {
      ProgressKeeps(s, key, Finished);
    } else if key in s.server && s.server[key].version == w.binding.version {
      WriteKeeps(s, key, w.binding.(version := s.nextVersion, status := Some(wanted.value)), Apply(s, step));
    } else {
      ProgressKeeps(s, key, Erred);
    }
  }

  /** The change a write makes is itself watched. */
  lemma WriteKeeps(s: State, key: Key, b: Binding, s': State)
    requires NoneMissed(s) && key in s.work
    requires s' == s.(server := s.server[key := b], nextVersion := s'.nextVersion, watch := s.watch + [Change(key, Some(b))],
                      work := s.work[key := Finished], audit := s'.audit)
    ensures NoneMissed(s')
  {
    var c := Change(key, Some(b));
    ReplayedSnoc(s.bindings, s.watch, c);
    forall k | k in s'.server ensures Covered(s', k) {
      WatchedSnoc(s.watch, c, k);
      if k != key {
        assert Covered(s, k);
        assert Noticed(s', k) == Noticed(s, k);
        SameCovering(s, s', k);
      }
    }
  }

  lemma SameCovering(s: State, s': State, k: Key)
    requires WellFormed(s) && WellFormed(s') && (k in s.work <==> k in s'.work) && (k in s.work ==> s'.work[k] == s.work[k])
    requires s'.bindings == s.bindings && s'.services == s.services && s'.slices == s.slices && s'.nodes == s.nodes
    ensures k in s.work && UpToDate(s, k, s.work[k]) ==> UpToDate(s', k, s'.work[k])
    ensures Settled(s, k) ==> Settled(s', k)
  {
  }

  /** Every step keeps every binding covered, given that no update changes an EndpointSlice's service name. */
  lemma StepKeeps(s: State, step: Step)
    requires NoneMissed(s) && Enabled(s, step) && KeepsLabel(s, step)
    ensures NoneMissed(Apply(s, step))
  {
    match step
    case EditBinding(_, _) => EditBindingKeeps(s, step);
    case Watch => WatchKeeps(s);
    case EditService(_, _) => EditServiceKeeps(s, step);
    case EditSlice(_, _) => EditSliceKeeps(s, step);
    case EditNode(_, _) => EditNodeKeeps(s, step);
    case Notify(_) => NotifyKeeps(s, step);
    case Take(_) => TakeKeeps(s, step);
    case ReadBinding(_) => ReadBindingKeeps(s, step);
    case ReadService(_) => ReadServiceKeeps(s, step);
    case ReadSlices(_) => ReadSlicesKeeps(s, step);
    case ReadNodes(_) => ReadNodesKeeps(s, step);
    case Update(_) => UpdateKeeps(s, step);
    case Fail(_) => RequeueKeeps(s, step);
    case Requeue(_) => RequeueKeeps(s, step);
    case Done(_) => EndKeeps(s, step);
    case Retry(_) => EndKeeps(s, step);
  }

  lemma InitHolds(s: State)
    requires Init(s)
    ensures NoneMissed(s)
  {
    forall key | key in s.server ensures Covered(s, key) {
      if !Watched(s.watch, key) {
        Unwatched(s.bindings, s.watch, key);
        assert Affects(s.bindings, BindingEvent(key), key);
      }
    }
  }

  /** States linked by steps. */
  ghost predicate IsRun(states: seq<State>, steps: seq<Step>) {
    && |states| == |steps| + 1 && Init(states[0])
    && forall i | 0 <= i < |steps| :: Linked(states[i], steps[i], states[i + 1])
  }

  ghost predicate Linked(s: State, step: Step, s': State) {
    WellFormed(s) && Enabled(s, step) && KeepsLabel(s, step) && s' == Apply(s, step)
  }

  lemma RunPrefix(states: seq<State>, steps: seq<Step>)
    requires IsRun(states, steps) && steps != []
    ensures
      var n := |steps| - 1;
      IsRun(states[..n + 1], steps[..n]) && states[..n + 1][n] == states[n] && Linked(states[n], steps[n], states[n + 1])
  {
    var n := |steps| - 1;
    assert forall i | 0 <= i < n :: Linked(states[i], steps[i], states[i + 1]);
    assert Linked(states[n], steps[n], states[n + 1]);
  }

  /** No missed reconciliation: in every reachable state each binding has a change on its way, a pending
      notification, a queued key, a scheduled retry or an up-to-date worker, or is settled.
   */
  lemma {:induction false} NoMissedReconciliation(states: seq<State>, steps: seq<Step>)
    requires IsRun(states, steps)
    ensures NoneMissed(states[|steps|])
  {
    if steps == [] {
      InitHolds(states[0]);
    } else {
      var n := |steps| - 1;
      RunPrefix(states, steps);
      NoMissedReconciliation(states[..n + 1], steps[..n]);
      StepKeeps(states[n], steps[n]);
    }
  }

  ghost predicate Quiescent(s: State) {
    s.watch == [] && s.pending == multiset{} && s.dirty == {} && s.retries == {} && s.work == map[]
  }

  /** So once nothing is left to do, every binding's status is right. */
  lemma QuiescentIsSettled(s: State, key: Key)
    requires NoneMissed(s) && Quiescent(s) && key in s.server
    ensures key in s.bindings && s.bindings[key] == s.server[key] && Settled(s, key)
  {
    assert Covered(s, key);
    Unwatched(s.bindings, s.watch, key);
  }

  /** After a relabelling of a quiescent state, a binding of the service the slice leaves is covered only
      if it happens to be settled: the event names the new label, and nothing names the old one.
   */
  lemma RelabelUnnoticed(s: State, step: Step, key: Key)
    requires NoneMissed(s) && Quiescent(s) && step.EditSlice? && step.labelled.Some? && step.key in Last(s.slices)
    requires key in s.server && step.key.namespace == key.namespace
    requires Last(s.slices)[step.key].serviceName == s.bindings[key].serviceName != step.labelled.value.serviceName
    ensures Covered(Apply(s, step), key) <==> Settled(Apply(s, step), key)
  {
    var s' := Apply(s, step);
    var e := SliceEventOf(Last(s.slices), step.key, step.labelled);
    assert s'.pending == multiset{e};
    assert !Affects(s.bindings, e, key);
  }

  /** Exactly when a relabelling at rest is harmless: every binding of the service the slice leaves is
      settled against the slices as they are now. Bindings of the service it joins are notified.
   */
  lemma RelabelExactly(s: State, step: Step)
    requires NoneMissed(s) && Quiescent(s) && step.EditSlice? && step.labelled.Some? && step.key in Last(s.slices)
    requires step.labelled.value.serviceName != Last(s.slices)[step.key].serviceName
    ensures
      var left := Key(step.key.namespace, Last(s.slices)[step.key].serviceName);
      NoneMissed(Apply(s, step)) <==>
      forall key | key in s.server && ServiceKey(key, s.bindings[key]) == left :: Settled(Apply(s, step), key)
  {
    var s' := Apply(s, step);
    var left := Key(step.key.namespace, Last(s.slices)[step.key].serviceName);
    forall key | key in s.server && ServiceKey(key, s.bindings[key]) == left
      ensures Covered(s', key) <==> Settled(s', key)
    {
      RelabelUnnoticed(s, step, key);
    }
    forall key | key in s.server && ServiceKey(key, s.bindings[key]) != left ensures Covered(s', key) {
      RelabelElsewhere(s, step, key);
    }
  }

  /** Relabelling changes the slices of the service it leaves and of the one it joins only. */
  lemma OwnOfOthers(slices: Slices, key: Key, labelled: Labelled, service: Key)
    requires key in slices && service != Key(key.namespace, slices[key].serviceName) && service != Key(key.namespace, labelled.serviceName)
    ensures Of(Put(slices, key, Some(labelled)), service.namespace, service.name) == Of(slices, service.namespace, service.name)
  {
  }

  /** A binding of another service is notified, or its slices are as they were. */
  lemma RelabelElsewhere(s: State, step: Step, key: Key)
    requires NoneMissed(s) && Quiescent(s) && step.EditSlice? && step.labelled.Some? && step.key in Last(s.slices)
    requires key in s.server && key in s.bindings
    requires ServiceKey(key, s.bindings[key]) != Key(step.key.namespace, Last(s.slices)[step.key].serviceName)
    ensures Covered(Apply(s, step), key)
  {
    var s', e := Apply(s, step), SliceEventOf(Last(s.slices), step.key, step.labelled);
    QuiescentIsSettled(s, key);
    StillNoticed(s, s', e, key);
    if !Affects(s.bindings, e, key) {
      OwnOfOthers(Last(s.slices), step.key, step.labelled.value, ServiceKey(key, s.bindings[key]));
      StillSettled(s, s', key);
    }
  }

  lemma StillSettled(s: State, s': State, key: Key)
    requires WellFormed(s) && WellFormed(s') && Settled(s, key)
    requires s'.bindings == s.bindings && s'.services == s.services && s'.nodes == s.nodes
    requires Of(Last(s'.slices), key.namespace, s.bindings[key].serviceName) == Of(Last(s.slices), key.namespace, s.bindings[key].serviceName)
    ensures Settled(s', key)
  {
    DesiredDepends(key, s.bindings[key], Last(s.services), Last(s.slices), Last(s.nodes), Last(s.services), Last(s'.slices));
  }

  const WEB := Key("default", "web")

  const WEB_SERVICE := Service(ClusterIP, map["app" := "web"], [ServicePort("", 80, 0)])

  const WEB_SLICE := EndpointSlice([EndpointPort(None, Some(8080))], [Endpoint(["10.0.0.1"], None)])

  const WEB_BINDING := Binding(0, 1, "web", ByNumber(80), "ip", Some(Status(1, [Target("10.0.0.1", 8080)], "ip")))

  /** One binding, settled on the address of its service's only slice, and nothing left to do. */
  const WEB_STATE := State(map[WEB := WEB_BINDING], 1, [], map[WEB := WEB_BINDING], [map[WEB := WEB_SERVICE]],
                           [map[WEB := Labelled("web", WEB_SLICE)]], [map[]], multiset{}, {}, {}, map[], map[])

  const RELABEL := EditSlice(WEB, Some(Labelled("", WEB_SLICE)))

  lemma WebSettled()
    ensures NoneMissed(WEB_STATE) && Quiescent(WEB_STATE)
  {
    WebListing();
    WebTargets();
    WebDesired(map[WEB := Labelled("web", WEB_SLICE)], [WEB], [Target("10.0.0.1", 8080)]);
    assert Settled(WEB_STATE, WEB);
  }

  lemma RelabelledUnsettled()
    requires NoneMissed(WEB_STATE) && Enabled(WEB_STATE, RELABEL)
    ensures !Settled(Apply(WEB_STATE, RELABEL), WEB)
  {
    WebListing();
    WebTargets();
    var slices: Slices := map[WEB := Labelled("", WEB_SLICE)];
    assert Last(Apply(WEB_STATE, RELABEL).slices) == slices;
    WebDesired(slices, [], []);
  }

  /** Without the hypothesis it fails: the slice is relabelled and the binding keeps its old target,
      with nothing pending that would reconcile it.
   */
  lemma RelabelMisses()
    ensures NoneMissed(WEB_STATE) && Quiescent(WEB_STATE) && Enabled(WEB_STATE, RELABEL) && !NoneMissed(Apply(WEB_STATE, RELABEL))
  {
    WebSettled();
    RelabelledUnsettled();
    RelabelUnnoticed(WEB_STATE, RELABEL, WEB);
  }

  lemma WebDesired(slices: Slices, keys: seq<Key>, targets: seq<Target>)
    requires Lists(keys, Of(slices, "default", "web"))
    requires targets == IPTargets(Values(keys, Of(slices, "default", "web")), "") && |targets| <= 1
    ensures Desired(WEB, WEB_BINDING, map[WEB := WEB_SERVICE], slices, map[]) == Success(Status(1, targets, "ip"))
  {
    var none: Nodes, listed := map[], Values(keys, Of(slices, "default", "web"));
    assert Lists([], none);
    WebResolved(listed, Values([], none), targets);
    DesiredAnyOrder(WEB, WEB_BINDING, map[WEB := WEB_SERVICE], slices, none, keys, []);
  }

  lemma WebPort()
    ensures WEB_SERVICE.selector != map[] && FindPort(WEB_SERVICE.ports, ByNumber(80)) == Some(ServicePort("", 80, 0))
  {
    assert "app" in WEB_SERVICE.selector;
    FirstDecides(WEB_SERVICE.ports, ByNumber(80), 0);
  }

  lemma IPResolved(service: Service, ref: PortRef, targetType: string, listed: seq<EndpointSlice>, nodes: seq<Node>)
    requires EffectiveTargetType(targetType) != "instance" && service.selector != map[] && FindPort(service.ports, ref).Some?
    requires |IPTargets(listed, FindPort(service.ports, ref).value.name)| <= 1
    ensures Resolved(service, ref, targetType, listed, nodes) == Success(IPTargets(listed, FindPort(service.ports, ref).value.name))
  {
    SortShort(TargetLess, IPTargets(listed, FindPort(service.ports, ref).value.name));
  }

  lemma WebResolved(listed: seq<EndpointSlice>, nodes: seq<Node>, targets: seq<Target>)
    requires targets == IPTargets(listed, "") && |targets| <= 1
    ensures Resolved(WEB_SERVICE, ByNumber(80), "ip", listed, nodes) == Success(targets)
  {
    WebPort();
    IPResolved(WEB_SERVICE, ByNumber(80), "ip", listed, nodes);
  }

  lemma WebTargets()
    ensures IPTargets([WEB_SLICE], "") == [Target("10.0.0.1", 8080)]
    ensures IPTargets([], "") == []
  {
    var port: Int32 := 8080;
    FlattenOne(AtPort(port), "10.0.0.1");
    FlattenOne(OfEndpoint(port), WEB_SLICE.endpoints[0]);
    FlattenOne(OfSlice(""), WEB_SLICE);
  }

  /** The listing of a map of one slice. */
  lemma WebListing()
    ensures Of(map[WEB := Labelled("web", WEB_SLICE)], "default", "web") == map[WEB := WEB_SLICE]
    ensures Lists([WEB], map[WEB := WEB_SLICE]) && Values([WEB], map[WEB := WEB_SLICE]) == [WEB_SLICE]
    ensures Of(map[WEB := Labelled("", WEB_SLICE)], "default", "web") == map[]
  {
    FlattenOne(One(map[WEB := WEB_SLICE]), WEB);
    assert "" != "web";
  }
}
