/** The reconcile pass of the ClusterNetworkPolicy controller (internal/agent/cnpcontroller.go):
    which NetworkPolicies are desired, and how the managed ones in the cluster are brought there.
 */
module CNPController {
  import opened Kube
  import opened NetworkPolicies
  import opened ClusterNetworkPolicies
  import opened Wrappers

  datatype Key = Key(namespace: string, name: string)

  datatype ApiError = AlreadyExists | NotFound | Conflict | Unavailable

  datatype ReconcileError = BadSelector | ApiFailed

  datatype Write = Created(key: Key) | Updated(key: Key) | Deleted(key: Key)

  predicate Managed(np: NetworkPolicy) {
    MANAGED_BY_LABEL_KEY in np.labels && np.labels[MANAGED_BY_LABEL_KEY] == MANAGED_BY_LABEL_VALUE
  }

  function KeyOf(np: NetworkPolicy): Key {
    Key(np.namespace, np.name)
  }

  type Objects = map<Key, NetworkPolicy>

  ghost predicate WellKeyed(objects: Objects) {
    forall k | k in objects :: KeyOf(objects[k]) == k
  }

  /** The API server's NetworkPolicies. Any call may also fail without effect. */
  class NetworkPolicyApi {
    var objects: Objects
    ghost var writes: seq<Write>

    constructor (initial: Objects)
      ensures objects == initial && writes == []
    {
      objects, writes := initial, [];
    }

    method Create(np: NetworkPolicy) returns (err: Option<ApiError>)
      modifies this
      ensures err == None ==>
                KeyOf(np) !in old(objects) && objects == old(objects)[KeyOf(np) := np] && writes == old(writes) + [Created(KeyOf(np))]
      ensures err == Some(AlreadyExists) ==> KeyOf(np) in old(objects)
      ensures err.Some? ==> objects == old(objects) && writes == old(writes)
    {
      if * {
        return Some(Unavailable);
      }
      if KeyOf(np) in objects {
        return Some(AlreadyExists);
      }
      objects := objects[KeyOf(np) := np];
      writes := writes + [Created(KeyOf(np))];
      err := None;
    }

    /** Writes back a changed copy of `current`: a conflict unless that is still what is stored. */
    method Update(current: NetworkPolicy, np: NetworkPolicy) returns (err: Option<ApiError>)
      requires KeyOf(np) == KeyOf(current)
      modifies this
      ensures err == None ==> KeyOf(np) in old(objects) && old(objects)[KeyOf(np)] == current
      ensures err == None ==> objects == old(objects)[KeyOf(np) := np] && writes == old(writes) + [Updated(KeyOf(np))]
      ensures err.Some? ==> objects == old(objects) && writes == old(writes)
    {
      if * {
        return Some(Unavailable);
      }
      if KeyOf(np) !in objects {
        return Some(NotFound);
      }
      if objects[KeyOf(np)] != current {
        return Some(Conflict);
      }
      objects := objects[KeyOf(np) := np];
      writes := writes + [Updated(KeyOf(np))];
      err := None;
    }

    method Delete(key: Key) returns (err: Option<ApiError>)
      modifies this
      ensures err == None ==>
                key in old(objects) && objects == old(objects) - {key} && writes == old(writes) + [Deleted(key)]
      ensures err == Some(NotFound) ==> key !in old(objects)
      ensures err.Some? ==> objects == old(objects) && writes == old(writes)
    {
      if * {
        return Some(Unavailable);
      }
      if key !in objects {
        return Some(NotFound);
      }
      objects := objects - {key};
      writes := writes + [Deleted(key)];
      err := None;
    }

    /** List with the managed-by label selector, in whatever order. */
    method ListManaged() returns (r: Result<seq<NetworkPolicy>, ApiError>)
      ensures r.Success? ==> forall np :: np in r.value <==> exists k | k in objects :: objects[k] == np && Managed(np)
      ensures r.Failure? ==> r.error == Unavailable
    {
      if * {
        return Failure(Unavailable);
      }
      var items := [];
      var todo := objects.Keys;
      while todo != {}
        invariant todo <= objects.Keys
        invariant forall np :: np in items <==> exists k | k in objects.Keys - todo :: objects[k] == np && Managed(np)
      {
        var k :| k in todo;
        todo := todo - {k};
        assert forall x :: x in objects.Keys - todo <==> x == k || x in objects.Keys - (todo + {k});
        if Managed(objects[k]) {
          items := items + [objects[k]];
        }
      }
      assert objects.Keys - todo == objects.Keys;
      r := Success(items);
    }
  }

  // ---------------------------------------------------------------- what a pass must reach

  /** A managed policy brought to a desired one: the rest of its metadata stays. */
  function Brought(current: NetworkPolicy, desired: NetworkPolicy): NetworkPolicy {
    current.(spec := desired.spec, ownerReferences := desired.ownerReferences, labels := desired.labels)
  }

  /** What a desired key holds after a pass: an unmanaged object keeps its place. */
  function Reached(before: Objects, desired: Objects, k: Key): NetworkPolicy
    requires k in desired
  {
    if k !in before then desired[k]
    else if Managed(before[k]) then Brought(before[k], desired[k])
    else before[k]
  }

  /** The state a successful pass leaves behind. */
  ghost function Reconciled(before: Objects, desired: Objects): Objects {
    map k | k in before.Keys + desired.Keys && (k in desired || !Managed(before[k])) ::
      if k in desired then Reached(before, desired, k) else before[k]
  }

  /** Every desired policy sits under its own key and carries the managed-by label. */
  ghost predicate Desirable(desired: Objects) {
    WellKeyed(desired) && forall k | k in desired :: Managed(desired[k])
  }

  /** Reconcile post-state: unmanaged policies are untouched, every desired key that no unmanaged
      policy occupies carries the desired spec, owners and labels, and no other managed policy is left.
      What was there before keeps its name and its annotations.
   */
  lemma ReconciledMeans(before: Objects, desired: Objects)
    requires Desirable(desired)
    ensures
      var after := Reconciled(before, desired);
      && (forall k | k in before && !Managed(before[k]) :: k in after && after[k] == before[k])
      && (forall k | k in desired && !(k in before && !Managed(before[k])) ::
            && k in after && Managed(after[k]) && after[k].spec == desired[k].spec
            && after[k].ownerReferences == desired[k].ownerReferences && after[k].labels == desired[k].labels)
      && (forall k | k in after && Managed(after[k]) :: k in desired)
      && (forall k | k in after && k !in before :: after[k] == desired[k])
      && (forall k | k in after && k in before ::
            KeyOf(after[k]) == KeyOf(before[k]) && after[k].annotations == before[k].annotations)
  {
  }

  /** A second pass has nothing to change. */
  lemma ReconciledTwice(before: Objects, desired: Objects)
    requires Desirable(desired)
    ensures Reconciled(Reconciled(before, desired), desired) == Reconciled(before, desired)
  {
    var after := Reconciled(before, desired);
    forall k | k in after.Keys + desired.Keys
      ensures k in after && (k in desired ==> Reached(after, desired, k) == after[k])
    {
      assert k in after;
    }
    assert Reconciled(after, desired).Keys == after.Keys;
  }

  /** Reconciled, key by key. */
  ghost predicate HoldsReached(before: Objects, desired: Objects, now: Objects, k: Key) {
    if k in desired then k in now && now[k] == Reached(before, desired, k)
    else if k in before && !Managed(before[k]) then k in now && now[k] == before[k]
    else k !in now
  }

  lemma ReconciledPointwise(before: Objects, desired: Objects, now: Objects)
    requires forall k :: HoldsReached(before, desired, now, k)
    ensures now == Reconciled(before, desired)
  {
    forall k ensures k in now <==> k in Reconciled(before, desired) {
      assert HoldsReached(before, desired, now, k);
    }
    forall k | k in now ensures now[k] == Reconciled(before, desired)[k] {
      assert HoldsReached(before, desired, now, k);
    }
  }

  /** The state inside a pass: the desired keys in `todo` are still to be applied, the orphans in
      `gone` are deleted, everything else is as before.
   */
  ghost predicate Applied(before: Objects, desired: Objects, todo: set<Key>, gone: set<Key>, now: Objects) {
    forall k ::
      if k in desired && k !in todo then k in now && now[k] == Reached(before, desired, k)
      else if k !in desired && k in gone then k !in now
      else Unchanged(before, now, k)
  }

  lemma ApplyStep(before: Objects, desired: Objects, todo: set<Key>, now: Objects, k: Key)
    requires Applied(before, desired, todo, {}, now) && k in todo && k in desired
    ensures Applied(before, desired, todo - {k}, {}, now[k := Reached(before, desired, k)])
  {
  }

  lemma DeleteStep(before: Objects, desired: Objects, gone: set<Key>, now: Objects, k: Key)
    requires Applied(before, desired, {}, gone, now)
    ensures Applied(before, desired, {}, gone + {k}, if k in desired then now else now - {k})
  {
  }

  lemma PassReaches(before: Objects, desired: Objects, gone: set<Key>, now: Objects)
    requires Applied(before, desired, {}, gone, now)
    requires gone == set k | k in before && Managed(before[k])
    ensures now == Reconciled(before, desired)
  {
    forall k ensures HoldsReached(before, desired, now, k) {
    }
    ReconciledPointwise(before, desired, now);
  }

  lemma PassIsPartial(before: Objects, desired: Objects, todo: set<Key>, gone: set<Key>, now: Objects)
    requires Applied(before, desired, todo, gone, now)
    requires gone <= set k | k in before && Managed(before[k])
    ensures Partial(before, desired, now)
  {
    forall k ensures Unchanged(before, now, k) || HoldsReached(before, desired, now, k) {
    }
    forall k ensures Unchanged(before, now, k) || Unchanged(Reconciled(before, desired), now, k) {
      assert Unchanged(before, now, k) || HoldsReached(before, desired, now, k);
    }
  }

  /** Nothing to change: every desired key is as it should be, and no managed policy is an orphan. */
  ghost predicate Converged(before: Objects, desired: Objects) {
    && (forall k | k in desired :: k in before && Reached(before, desired, k) == before[k])
    && (forall k | k in before && Managed(before[k]) :: k in desired)
  }

  lemma ConvergedExactly(before: Objects, desired: Objects)
    ensures Converged(before, desired) <==> Reconciled(before, desired) == before
  {
    var after := Reconciled(before, desired);
    if after == before {
      forall k | k in desired ensures k in before && Reached(before, desired, k) == before[k] {
        assert k in after;
      }
      forall k | k in before && Managed(before[k]) ensures k in desired {
        assert k in after;
      }
    }
    if Converged(before, desired) {
      assert after.Keys == before.Keys;
    }
  }

  /** An interrupted pass: each key is as before or as a complete pass would leave it. */
  ghost predicate Partial(before: Objects, desired: Objects, now: Objects) {
    forall k :: Unchanged(before, now, k) || Unchanged(Reconciled(before, desired), now, k)
  }

  ghost predicate Unchanged(before: Objects, after: Objects, k: Key) {
    (k in before <==> k in after) && (k in before ==> before[k] == after[k])
  }

  // ---------------------------------------------------------------- the pass

  /** What a pass leaves behind when it deals with one key successfully, given the managed policies it
      listed: create, update or delete.
   */
  function Acted(listed: Objects, desired: Objects, objects: Objects, k: Key): Objects {
    if k in desired then
      if k !in listed then if k in objects then objects else objects[k := desired[k]]
      else if Brought(listed[k], desired[k]) == listed[k] then objects
      else objects[k := Brought(listed[k], desired[k])]
    else objects - {k}
  }

  /** The update of a key conflicts: what is stored is no longer what was listed. */
  predicate Stale(listed: Objects, desired: Objects, objects: Objects, k: Key) {
    && k in desired && k in listed && Brought(listed[k], desired[k]) != listed[k]
    && !(k in objects && objects[k] == listed[k])
  }

  /** Undisturbed, a key reaches what it should. */
  lemma ActedIsReached(before: Objects, listed: Objects, np: NetworkPolicy, objects: Objects)
    requires listed == map k | k in before && Managed(before[k]) :: before[k]
    requires Unchanged(before, objects, KeyOf(np))
    ensures
      var k := KeyOf(np);
      Acted(listed, map[k := np], objects, k) == objects[k := Reached(before, map[k := np], k)]
  {
    var k := KeyOf(np);
    if k in objects {
      assert objects[k := objects[k]] == objects;
    }
  }

  class Controller {
    const api: NetworkPolicyApi

    constructor (api: NetworkPolicyApi)
      ensures this.api == api
    {
      this.api := api;
    }

    method Create(np: NetworkPolicy) returns (ok: bool)
      modifies api
      ensures ok && KeyOf(np) !in old(api.objects) ==>
                api.objects == old(api.objects)[KeyOf(np) := np] && api.writes == old(api.writes) + [Created(KeyOf(np))]
      ensures !ok || KeyOf(np) in old(api.objects) ==> api.objects == old(api.objects) && api.writes == old(api.writes)
    {
      var err := api.Create(np);
      ok := err == None || err == Some(AlreadyExists);
    }

    method Update(current: NetworkPolicy, desired: NetworkPolicy) returns (ok: bool)
      modifies api
      ensures ok && Brought(current, desired) != current ==>
                && KeyOf(current) in old(api.objects) && old(api.objects)[KeyOf(current)] == current
                && api.objects == old(api.objects)[KeyOf(current) := Brought(current, desired)]
                && api.writes == old(api.writes) + [Updated(KeyOf(current))]
      ensures Brought(current, desired) == current ==> ok
      ensures !ok || Brought(current, desired) == current ==> api.objects == old(api.objects) && api.writes == old(api.writes)
    {
      if current.spec == desired.spec && current.ownerReferences == desired.ownerReferences && current.labels == desired.labels {
        assert Brought(current, desired) == current;
        return true;
      }
      var err := api.Update(current, Brought(current, desired));
      ok := err == None;
    }

    method Delete(np: NetworkPolicy) returns (ok: bool)
      modifies api
      ensures ok ==> api.objects == old(api.objects) - {KeyOf(np)}
      ensures ok && KeyOf(np) in old(api.objects) ==> api.writes == old(api.writes) + [Deleted(KeyOf(np))]
      ensures !ok ==> api.objects == old(api.objects) && api.writes == old(api.writes)
    {
      var err := api.Delete(KeyOf(np));
      ok := err == None || err == Some(NotFound);
    }

    /** existingByKey, filled from the listed policies. */
    static method IndexByKey(existing: seq<NetworkPolicy>, ghost before: Objects) returns (byKey: Objects)
      requires WellKeyed(before)
      requires forall np :: np in existing <==> exists k | k in before :: before[k] == np && Managed(np)
      ensures byKey == map k | k in before && Managed(before[k]) :: before[k]
    {
      byKey := map[];
      for i := 0 to |existing|
        invariant forall k :: k in byKey <==> k in before && before[k] in existing[..i]
        invariant forall k | k in byKey :: byKey[k] == before[k]
      {
        var np := existing[i];
        assert np in existing;
        ghost var at :| at in before && before[at] == np && Managed(np);
        assert at == KeyOf(np);
        byKey := byKey[KeyOf(np) := np];
      }
      assert existing[..|existing|] == existing;
      forall k | k in before && Managed(before[k]) ensures before[k] in existing {
      }
    }

    /** One step of apply's first loop, whatever others have written since `byKey` was listed. */
    method ApplyOne(np: NetworkPolicy, byKey: Objects) returns (ok: bool)
      requires KeyOf(np) in byKey ==> KeyOf(byKey[KeyOf(np)]) == KeyOf(np)
      modifies api
      ensures ok ==> !Stale(byKey, map[KeyOf(np) := np], old(api.objects), KeyOf(np))
      ensures api.objects == if ok then Acted(byKey, map[KeyOf(np) := np], old(api.objects), KeyOf(np)) else old(api.objects)
      ensures KeyOf(np) in byKey && Brought(byKey[KeyOf(np)], np) == byKey[KeyOf(np)] ==> api.writes == old(api.writes)
      ensures KeyOf(np) !in byKey && KeyOf(np) in old(api.objects) ==> api.writes == old(api.writes)
    {
      var k := KeyOf(np);
      if k !in byKey {
        ok := Create(np);
      } else {
        ok := Update(byKey[k], np);
      }
    }

    /** The first loop of apply: create or update every desired policy, in whatever order. */
    method ApplyDesired(desired: Objects, byKey: Objects, ghost before: Objects) returns (ok: bool)
      requires Desirable(desired) && WellKeyed(before) && api.objects == before
      requires byKey == map k | k in before && Managed(before[k]) :: before[k]
      modifies api
      ensures exists todo :: todo <= desired.Keys && Applied(before, desired, todo, {}, api.objects) && (ok ==> todo == {})
      ensures Converged(before, desired) ==> api.writes == old(api.writes)
    {
      var todo := desired.Keys;
      while todo != {}
        invariant todo <= desired.Keys && Applied(before, desired, todo, {}, api.objects)
        invariant Converged(before, desired) ==> api.writes == old(api.writes)
      {
        var k :| k in todo;
        assert Unchanged(before, api.objects, k) && KeyOf(desired[k]) == k;
        ApplyStep(before, desired, todo, api.objects, k);
        ActedIsReached(before, byKey, desired[k], api.objects);
        ok := ApplyOne(desired[k], byKey);
        if !ok {
          return;
        }
        todo := todo - {k};
      }
      ok := true;
    }

    /** The second loop of apply: delete the managed policies nobody desires. */
    method DeleteOrphans(desired: Objects, byKey: Objects, ghost before: Objects) returns (ok: bool, ghost gone: set<Key>)
      requires WellKeyed(before) && Applied(before, desired, {}, {}, api.objects)
      requires byKey == map k | k in before && Managed(before[k]) :: before[k]
      modifies api
      ensures gone <= byKey.Keys && Applied(before, desired, {}, gone, api.objects) && (ok ==> gone == byKey.Keys)
      ensures Converged(before, desired) ==> api.writes == old(api.writes)
    {
      var todo := byKey.Keys;
      gone := {};
      while todo != {}
        invariant todo <= byKey.Keys && gone == byKey.Keys - todo
        invariant Applied(before, desired, {}, gone, api.objects)
        invariant Converged(before, desired) ==> api.writes == old(api.writes)
      {
        var k :| k in todo;
        assert KeyOf(byKey[k]) == k;
        DeleteStep(before, desired, gone, api.objects, k);
        if k !in desired {
          ok := Delete(byKey[k]);
          if !ok {
            return;
          }
        }
        todo := todo - {k};
        gone := gone + {k};
      }
      ok := true;
    }

    method Apply(desired: Objects, existing: seq<NetworkPolicy>) returns (ok: bool)
      requires Desirable(desired) && WellKeyed(api.objects)
      requires forall np :: np in existing <==> exists k | k in api.objects :: api.objects[k] == np && Managed(np)
      modifies api
      ensures ok ==> api.objects == Reconciled(old(api.objects), desired)
      ensures Partial(old(api.objects), desired, api.objects)
      ensures Reconciled(old(api.objects), desired) == old(api.objects) ==> api.writes == old(api.writes)
    {
      ghost var before := api.objects;
      ConvergedExactly(before, desired);
      var byKey := IndexByKey(existing, before);
      ok := ApplyDesired(desired, byKey, before);
      if !ok {
        ghost var todo :| Applied(before, desired, todo, {}, api.objects);
        PassIsPartial(before, desired, todo, {}, api.objects);
        return;
      }
      ghost var gone;
      ok, gone := DeleteOrphans(desired, byKey, before);
      assert byKey.Keys == set k | k in before && Managed(before[k]);
      PassIsPartial(before, desired, {}, gone, api.objects);
      if ok {
        PassReaches(before, desired, gone, api.objects);
      }
    }

    /** One pass over the cached ClusterNetworkPolicies and Namespaces. A pass that succeeds reaches
        Reconciled; one that fails has only taken some of its steps; unmanaged policies are untouched
        either way, and where there is nothing to change nothing is written.
     */
    method Reconcile(cnps: seq<DecodedCNP>, namespaces: seq<Namespace>)
      returns (err: Option<ReconcileError>, ghost desired: Objects)
      requires WellKeyed(api.objects) && DistinctNames(cnps) && DistinctNamespaces(namespaces)
      modifies api
      ensures WellKeyed(api.objects)
      ensures err == Some(BadSelector) <==> exists dc, ns | dc in cnps && ns in namespaces :: NamespaceMatches(dc.cnp.subject.namespaces, ns) == None
      ensures err == Some(BadSelector) ==> api.objects == old(api.objects)
      ensures err != Some(BadSelector) ==> IsDesired(desired, cnps, namespaces)
      ensures err == None ==> api.objects == Reconciled(old(api.objects), desired)
      ensures err != Some(BadSelector) ==> Partial(old(api.objects), desired, api.objects)
      ensures err != Some(BadSelector) && Reconciled(old(api.objects), desired) == old(api.objects) ==> api.writes == old(api.writes)
      ensures forall k | k in old(api.objects) && !Managed(old(api.objects)[k]) :: Unchanged(old(api.objects), api.objects, k)
    {
      desired := map[];
      var want := DesiredNetworkPolicies(cnps, namespaces);
      if want.Failure? {
        return Some(BadSelector), desired;
      }
      desired := want.value;
      DesiredIsDesirable(desired, cnps, namespaces);
      var existing := api.ListManaged();
      if existing.Failure? {
        return Some(ApiFailed), desired;
      }
      var ok := Apply(want.value, existing.value);
      err := if ok then None else Some(ApiFailed);
      PartialKeepsUnmanaged(old(api.objects), desired, api.objects);
    }
  }

  lemma PartialKeepsUnmanaged(before: Objects, desired: Objects, now: Objects)
    requires Desirable(desired) && WellKeyed(before) && Partial(before, desired, now)
    ensures WellKeyed(now)
    ensures forall k | k in before && !Managed(before[k]) :: Unchanged(before, now, k)
  {
    var after := Reconciled(before, desired);
    forall k | k in now ensures KeyOf(now[k]) == k {
      assert Unchanged(before, now, k) || Unchanged(after, now, k);
    }
    forall k | k in before && !Managed(before[k]) ensures Unchanged(before, now, k) {
      assert Unchanged(before, now, k) || Unchanged(after, now, k);
      assert k in after && after[k] == before[k];
    }
  }

  // ---------------------------------------------------------------- the desired policies

  datatype DecodedCNP = DecodedCNP(cnp: ClusterNetworkPolicy, uid: string)

  datatype Namespace = Namespace(name: string, labels: Labels)

  predicate ValidRequirement(r: Requirement) {
    match r.operator
    case In | NotIn => |r.values| > 0
    case Exists | DoesNotExist => |r.values| == 0
  }

  /** Whether the selector selects the namespace; None for a selector that cannot be parsed. */
  function NamespaceMatches(selector: Option<LabelSelector>, ns: Namespace): Option<bool> {
    if selector.None? then Some(false)
    else if !(forall r | r in selector.value.matchExpressions :: ValidRequirement(r)) then None
    else Some(SelectorMatches(selector.value, ns.labels))
  }

  /** A subject without a namespace selector selects no namespace, an empty selector every one, and a
      selector fails exactly when it lists values for Exists or DoesNotExist, or none for In or NotIn.
   */
  lemma SelectedExactly(selector: Option<LabelSelector>, ns: Namespace)
    ensures NamespaceMatches(selector, ns) == Some(true) <==>
            selector.Some? && (forall r | r in selector.value.matchExpressions :: TakesValues(r.operator) <==> r.values != [])
            && SelectorMatches(selector.value, ns.labels)
    ensures NamespaceMatches(selector, ns) == None <==>
            selector.Some? && exists r | r in selector.value.matchExpressions :: TakesValues(r.operator) <==> r.values == []
    ensures NamespaceMatches(Some(LabelSelector(map[], [])), ns) == Some(true)
  {
    if selector.Some? {
      forall r | r in selector.value.matchExpressions ensures ValidRequirement(r) <==> (TakesValues(r.operator) <==> r.values != []) {
      }
    }
  }

  predicate TakesValues(operator: Operator) {
    operator == In || operator == NotIn
  }

  function CnpOwnerReference(dc: DecodedCNP): OwnerReference {
    OwnerReference("networking.k8s.aws/v1alpha1", "ClusterNetworkPolicy", dc.cnp.name, dc.uid, true)
  }

  /** The policy one ClusterNetworkPolicy asks for in one namespace, if any. */
  function Derived(dc: DecodedCNP, ns: Namespace): Option<NetworkPolicy> {
    if NamespaceMatches(dc.cnp.subject.namespaces, ns) != Some(true) then None
    else
      match Translation(dc.cnp, ns.name)
      case None => None
      case Some(np) => Some(np.(ownerReferences := [CnpOwnerReference(dc)]))
  }

  function DerivedKey(dc: DecodedCNP, ns: Namespace): Key {
    Key(ns.name, NetworkPolicyName(dc.cnp.name))
  }

  ghost predicate DistinctNames(cnps: seq<DecodedCNP>) {
    forall i, j | 0 <= i < j < |cnps| :: cnps[i].cnp.name != cnps[j].cnp.name
  }

  ghost predicate DistinctNamespaces(namespaces: seq<Namespace>) {
    forall i, j | 0 <= i < j < |namespaces| :: namespaces[i].name != namespaces[j].name
  }

  /** `desired` holds what each ClusterNetworkPolicy asks for in each namespace, and nothing else. */
  ghost predicate IsDesired(desired: Objects, cnps: seq<DecodedCNP>, namespaces: seq<Namespace>) {
    && (forall dc, ns | dc in cnps && ns in namespaces && Derived(dc, ns).Some? ::
          DerivedKey(dc, ns) in desired && desired[DerivedKey(dc, ns)] == Derived(dc, ns).value)
    && (forall k | k in desired :: exists dc, ns | dc in cnps && ns in namespaces ::
          Derived(dc, ns).Some? && k == DerivedKey(dc, ns))
  }

  lemma DesiredIsDesirable(desired: Objects, cnps: seq<DecodedCNP>, namespaces: seq<Namespace>)
    requires IsDesired(desired, cnps, namespaces)
    ensures Desirable(desired)
  {
    forall k | k in desired ensures KeyOf(desired[k]) == k && Managed(desired[k]) {
      var dc, ns :| dc in cnps && ns in namespaces && Derived(dc, ns).Some? && k == DerivedKey(dc, ns);
      assert desired[k] == Derived(dc, ns).value;
    }
  }

  /** The inner loop has added what the first `n` namespaces ask for, and nothing else. */
  ghost predicate DerivedUpTo(dc: DecodedCNP, namespaces: seq<Namespace>, n: int, sofar: Objects, desired: Objects)
    requires 0 <= n <= |namespaces|
  {
    && sofar.Keys <= desired.Keys && (forall k | k in sofar :: desired[k] == sofar[k])
    && (forall ns | ns in namespaces[..n] && Derived(dc, ns).Some? ::
          DerivedKey(dc, ns) in desired && desired[DerivedKey(dc, ns)] == Derived(dc, ns).value)
    && (forall k | k in desired && k !in sofar :: AskedFor(dc, namespaces[..n], k))
  }

  ghost predicate AskedFor(dc: DecodedCNP, namespaces: seq<Namespace>, k: Key) {
    exists ns | ns in namespaces :: Derived(dc, ns).Some? && k == DerivedKey(dc, ns)
  }

  lemma DerivedNext(dc: DecodedCNP, namespaces: seq<Namespace>, n: int, sofar: Objects, desired: Objects)
    requires DistinctNamespaces(namespaces) && 0 <= n < |namespaces| && DerivedUpTo(dc, namespaces, n, sofar, desired)
    requires forall ns | ns in namespaces :: DerivedKey(dc, ns) !in sofar
    ensures
      var ns := namespaces[n];
      DerivedUpTo(dc, namespaces, n + 1, sofar,
                  if Derived(dc, ns).Some? then desired[DerivedKey(dc, ns) := Derived(dc, ns).value] else desired)
  {
    var ns := namespaces[n];
    var next := if Derived(dc, ns).Some? then desired[DerivedKey(dc, ns) := Derived(dc, ns).value] else desired;
    assert ns in namespaces && namespaces[..n + 1] == namespaces[..n] + [ns];
    forall other | other in namespaces[..n + 1] && Derived(dc, other).Some?
      ensures DerivedKey(dc, other) in next && next[DerivedKey(dc, other)] == Derived(dc, other).value
    {
      assert other == ns || (other in namespaces[..n] && other.name != ns.name);
    }
    forall k | k in next && k !in sofar ensures AskedFor(dc, namespaces[..n + 1], k) {
      AskedForMore(dc, namespaces[..n], ns, k);
    }
  }

  lemma AskedForMore(dc: DecodedCNP, namespaces: seq<Namespace>, ns: Namespace, k: Key)
    ensures AskedFor(dc, namespaces + [ns], k) <==>
            AskedFor(dc, namespaces, k) || (Derived(dc, ns).Some? && k == DerivedKey(dc, ns))
  {
    assert forall other :: other in namespaces + [ns] <==> other in namespaces || other == ns;
  }

  /** The inner loop of desiredNetworkPolicies: one ClusterNetworkPolicy over the namespaces. */
  method DesiredFor(dc: DecodedCNP, namespaces: seq<Namespace>, sofar: Objects) returns (r: Result<Objects, ReconcileError>)
    requires DistinctNamespaces(namespaces)
    requires forall ns | ns in namespaces :: DerivedKey(dc, ns) !in sofar
    ensures r.Failure? <==> exists ns | ns in namespaces :: NamespaceMatches(dc.cnp.subject.namespaces, ns) == None
    ensures r.Success? ==> sofar.Keys <= r.value.Keys && forall k | k in sofar :: r.value[k] == sofar[k]
    ensures r.Success? ==> forall ns | ns in namespaces && Derived(dc, ns).Some? ::
              DerivedKey(dc, ns) in r.value && r.value[DerivedKey(dc, ns)] == Derived(dc, ns).value
    ensures r.Success? ==> forall k | k in r.value && k !in sofar :: AskedFor(dc, namespaces, k)
  {
    var desired := sofar;
    for i := 0 to |namespaces|
      invariant forall ns | ns in namespaces[..i] :: NamespaceMatches(dc.cnp.subject.namespaces, ns) != None
      invariant DerivedUpTo(dc, namespaces, i, sofar, desired)
    {
      var ns := namespaces[i];
      assert ns in namespaces && namespaces[..i + 1] == namespaces[..i] + [ns];
      DerivedNext(dc, namespaces, i, sofar, desired);
      var matches := NamespaceMatches(dc.cnp.subject.namespaces, ns);
      if matches.None? {
        return Failure(BadSelector);
      }
      if !matches.value {
        continue;
      }
      var np, unsupported := TranslateClusterNetworkPolicy(dc.cnp, ns.name);
      if np.None? {
        continue;
      }
      desired := desired[Key(ns.name, np.value.name) := np.value.(ownerReferences := [CnpOwnerReference(dc)])];
    }
    assert namespaces[..|namespaces|] == namespaces;
    r := Success(desired);
  }

  method DesiredNetworkPolicies(cnps: seq<DecodedCNP>, namespaces: seq<Namespace>) returns (r: Result<Objects, ReconcileError>)
    requires DistinctNames(cnps) && DistinctNamespaces(namespaces)
    ensures r.Failure? <==> exists dc, ns | dc in cnps && ns in namespaces :: NamespaceMatches(dc.cnp.subject.namespaces, ns) == None
    ensures r.Success? ==> IsDesired(r.value, cnps, namespaces)
  {
    var desired: Objects := map[];
    for i := 0 to |cnps|
      invariant forall dc, ns | dc in cnps[..i] && ns in namespaces :: NamespaceMatches(dc.cnp.subject.namespaces, ns) != None
      invariant IsDesired(desired, cnps[..i], namespaces)
    {
      var dc := cnps[i];
      assert dc in cnps && cnps[..i + 1] == cnps[..i] + [dc];
      forall ns | ns in namespaces ensures DerivedKey(dc, ns) !in desired {
        FreshKey(desired, cnps, i, namespaces, ns);
      }
      var next := DesiredFor(dc, namespaces, desired);
      if next.Failure? {
        return Failure(BadSelector);
      }
      desired := next.value;
    }
    assert cnps[..|cnps|] == cnps;
    r := Success(desired);
  }

  lemma NamesInjective(a: string, b: string)
    requires NetworkPolicyName(a) == NetworkPolicyName(b)
    ensures a == b
  {
    assert NetworkPolicyName(a)[10..] == a && NetworkPolicyName(b)[10..] == b;
  }

  /** The names of distinct ClusterNetworkPolicies give distinct keys. */
  lemma FreshKey(desired: Objects, cnps: seq<DecodedCNP>, i: int, namespaces: seq<Namespace>, ns: Namespace)
    requires DistinctNames(cnps) && 0 <= i < |cnps| && IsDesired(desired, cnps[..i], namespaces)
    ensures DerivedKey(cnps[i], ns) !in desired
  {
    forall dc, other | dc in cnps[..i] && other in namespaces ensures DerivedKey(dc, other) != DerivedKey(cnps[i], ns) {
      if NetworkPolicyName(dc.cnp.name) == NetworkPolicyName(cnps[i].cnp.name) {
        NamesInjective(dc.cnp.name, cnps[i].cnp.name);
      }
    }
  }

  /** Every managed policy a successful pass leaves belongs to a ClusterNetworkPolicy that selects its
      namespace: it has the translation's rules, applies to every pod, and is owned by that
      ClusterNetworkPolicy, so that deleting the owner deletes it.
   */
  lemma StoredIsOwned(before: Objects, desired: Objects, cnps: seq<DecodedCNP>, namespaces: seq<Namespace>, k: Key)
    returns (dc: DecodedCNP, ns: Namespace)
    requires IsDesired(desired, cnps, namespaces)
    requires k in Reconciled(before, desired) && Managed(Reconciled(before, desired)[k])
    ensures dc in cnps && ns in namespaces && k == Key(ns.name, "fjord-cnp-" + dc.cnp.name)
    ensures dc.cnp.subject.namespaces.Some? && SelectorMatches(dc.cnp.subject.namespaces.value, ns.labels)
    ensures
      var stored := Reconciled(before, desired)[k];
      && Translation(dc.cnp, ns.name).Some? && stored.spec == Translation(dc.cnp, ns.name).value.spec
      && stored.spec.podSelector == LabelSelector(map[], []) && stored.spec.policyTypes == ["Ingress"]
      && stored.labels == map["app.kubernetes.io/managed-by" := "fjord"]
      && stored.annotations == (if k in before then before[k].annotations else map[])
      && stored.ownerReferences ==
           [OwnerReference("networking.k8s.aws/v1alpha1", "ClusterNetworkPolicy", dc.cnp.name, dc.uid, true)]
  {
    DesiredIsDesirable(desired, cnps, namespaces);
    ReconciledMeans(before, desired);
    dc, ns :| dc in cnps && ns in namespaces && Derived(dc, ns).Some? && k == DerivedKey(dc, ns);
    DerivedIs(dc, ns);
  }

  lemma DerivedIs(dc: DecodedCNP, ns: Namespace)
    requires Derived(dc, ns).Some?
    ensures DerivedKey(dc, ns) == Key(ns.name, "fjord-cnp-" + dc.cnp.name)
    ensures dc.cnp.subject.namespaces.Some? && SelectorMatches(dc.cnp.subject.namespaces.value, ns.labels)
    ensures
      var np := Derived(dc, ns).value;
      && Translation(dc.cnp, ns.name).Some? && np.spec == Translation(dc.cnp, ns.name).value.spec
      && np.spec.podSelector == LabelSelector(map[], []) && np.spec.policyTypes == ["Ingress"]
      && np.labels == map["app.kubernetes.io/managed-by" := "fjord"] && np.annotations == map[]
      && np.ownerReferences == [OwnerReference("networking.k8s.aws/v1alpha1", "ClusterNetworkPolicy", dc.cnp.name, dc.uid, true)]
  {
    SelectedExactly(dc.cnp.subject.namespaces, ns);
  }

  /** After a successful pass the stored policy of a selected namespace gives, taken alone, the verdict of
      the translation, unless an unmanaged policy already sat under its key.
   */
  lemma PassEnforces(before: Objects, desired: Objects, cnps: seq<DecodedCNP>, namespaces: seq<Namespace>,
                     dc: DecodedCNP, ns: Namespace, t: Traffic)
    requires IsDesired(desired, cnps, namespaces) && dc in cnps && ns in namespaces && Derived(dc, ns).Some?
    requires DerivedKey(dc, ns) in before ==> Managed(before[DerivedKey(dc, ns)])
    ensures DerivedKey(dc, ns) in Reconciled(before, desired)
    ensures Verdict(Some(Reconciled(before, desired)[DerivedKey(dc, ns)]), t) <==> Verdict(Translation(dc.cnp, ns.name), t)
  {
    DesiredIsDesirable(desired, cnps, namespaces);
    ReconciledMeans(before, desired);
    assert desired[DerivedKey(dc, ns)] == Derived(dc, ns).value;
  }
}
