/** Access policies (internal/agent/facade.go): what the facade records for a principal, the RBAC
    bindings it creates and deletes for it, and the groups a principal is given.
 */
module AccessPolicies {
  import opened Registries
  import opened Wrappers

  // ---------------------------------------------------------------- names

  /** path.Base of Go: the last element, "." for an empty path and "/" for slashes only. */
  function Base(path: string): string {
    if path == "" then "." else if Trimmed(path) == "" then "/" else AfterSlash(Trimmed(path))
  }

  function Trimmed(path: string): string {
    if path == "" || path[|path| - 1] != '/' then path else Trimmed(path[..|path| - 1])
  }

  function AfterSlash(path: string): string {
    if path == "" || path[|path| - 1] == '/' then "" else AfterSlash(path[..|path| - 1]) + [path[|path| - 1]]
  }

  function RoleNamed(policy: string): Option<string> {
    match policy
    case "AmazonEKSClusterAdminPolicy" => Some("cluster-admin")
    case "AmazonEKSAdminPolicy" => Some("admin")
    case "AmazonEKSEditPolicy" => Some("edit")
    case "AmazonEKSViewPolicy" => Some("view")
    case _ => None
  }

  function ClusterRoleForPolicy(policyARN: string): Option<string> {
    RoleNamed(Base(policyARN))
  }

  const CLUSTER := "cluster"
  const NAMESPACE := "namespace"

  function BindingName(hash: string -> string, arn: string, role: string): string {
    "fjord-access-entry-" + hash(arn) + "-" + role
  }

  function PrincipalGroup(hash: string -> string, arn: string): string {
    "fjord:access-entry:" + hash(arn)
  }

  /** A digest always has sixteen characters. */
  ghost predicate IsDigest(hash: string -> string) {
    forall arn :: |hash(arn)| == 16
  }

  /** A binding's name determines the digest and the role. */
  lemma BindingNameDetermines(hash: string -> string, arn: string, role: string, arn': string, role': string)
    requires IsDigest(hash) && BindingName(hash, arn, role) == BindingName(hash, arn', role')
    ensures hash(arn) == hash(arn') && role == role'
  {
    var name, n := BindingName(hash, arn, role), |"fjord-access-entry-"|;
    assert name[n..n + 16] == hash(arn) && name[n..n + 16] == hash(arn');
    assert name[n + 17..] == role && name[n + 17..] == role';
  }

  // ---------------------------------------------------------------- the state

  datatype BindingKey = InCluster(name: string) | InNamespace(namespace: string, name: string)

  /** A ClusterRoleBinding or RoleBinding of a group to a ClusterRole. */
  datatype Grant = Grant(role: string, group: string)

  datatype Store = Store(entries: map<string, AccessEntry>, bindings: map<BindingKey, Grant>)

  datatype Reply = Done | InvalidParameter | ResourceNotFound

  function NamespaceKeys(name: string, namespaces: seq<string>): set<BindingKey> {
    set ns | ns in namespaces :: InNamespace(ns, name)
  }

  lemma NamespaceKeysNext(name: string, namespaces: seq<string>, i: nat)
    requires i < |namespaces|
    ensures NamespaceKeys(name, namespaces[..i + 1]) == NamespaceKeys(name, namespaces[..i]) + {InNamespace(namespaces[i], name)}
  {
  }

  /** The bindings of one policy: one for the cluster or one in each namespace. */
  function BindingKeys(hash: string -> string, arn: string, role: string, scopeType: string, namespaces: seq<string>): set<BindingKey> {
    if scopeType == CLUSTER then {InCluster(BindingName(hash, arn, role))}
    else NamespaceKeys(BindingName(hash, arn, role), namespaces)
  }

  function PolicyKeys(hash: string -> string, arn: string, policy: AccessPolicy): set<BindingKey> {
    match ClusterRoleForPolicy(policy.policyARN)
    case None => {}
    case Some(role) => BindingKeys(hash, arn, role, policy.scopeType, policy.namespaces)
  }

  function GrantOf(hash: string -> string, arn: string, role: string): Grant {
    Grant(role, PrincipalGroup(hash, arn))
  }

  /** Creating bindings; one that exists is left as it is. */
  function WithBindings(bindings: map<BindingKey, Grant>, keys: set<BindingKey>, grant: Grant): map<BindingKey, Grant> {
    (map k | k in keys :: grant) + bindings
  }

  lemma WithBindingsTwice(bindings: map<BindingKey, Grant>, a: set<BindingKey>, b: set<BindingKey>, grant: Grant)
    ensures WithBindings(WithBindings(bindings, a, grant), b, grant) == WithBindings(bindings, a + b, grant)
  {
  }

  function Upserted(policies: seq<AccessPolicy>, policy: AccessPolicy): seq<AccessPolicy> {
    if policies == [] then [policy]
    else if policies[0].policyARN == policy.policyARN then [policy] + policies[1..]
    else [policies[0]] + Upserted(policies[1..], policy)
  }

  function Find(policies: seq<AccessPolicy>, policyARN: string): Option<AccessPolicy> {
    if policies == [] then None
    else if policies[0].policyARN == policyARN then Some(policies[0])
    else Find(policies[1..], policyARN)
  }

  function Removed(policies: seq<AccessPolicy>, policyARN: string): seq<AccessPolicy> {
    if policies == [] then []
    else
      var front, last := Removed(policies[..|policies| - 1], policyARN), policies[|policies| - 1];
      if last.policyARN == policyARN then front else front + [last]
  }

  // ---------------------------------------------------------------- the requests

  datatype Request =
    | CreateEntry(arn: string, username: string, groups: seq<string>)
    | DeleteAccessEntry(arn: string)
    | Associate(arn: string, policyARN: string, scope: string, namespaces: seq<string>)
    | Disassociate(arn: string, policyARN: string)

  function EffectiveScope(scope: string): string {
    if scope == "" then CLUSTER else scope
  }

  predicate ValidScope(scope: string, namespaces: seq<string>) {
    EffectiveScope(scope) == CLUSTER || (scope == NAMESPACE && namespaces != [])
  }

  function Answer(s: Store, r: Request): Reply {
    match r
    case CreateEntry(arn, _, _) => if arn == "" then InvalidParameter else Done
    case DeleteAccessEntry(arn) => if arn == "" then InvalidParameter else if arn !in s.entries then ResourceNotFound else Done
    case Associate(arn, policyARN, scope, namespaces) =>
      if arn == "" || ClusterRoleForPolicy(policyARN).None? || !ValidScope(scope, namespaces) then InvalidParameter
      else if arn !in s.entries then ResourceNotFound
      else Done
    case Disassociate(arn, policyARN) =>
      if arn == "" || policyARN == "" then InvalidParameter
      else if arn !in s.entries then ResourceNotFound
      else if ClusterRoleForPolicy(policyARN).None? then InvalidParameter
      else if Find(s.entries[arn].policies, policyARN).None? then ResourceNotFound
      else Done
  }

  /** What a request leaves behind; a refused one changes nothing. */
  function Handle(hash: string -> string, s: Store, r: Request): Store {
    if Answer(s, r) != Done then s
    else
      match r
      case CreateEntry(arn, username, groups) => s.(entries := s.entries[arn := AccessEntry(arn, username, groups, "STANDARD", [])])
      case DeleteAccessEntry(arn) => s.(entries := s.entries - {arn})
      case Associate(arn, policyARN, scope, namespaces) =>
        var entry, role := s.entries[arn], ClusterRoleForPolicy(policyARN).value;
        var policy := AccessPolicy(policyARN, EffectiveScope(scope), namespaces);
        Store(s.entries[entry.principalARN := entry.(policies := Upserted(entry.policies, policy))],
              WithBindings(s.bindings, PolicyKeys(hash, entry.principalARN, policy), GrantOf(hash, entry.principalARN, role)))
      case Disassociate(arn, policyARN) =>
        var entry, policy := s.entries[arn], Find(s.entries[arn].policies, policyARN).value;
        Store(s.entries[entry.principalARN := entry.(policies := Removed(entry.policies, policyARN))],
              s.bindings - PolicyKeys(hash, entry.principalARN, policy))
  }

  // ---------------------------------------------------------------- the facade

  class Facade {
    const hash: string -> string
    var entries: map<string, AccessEntry>
    var bindings: map<BindingKey, Grant>

    function Contents(): Store
      reads this
    {
      Store(entries, bindings)
    }

    constructor (hash: string -> string, bindings: map<BindingKey, Grant>)
      ensures this.hash == hash && Contents() == Store(map[], bindings)
    {
      this.hash, this.entries, this.bindings := hash, map[], bindings;
    }

    method HandleCreateAccessEntry(arn: string, username: string, groups: seq<string>) returns (reply: Reply)
      modifies this
      ensures reply == Answer(old(Contents()), CreateEntry(arn, username, groups))
      ensures Contents() == Handle(hash, old(Contents()), CreateEntry(arn, username, groups))
    {
      if arn == "" {
        return InvalidParameter;
      }
      entries := entries[arn := AccessEntry(arn, username, groups, "STANDARD", [])];
      reply := Done;
    }

    method HandleDeleteAccessEntry(arn: string) returns (reply: Reply)
      modifies this
      ensures reply == Answer(old(Contents()), DeleteAccessEntry(arn))
      ensures Contents() == Handle(hash, old(Contents()), DeleteAccessEntry(arn))
    {
      if arn == "" {
        return InvalidParameter;
      }
      if arn !in entries {
        return ResourceNotFound;
      }
      entries := entries - {arn};
      reply := Done;
    }

    method HandleAssociateAccessPolicy(arn: string, policyARN: string, scope: string, namespaces: seq<string>) returns (reply: Reply)
      modifies this
      ensures reply == Answer(old(Contents()), Associate(arn, policyARN, scope, namespaces))
      ensures Contents() == Handle(hash, old(Contents()), Associate(arn, policyARN, scope, namespaces))
    {
      if arn == "" {
        return InvalidParameter;
      }
      var role := ClusterRoleForPolicy(policyARN);
      if role.None? {
        return InvalidParameter;
      }
      var scopeType := if scope == "" then CLUSTER else scope;
      if scopeType != CLUSTER && scopeType != NAMESPACE {
        return InvalidParameter;
      }
      if scopeType == NAMESPACE && |namespaces| == 0 {
        return InvalidParameter;
      }
      if arn !in entries {
        return ResourceNotFound;
      }
      var entry := entries[arn];
      Materialize(entry.principalARN, role.value, scopeType, namespaces);
      var policies := UpsertAssociatedPolicy(entry.policies, AccessPolicy(policyARN, scopeType, namespaces));
      entries := entries[entry.principalARN := entry.(policies := policies)];
      reply := Done;
    }

    method HandleDisassociateAccessPolicy(arn: string, policyARN: string) returns (reply: Reply)
      modifies this
      ensures reply == Answer(old(Contents()), Disassociate(arn, policyARN))
      ensures Contents() == Handle(hash, old(Contents()), Disassociate(arn, policyARN))
    {
      if arn == "" || policyARN == "" {
        return InvalidParameter;
      }
      if arn !in entries {
        return ResourceNotFound;
      }
      var entry := entries[arn];
      var role := ClusterRoleForPolicy(policyARN);
      if role.None? {
        return InvalidParameter;
      }
      var policy := FindAssociatedPolicy(entry.policies, policyARN);
      if policy.None? {
        return ResourceNotFound;
      }
      FindIsNamed(entry.policies, policyARN);
      Remove(entry.principalARN, role.value, policy.value.scopeType, policy.value.namespaces);
      var policies := RemoveAssociatedPolicy(entry.policies, policyARN);
      entries := entries[entry.principalARN := entry.(policies := policies)];
      reply := Done;
    }

    /** materializeAccessPolicyRBAC: what exists already is left as it is. */
    method Materialize(arn: string, role: string, scopeType: string, namespaces: seq<string>)
      modifies this`bindings
      ensures bindings == WithBindings(old(bindings), BindingKeys(hash, arn, role, scopeType, namespaces), GrantOf(hash, arn, role))
    {
      var name, grant := BindingName(hash, arn, role), GrantOf(hash, arn, role);
      if scopeType == CLUSTER {
        Ensure(InCluster(name), grant);
        return;
      }
      for i := 0 to |namespaces|
        invariant bindings == WithBindings(old(bindings), NamespaceKeys(name, namespaces[..i]), grant)
      {
        Ensure(InNamespace(namespaces[i], name), grant);
        WithBindingsTwice(old(bindings), NamespaceKeys(name, namespaces[..i]), {InNamespace(namespaces[i], name)}, grant);
        NamespaceKeysNext(name, namespaces, i);
      }
      assert namespaces[..|namespaces|] == namespaces;
    }

    /** Create, with an already existing binding counting as success. */
    method Ensure(key: BindingKey, grant: Grant)
      modifies this`bindings
      ensures bindings == WithBindings(old(bindings), {key}, grant)
    {
      if key !in bindings {
        bindings := bindings[key := grant];
      }
    }

    /** removeAccessPolicyRBAC: what is gone already is fine. */
    method Remove(arn: string, role: string, scopeType: string, namespaces: seq<string>)
      modifies this`bindings
      ensures bindings == old(bindings) - BindingKeys(hash, arn, role, scopeType, namespaces)
    {
      var name := BindingName(hash, arn, role);
      if scopeType == CLUSTER {
        bindings := bindings - {InCluster(name)};
        return;
      }
      for i := 0 to |namespaces|
        invariant bindings == old(bindings) - NamespaceKeys(name, namespaces[..i])
      {
        NamespaceKeysNext(name, namespaces, i);
        bindings := bindings - {InNamespace(namespaces[i], name)};
      }
      assert namespaces[..|namespaces|] == namespaces;
    }
  }

  /** Replaces in place, or appends; the slice is a copy decoded from the store. */
  method UpsertAssociatedPolicy(recorded: seq<AccessPolicy>, policy: AccessPolicy) returns (policies: seq<AccessPolicy>)
    ensures policies == Upserted(recorded, policy)
  {
    var a := new AccessPolicy[|recorded|](i requires 0 <= i < |recorded| => recorded[i]);
    for i := 0 to a.Length
      invariant a[..] == recorded && forall j | 0 <= j < i :: recorded[j].policyARN != policy.policyARN
    {
      if a[i].policyARN == policy.policyARN {
        UpsertedAt(recorded, policy, i);
        a[i] := policy;
        return a[..];
      }
    }
    UpsertedNew(recorded, policy);
    policies := a[..] + [policy];
  }

  lemma {:induction false} UpsertedAt(policies: seq<AccessPolicy>, policy: AccessPolicy, i: nat)
    requires i < |policies| && policies[i].policyARN == policy.policyARN
    requires forall j | 0 <= j < i :: policies[j].policyARN != policy.policyARN
    ensures Upserted(policies, policy) == policies[i := policy]
  {
    if i > 0 {
      UpsertedAt(policies[1..], policy, i - 1);
    }
  }

  lemma {:induction false} UpsertedNew(policies: seq<AccessPolicy>, policy: AccessPolicy)
    requires forall j | 0 <= j < |policies| :: policies[j].policyARN != policy.policyARN
    ensures Upserted(policies, policy) == policies + [policy]
  {
    if policies != [] {
      UpsertedNew(policies[1..], policy);
    }
  }

  method FindAssociatedPolicy(policies: seq<AccessPolicy>, policyARN: string) returns (policy: Option<AccessPolicy>)
    ensures policy == Find(policies, policyARN)
  {
    for i := 0 to |policies|
      invariant Find(policies, policyARN) == Find(policies[i..], policyARN)
    {
      if policies[i].policyARN == policyARN {
        return Some(policies[i]);
      }
    }
    policy := None;
  }

  method RemoveAssociatedPolicy(policies: seq<AccessPolicy>, policyARN: string) returns (filtered: seq<AccessPolicy>)
    ensures filtered == Removed(policies, policyARN)
  {
    filtered := [];
    for i := 0 to |policies|
      invariant filtered == Removed(policies[..i], policyARN)
    {
      assert policies[..i + 1][..i] == policies[..i];
      if policies[i].policyARN != policyARN {
        filtered := filtered + [policies[i]];
      }
    }
    assert policies[..|policies|] == policies;
  }

  // ---------------------------------------------------------------- the recorded policies

  lemma {:induction false} FindIsNamed(policies: seq<AccessPolicy>, policyARN: string)
    ensures Find(policies, policyARN).Some? ==>
              Find(policies, policyARN).value in policies && Find(policies, policyARN).value.policyARN == policyARN
    ensures Find(policies, policyARN).None? ==> forall p | p in policies :: p.policyARN != policyARN
  {
    if policies != [] {
      FindIsNamed(policies[1..], policyARN);
      assert policies == [policies[0]] + policies[1..];
    }
  }

  ghost predicate DistinctARNs(policies: seq<AccessPolicy>) {
    forall i, j | 0 <= i < j < |policies| :: policies[i].policyARN != policies[j].policyARN
  }

  lemma UpsertedExact(policies: seq<AccessPolicy>, policy: AccessPolicy)
    requires DistinctARNs(policies)
    ensures DistinctARNs(Upserted(policies, policy))
    ensures forall p :: p in Upserted(policies, policy) <==> p == policy || (p in policies && p.policyARN != policy.policyARN)
  {
    var r := Upserted(policies, policy);
    if i: nat :| i < |policies| && policies[i].policyARN == policy.policyARN {
      UpsertedAt(policies, policy, i);
      forall p ensures p in r <==> p == policy || (p in policies && p.policyARN != policy.policyARN) {
        if p in policies && p.policyARN != policy.policyARN {
          var j :| 0 <= j < |policies| && policies[j] == p;
          assert r[j] == p;
        }
        assert r[i] == policy;
      }
    } else {
      UpsertedNew(policies, policy);
    }
  }

  lemma {:induction false} RemovedExact(policies: seq<AccessPolicy>, policyARN: string)
    ensures DistinctARNs(policies) ==> DistinctARNs(Removed(policies, policyARN))
    ensures forall p :: p in Removed(policies, policyARN) <==> p in policies && p.policyARN != policyARN
  {
    if policies != [] {
      var front, last := policies[..|policies| - 1], policies[|policies| - 1];
      RemovedExact(front, policyARN);
      assert policies == front + [last];
      if DistinctARNs(policies) {
        assert forall p | p in front :: p.policyARN != last.policyARN;
        assert forall i | 0 <= i < |Removed(front, policyARN)| :: Removed(front, policyARN)[i] in Removed(front, policyARN);
      }
    }
  }

  // ---------------------------------------------------------------- the invariant

  ghost predicate Recorded(s: Store, arn: string, policy: AccessPolicy) {
    arn in s.entries && policy in s.entries[arn].policies
  }

  /** Entries sit under their own ARN, policy ARNs are distinct, and what is recorded was validated. */
  ghost predicate WellRecorded(s: Store) {
    && (forall arn | arn in s.entries :: s.entries[arn].principalARN == arn && DistinctARNs(s.entries[arn].policies))
    && (forall arn, p | Recorded(s, arn, p) :: ClusterRoleForPolicy(p.policyARN).Some? && Scoped(p))
  }

  predicate Scoped(p: AccessPolicy) {
    p.scopeType == CLUSTER || (p.scopeType == NAMESPACE && p.namespaces != [])
  }

  /** Every recorded policy has all its bindings. */
  ghost predicate Backed(hash: string -> string, s: Store) {
    forall arn, p | Recorded(s, arn, p) :: PolicyKeys(hash, arn, p) <= s.bindings.Keys
  }

  function NameOf(k: BindingKey): string {
    k.name
  }

  /** Every binding has the role and the group its name determines. */
  ghost predicate Proper(hash: string -> string, bindings: map<BindingKey, Grant>) {
    forall k, arn, role | k in bindings && NameOf(k) == BindingName(hash, arn, role) :: bindings[k] == GrantOf(hash, arn, role)
  }

  ghost predicate Inv(hash: string -> string, s: Store) {
    WellRecorded(s) && Backed(hash, s) && Proper(hash, s.bindings)
  }

  lemma CreateKeeps(hash: string -> string, s: Store, r: Request)
    requires Inv(hash, s) && r.CreateEntry?
    ensures Inv(hash, Handle(hash, s, r))
  {
    var s' := Handle(hash, s, r);
    forall arn, p | Recorded(s', arn, p) ensures Recorded(s, arn, p) {
    }
  }

  lemma DeleteKeeps(hash: string -> string, s: Store, r: Request)
    requires Inv(hash, s) && r.DeleteAccessEntry?
    ensures Inv(hash, Handle(hash, s, r))
  {
    var s' := Handle(hash, s, r);
    forall arn, p | Recorded(s', arn, p) ensures Recorded(s, arn, p) {
    }
  }

  lemma KeysAreNamed(hash: string -> string, arn: string, role: string, scopeType: string, namespaces: seq<string>)
    ensures forall k | k in BindingKeys(hash, arn, role, scopeType, namespaces) :: NameOf(k) == BindingName(hash, arn, role)
  {
  }

  /** New bindings carry the role and group of their name. */
  lemma MaterializedProper(hash: string -> string, bindings: map<BindingKey, Grant>, arn: string, role: string, keys: set<BindingKey>)
    requires IsDigest(hash) && Proper(hash, bindings) && forall k | k in keys :: NameOf(k) == BindingName(hash, arn, role)
    ensures Proper(hash, WithBindings(bindings, keys, GrantOf(hash, arn, role)))
  {
    var after := WithBindings(bindings, keys, GrantOf(hash, arn, role));
    forall k, arn', role' | k in after && NameOf(k) == BindingName(hash, arn', role')
      ensures after[k] == GrantOf(hash, arn', role')
    {
      if k !in bindings {
        BindingNameDetermines(hash, arn, role, arn', role');
      }
    }
  }

  lemma AssociateKeeps(hash: string -> string, s: Store, r: Request)
    requires IsDigest(hash) && Inv(hash, s) && r.Associate?
    ensures Inv(hash, Handle(hash, s, r))
  {
    var s' := Handle(hash, s, r);
    if Answer(s, r) == Done {
      var entry, role := s.entries[r.arn], ClusterRoleForPolicy(r.policyARN).value;
      var policy := AccessPolicy(r.policyARN, EffectiveScope(r.scope), r.namespaces);
      KeysAreNamed(hash, r.arn, role, policy.scopeType, policy.namespaces);
      MaterializedProper(hash, s.bindings, r.arn, role, PolicyKeys(hash, r.arn, policy));
      UpsertedExact(entry.policies, policy);
      forall arn, p | Recorded(s', arn, p) ensures Recorded(s, arn, p) || (arn == r.arn && p == policy) {
      }
    }
  }

  /** Another recorded policy uses one of the bindings. */
  ghost predicate Shared(hash: string -> string, s: Store, arn: string, policy: AccessPolicy) {
    exists arn', p :: OtherUser(hash, s, arn, policy, arn', p)
  }

  ghost predicate OtherUser(hash: string -> string, s: Store, arn: string, policy: AccessPolicy, arn': string, p: AccessPolicy) {
    && Recorded(s, arn', p) && (arn', p.policyARN) != (arn, policy.policyARN)
    && PolicyKeys(hash, arn', p) * PolicyKeys(hash, arn, policy) != {}
  }

  lemma RemovedRecords(hash: string -> string, s: Store, r: Request)
    requires WellRecorded(s) && r.Disassociate? && Answer(s, r) == Done
    ensures
      var s', policy := Handle(hash, s, r), Find(s.entries[r.arn].policies, r.policyARN).value;
      && policy.policyARN == r.policyARN && Recorded(s, r.arn, policy) && WellRecorded(s')
      && s'.bindings == s.bindings - PolicyKeys(hash, r.arn, policy)
      && forall arn, p :: Recorded(s', arn, p) <==> Recorded(s, arn, p) && (arn, p.policyARN) != (r.arn, r.policyARN)
  {
    FindIsNamed(s.entries[r.arn].policies, r.policyARN);
    RemovedExact(s.entries[r.arn].policies, r.policyARN);
    var s' := Handle(hash, s, r);
    assert forall arn, p :: Recorded(s', arn, p) <==> Recorded(s, arn, p) && (arn, p.policyARN) != (r.arn, r.policyARN);
  }

  lemma StillBackedExactly(hash: string -> string, s: Store, keys: set<BindingKey>, arn: string, p: AccessPolicy)
    requires PolicyKeys(hash, arn, p) <= s.bindings.Keys
    ensures PolicyKeys(hash, arn, p) <= (s.bindings - keys).Keys <==> PolicyKeys(hash, arn, p) * keys == {}
  {
    if k :| k in PolicyKeys(hash, arn, p) * keys {
      assert k !in (s.bindings - keys).Keys;
    } else {
      assert forall k | k in PolicyKeys(hash, arn, p) :: k !in PolicyKeys(hash, arn, p) * keys;
    }
  }

  /** Disassociating keeps the invariant exactly when no other recorded policy shares a binding. */
  lemma DisassociateKeepsExactly(hash: string -> string, s: Store, r: Request)
    requires Inv(hash, s) && r.Disassociate? && Answer(s, r) == Done
    ensures Inv(hash, Handle(hash, s, r)) <==> !Shared(hash, s, r.arn, Find(s.entries[r.arn].policies, r.policyARN).value)
  {
    var s', policy := Handle(hash, s, r), Find(s.entries[r.arn].policies, r.policyARN).value;
    RemovedRecords(hash, s, r);
    forall arn, p | Recorded(s', arn, p)
      ensures PolicyKeys(hash, arn, p) <= s'.bindings.Keys <==> !OtherUser(hash, s, r.arn, policy, arn, p)
    {
      StillBackedExactly(hash, s, PolicyKeys(hash, r.arn, policy), arn, p);
    }
    assert forall arn, p :: OtherUser(hash, s, r.arn, policy, arn, p) ==> Recorded(s', arn, p);
  }

  // ---------------------------------------------------------------- runs

  const STANDARD_PREFIX := "arn:aws:eks::aws:cluster-access-policy/"

  /** One of the four policy ARNs of EKS. */
  predicate Standard(policyARN: string) {
    policyARN == STANDARD_PREFIX + Base(policyARN) && ClusterRoleForPolicy(policyARN).Some?
  }

  lemma RoleIsPolicy(a: string, b: string)
    requires Standard(a) && Standard(b) && ClusterRoleForPolicy(a) == ClusterRoleForPolicy(b)
    ensures a == b
  {
    var r := ClusterRoleForPolicy(a).value;
    assert "cluster-admin" != "admin" && "cluster-admin" != "edit" && "cluster-admin" != "view";
    assert "admin" != "edit" && "admin" != "view" && "edit"[0] != "view"[0];
  }

  lemma {:induction false} AfterSlashOf(prefix: string, name: string)
    requires '/' !in name
    ensures AfterSlash(prefix + "/" + name) == name
  {
    var path := prefix + "/" + name;
    if name == "" {
      assert path[|path| - 1] == '/';
    } else {
      assert name[|name| - 1] in name && path[|path| - 1] == name[|name| - 1];
      assert path[..|path| - 1] == prefix + "/" + name[..|name| - 1];
      AfterSlashOf(prefix, name[..|name| - 1]);
    }
  }

  /** The last element of a path is what follows its last slash. */
  lemma BaseOf(prefix: string, name: string)
    requires name != "" && '/' !in name
    ensures Base(prefix + "/" + name) == name
  {
    assert name[|name| - 1] in name && (prefix + "/" + name)[|prefix + "/" + name| - 1] == name[|name| - 1];
    AfterSlashOf(prefix, name);
  }

  /** A policy's role is that of its last path element, whatever path leads to it. */
  lemma RoleOfPath(prefix: string, policy: string)
    requires policy != "" && '/' !in policy
    ensures ClusterRoleForPolicy(prefix + "/" + policy) == RoleNamed(policy)
  {
    BaseOf(prefix, policy);
  }

  ghost predicate StandardStore(known: set<string>, s: Store) {
    && s.entries.Keys <= known
    && forall arn, p | Recorded(s, arn, p) :: Standard(p.policyARN)
  }

  predicate StandardRequest(known: set<string>, r: Request) {
    r.arn in known && (r.Associate? ==> Standard(r.policyARN))
  }

  lemma StandardNotShared(hash: string -> string, known: set<string>, s: Store, arn: string, policy: AccessPolicy)
    requires IsDigest(hash) && InjectiveOn(hash, known) && StandardStore(known, s) && Recorded(s, arn, policy)
    ensures !Shared(hash, s, arn, policy)
  {
    forall arn', p | Recorded(s, arn', p) && PolicyKeys(hash, arn', p) * PolicyKeys(hash, arn, policy) != {}
      ensures (arn', p.policyARN) == (arn, policy.policyARN)
    {
      var k :| k in PolicyKeys(hash, arn', p) * PolicyKeys(hash, arn, policy);
      var role', role := ClusterRoleForPolicy(p.policyARN).value, ClusterRoleForPolicy(policy.policyARN).value;
      KeysAreNamed(hash, arn', role', p.scopeType, p.namespaces);
      KeysAreNamed(hash, arn, role, policy.scopeType, policy.namespaces);
      BindingNameDetermines(hash, arn', role', arn, role);
      RoleIsPolicy(p.policyARN, policy.policyARN);
    }
  }

  lemma StandardKept(hash: string -> string, known: set<string>, s: Store, r: Request)
    requires WellRecorded(s) && StandardStore(known, s) && StandardRequest(known, r)
    ensures StandardStore(known, Handle(hash, s, r))
  {
    var s' := Handle(hash, s, r);
    if Answer(s, r) == Done {
      if r.Associate? {
        UpsertedExact(s.entries[r.arn].policies, AccessPolicy(r.policyARN, EffectiveScope(r.scope), r.namespaces));
      } else if r.Disassociate? {
        RemovedExact(s.entries[r.arn].policies, r.policyARN);
      }
      forall arn, p | Recorded(s', arn, p) ensures Standard(p.policyARN) {
        assert Recorded(s, arn, p) || (r.Associate? && p.policyARN == r.policyARN);
      }
    }
  }

  lemma RequestKeeps(hash: string -> string, known: set<string>, s: Store, r: Request)
    requires IsDigest(hash) && InjectiveOn(hash, known) && StandardStore(known, s) && StandardRequest(known, r) && Inv(hash, s)
    ensures Inv(hash, Handle(hash, s, r)) && StandardStore(known, Handle(hash, s, r))
  {
    StandardKept(hash, known, s, r);
    match r
    case CreateEntry(_, _, _) => CreateKeeps(hash, s, r);
    case DeleteAccessEntry(_) => DeleteKeeps(hash, s, r);
    case Associate(_, _, _, _) => AssociateKeeps(hash, s, r);
    case Disassociate(arn, policyARN) =>
      if Answer(s, r) == Done {
        FindIsNamed(s.entries[arn].policies, policyARN);
        StandardNotShared(hash, known, s, arn, Find(s.entries[arn].policies, policyARN).value);
        DisassociateKeepsExactly(hash, s, r);
      }
  }

  function After(hash: string -> string, s: Store, requests: seq<Request>): Store {
    if requests == [] then s else Handle(hash, After(hash, s, requests[..|requests| - 1]), requests[|requests| - 1])
  }

  /** The access-policy invariant, over every sequential run of requests with standard policy ARNs that
      starts without entries.
   */
  lemma {:induction false} RunKeepsInvariant(hash: string -> string, known: set<string>, bindings: map<BindingKey, Grant>, requests: seq<Request>)
    requires IsDigest(hash) && InjectiveOn(hash, known) && Proper(hash, bindings)
    requires forall i | 0 <= i < |requests| :: StandardRequest(known, requests[i])
    ensures Inv(hash, After(hash, Store(map[], bindings), requests))
    ensures StandardStore(known, After(hash, Store(map[], bindings), requests))
  {
    if requests != [] {
      var n := |requests| - 1;
      RunKeepsInvariant(hash, known, bindings, requests[..n]);
      RequestKeeps(hash, known, After(hash, Store(map[], bindings), requests[..n]), requests[n]);
    }
  }

  // ---------------------------------------------------------------- undoing

  /** Associating and then disassociating a pair that had neither a record nor bindings restores everything. */
  lemma DisassociateUndoes(hash: string -> string, s: Store, arn: string, policyARN: string, scope: string, namespaces: seq<string>)
    requires WellRecorded(s) && Answer(s, Associate(arn, policyARN, scope, namespaces)) == Done && policyARN != ""
    requires Find(s.entries[arn].policies, policyARN).None?
    requires PolicyKeys(hash, arn, AccessPolicy(policyARN, EffectiveScope(scope), namespaces)) !! s.bindings.Keys
    ensures
      var associated := Handle(hash, s, Associate(arn, policyARN, scope, namespaces));
      Answer(associated, Disassociate(arn, policyARN)) == Done && Handle(hash, associated, Disassociate(arn, policyARN)) == s
  {
    var entry, policy := s.entries[arn], AccessPolicy(policyARN, EffectiveScope(scope), namespaces);
    var keys, grant := PolicyKeys(hash, arn, policy), GrantOf(hash, arn, ClusterRoleForPolicy(policyARN).value);
    AssociateAppends(hash, s, arn, policyARN, scope, namespaces);
    FindIsNamed(entry.policies, policyARN);
    FindAppended(entry.policies, policy);
    RemovedAppended(entry.policies, policy);
    AddedThenRemoved(s.bindings, keys, grant);
    PutBack(s.entries, arn, entry.(policies := entry.policies + [policy]));
  }

  lemma AssociateAppends(hash: string -> string, s: Store, arn: string, policyARN: string, scope: string, namespaces: seq<string>)
    requires WellRecorded(s) && Answer(s, Associate(arn, policyARN, scope, namespaces)) == Done
    requires Find(s.entries[arn].policies, policyARN).None?
    ensures
      var entry, policy := s.entries[arn], AccessPolicy(policyARN, EffectiveScope(scope), namespaces);
      Handle(hash, s, Associate(arn, policyARN, scope, namespaces))
      == Store(s.entries[arn := entry.(policies := entry.policies + [policy])],
               WithBindings(s.bindings, PolicyKeys(hash, arn, policy), GrantOf(hash, arn, ClusterRoleForPolicy(policyARN).value)))
  {
    FindIsNamed(s.entries[arn].policies, policyARN);
    UpsertedNew(s.entries[arn].policies, AccessPolicy(policyARN, EffectiveScope(scope), namespaces));
  }

  lemma AddedThenRemoved(bindings: map<BindingKey, Grant>, keys: set<BindingKey>, grant: Grant)
    requires keys !! bindings.Keys
    ensures WithBindings(bindings, keys, grant) - keys == bindings
  {
  }

  lemma PutBack(entries: map<string, AccessEntry>, arn: string, other: AccessEntry)
    requires arn in entries
    ensures entries[arn := other][arn := entries[arn]] == entries
  {
  }

  lemma {:induction false} FindAppended(policies: seq<AccessPolicy>, policy: AccessPolicy)
    requires forall p | p in policies :: p.policyARN != policy.policyARN
    ensures Find(policies + [policy], policy.policyARN) == Some(policy)
  {
    if policies != [] {
      assert policies[0] in policies && forall p | p in policies[1..] :: p in policies;
      FindAppended(policies[1..], policy);
      assert (policies + [policy])[1..] == policies[1..] + [policy];
    }
  }

  lemma {:induction false} RemovedNone(policies: seq<AccessPolicy>, policyARN: string)
    requires forall p | p in policies :: p.policyARN != policyARN
    ensures Removed(policies, policyARN) == policies
  {
    if policies != [] {
      RemovedNone(policies[..|policies| - 1], policyARN);
      assert policies[|policies| - 1] in policies;
    }
  }

  lemma RemovedAppended(policies: seq<AccessPolicy>, policy: AccessPolicy)
    requires forall p | p in policies :: p.policyARN != policy.policyARN
    ensures Removed(policies + [policy], policy.policyARN) == policies
  {
    RemovedNone(policies, policy.policyARN);
    assert (policies + [policy])[..|policies|] == policies;
  }

  // ---------------------------------------------------------------- what a principal may do

  /** The principal's own groups, and its synthetic group once a policy is recorded. */
  function EffectiveGroups(hash: string -> string, entry: AccessEntry): seq<string> {
    if entry.policies == [] then entry.kubernetesGroups
    else entry.kubernetesGroups + [PrincipalGroup(hash, entry.principalARN)]
  }

  /** The principal holds the role through the binding under `k`. */
  ghost predicate Holds(hash: string -> string, s: Store, arn: string, k: BindingKey, role: string) {
    && arn in s.entries && k in s.bindings && s.bindings[k].role == role
    && s.bindings[k].group in EffectiveGroups(hash, s.entries[arn])
  }

  /** A recorded policy is in force: in each of its scopes the principal holds the policy's role. */
  lemma RecordedHolds(hash: string -> string, s: Store, arn: string, p: AccessPolicy, k: BindingKey)
    requires Inv(hash, s) && Recorded(s, arn, p) && k in PolicyKeys(hash, arn, p)
    ensures Holds(hash, s, arn, k, ClusterRoleForPolicy(p.policyARN).value)
  {
    var role := ClusterRoleForPolicy(p.policyARN).value;
    KeysAreNamed(hash, arn, role, p.scopeType, p.namespaces);
    assert PolicyKeys(hash, arn, p) <= s.bindings.Keys;
    assert s.bindings[k] == GrantOf(hash, arn, role);
    assert PrincipalGroup(hash, arn) in EffectiveGroups(hash, s.entries[arn]);
  }
}
