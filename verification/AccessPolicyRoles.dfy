/** Which role an access policy gives: from the text of its ARN to what the principal may do afterwards. */
module AccessPolicyRoles {
  import opened AccessPolicies
  import opened Registries
  import opened Wrappers

  /** EKS's four access policies and the ClusterRoles they stand for. */
  predicate GivesRole(policy: string, role: string) {
    || (policy == "AmazonEKSClusterAdminPolicy" && role == "cluster-admin")
    || (policy == "AmazonEKSAdminPolicy" && role == "admin")
    || (policy == "AmazonEKSEditPolicy" && role == "edit")
    || (policy == "AmazonEKSViewPolicy" && role == "view")
  }

  lemma RoleNamedExactly(policy: string, role: string)
    ensures RoleNamed(policy) == Some(role) <==> GivesRole(policy, role)
  {
    assert "AmazonEKSClusterAdminPolicy"[9] == 'C' && "AmazonEKSAdminPolicy"[9] == 'A';
    assert "AmazonEKSEditPolicy"[9] == 'E' && "AmazonEKSViewPolicy"[9] == 'V';
  }

  // ---------------------------------------------------------------- the last element of a path

  /** The path ends in this element, between slashes or the path's ends. */
  ghost predicate ElementAt(path: string, n: int, m: int) {
    && 0 <= n < m <= |path| && '/' !in path[n..m] && (n == 0 || path[n - 1] == '/')
    && forall k | m <= k < |path| :: path[k] == '/'
  }

  ghost predicate EndsIn(path: string, element: string) {
    exists n, m :: ElementAt(path, n, m) && path[n..m] == element
  }

  lemma {:induction false} TrimmedTo(path: string, m: nat)
    requires m <= |path| && (forall k | m <= k < |path| :: path[k] == '/') && (m == 0 || path[m - 1] != '/')
    ensures Trimmed(path) == path[..m]
  {
    if m < |path| {
      TrimmedTo(path[..|path| - 1], m);
    }
  }

  lemma {:induction false} AfterSlashFrom(path: string, n: nat)
    requires n <= |path| && '/' !in path[n..] && (n == 0 || path[n - 1] == '/')
    ensures AfterSlash(path) == path[n..]
  {
    if n < |path| {
      var front, last := path[..|path| - 1], path[|path| - 1];
      assert last == path[n..][|path| - 1 - n] && path[n..] == front[n..] + [last];
      AfterSlashFrom(front, n);
    }
  }

  lemma ElementIsBase(path: string, n: int, m: int)
    requires ElementAt(path, n, m)
    ensures Base(path) == path[n..m]
  {
    assert path[m - 1] == path[n..m][m - 1 - n];
    TrimmedTo(path, m);
    assert path[..m][n..] == path[n..m];
    AfterSlashFrom(path[..m], n);
  }

  /** Where a path's last element is, unless it has none. */
  lemma {:induction false} LastElement(path: string) returns (n: int, m: int)
    ensures ElementAt(path, n, m) || forall k | 0 <= k < |path| :: path[k] == '/'
  {
    m := |path|;
    while m > 0 && path[m - 1] == '/'
      invariant 0 <= m <= |path| && forall k | m <= k < |path| :: path[k] == '/'
    {
      m := m - 1;
    }
    n := m;
    while n > 0 && path[n - 1] != '/'
      invariant 0 <= n <= m && '/' !in path[n..m]
    {
      n := n - 1;
    }
  }

  lemma {:induction false} OnlySlashes(path: string)
    requires forall k | 0 <= k < |path| :: path[k] == '/'
    ensures Base(path) == "." || Base(path) == "/"
  {
    TrimmedTo(path, 0);
  }

  ghost predicate NamesRole(policyARN: string, role: string) {
    exists policy :: EndsIn(policyARN, policy) && GivesRole(policy, role)
  }

  /** An ARN gives a role exactly when its last path element, whatever leads to it and however many slashes
      follow it, is one of the four policies; every other ARN gives none.
   */
  lemma ClusterRoleExactly(policyARN: string, role: string)
    ensures ClusterRoleForPolicy(policyARN) == Some(role) <==> NamesRole(policyARN, role)
  {
    RoleNamedExactly(Base(policyARN), role);
    var n, m := LastElement(policyARN);
    if ElementAt(policyARN, n, m) {
      ElementIsBase(policyARN, n, m);
      assert EndsIn(policyARN, Base(policyARN));
    } else {
      OnlySlashes(policyARN);
      assert Base(policyARN) == "." || Base(policyARN) == "/";
      assert !GivesRole(Base(policyARN), role);
    }
    if policy :| EndsIn(policyARN, policy) && GivesRole(policy, role) {
      var i, j :| ElementAt(policyARN, i, j) && policyARN[i..j] == policy;
      ElementIsBase(policyARN, i, j);
    }
  }

  // ---------------------------------------------------------------- the reply

  ghost predicate SomeRole(policyARN: string) {
    exists role :: NamesRole(policyARN, role)
  }

  lemma SomeRoleExactly(policyARN: string)
    ensures ClusterRoleForPolicy(policyARN).Some? <==> SomeRole(policyARN)
  {
    if ClusterRoleForPolicy(policyARN).Some? {
      ClusterRoleExactly(policyARN, ClusterRoleForPolicy(policyARN).value);
    }
    if role :| NamesRole(policyARN, role) {
      ClusterRoleExactly(policyARN, role);
    }
  }

  /** Scope "cluster", also by default, or "namespace" with at least one namespace. */
  predicate Acceptable(scope: string, namespaces: seq<string>) {
    scope == "" || scope == "cluster" || (scope == "namespace" && namespaces != [])
  }

  /** Associating is refused as invalid without a principal, for an ARN that names none of the four policies
      and for any other scope; then as not found without an entry; nothing else is refused.
   */
  lemma AssociateReplies(s: Store, arn: string, policyARN: string, scope: string, namespaces: seq<string>)
    ensures
      var reply := Answer(s, Associate(arn, policyARN, scope, namespaces));
      && (reply == InvalidParameter <==> arn == "" || !SomeRole(policyARN) || !Acceptable(scope, namespaces))
      && (reply == ResourceNotFound <==> arn != "" && SomeRole(policyARN) && Acceptable(scope, namespaces) && arn !in s.entries)
  {
    SomeRoleExactly(policyARN);
    assert CLUSTER != "" && NAMESPACE != "";
  }

  /** Disassociating looks for the entry before it looks at the ARN. */
  lemma DisassociateReplies(s: Store, arn: string, policyARN: string)
    ensures
      var reply := Answer(s, Disassociate(arn, policyARN));
      var associated := arn in s.entries && exists p | p in s.entries[arn].policies :: p.policyARN == policyARN;
      && (reply == InvalidParameter <==> arn == "" || policyARN == "" || (arn in s.entries && !SomeRole(policyARN)))
      && (reply == Done <==> arn != "" && policyARN != "" && SomeRole(policyARN) && associated)
  {
    SomeRoleExactly(policyARN);
    if arn in s.entries {
      FindIsNamed(s.entries[arn].policies, policyARN);
    }
  }

  // ---------------------------------------------------------------- entries

  /** A principal is in the groups of its entry, and with a recorded policy in its own group too. */
  lemma GroupsExactly(hash: string -> string, entry: AccessEntry, group: string)
    ensures group in EffectiveGroups(hash, entry) <==>
            group in entry.kubernetesGroups || (entry.policies != [] && group == "fjord:access-entry:" + hash(entry.principalARN))
  {
    assert "fjord:access-entry:" + hash(entry.principalARN) == PrincipalGroup(hash, entry.principalARN);
  }

  ghost predicate SameEntry(s: Store, s': Store, arn: string) {
    (arn in s.entries <==> arn in s'.entries) && (arn in s.entries ==> s'.entries[arn] == s.entries[arn])
  }

  /** Creating an entry is refused for no principal only. It forgets what was recorded before, puts the
      principal into the groups asked for and into no other, and touches nobody else.
   */
  lemma CreateReplaces(hash: string -> string, s: Store, arn: string, username: string, groups: seq<string>)
    ensures
      var request := CreateEntry(arn, username, groups);
      var s' := Handle(hash, s, request);
      && (Answer(s, request) == Done <==> arn != "") && (Answer(s, request) == InvalidParameter <==> arn == "")
      && s'.bindings == s.bindings && (forall other | other != arn :: SameEntry(s, s', other))
      && (arn == "" ==> s' == s)
      && (arn != "" ==>
            arn in s'.entries &&
            var entry := s'.entries[arn];
            && entry.principalARN == arn && entry.username == username && entry.entryType == "STANDARD"
            && (forall p :: !Recorded(s', arn, p)) && EffectiveGroups(hash, entry) == groups)
  {
  }

  /** Deleting an entry leaves every binding, and every other entry. */
  lemma DeleteForgets(hash: string -> string, s: Store, arn: string)
    ensures
      var s' := Handle(hash, s, DeleteAccessEntry(arn));
      && (Answer(s, DeleteAccessEntry(arn)) == InvalidParameter <==> arn == "")
      && (Answer(s, DeleteAccessEntry(arn)) == ResourceNotFound <==> arn != "" && arn !in s.entries)
      && s'.bindings == s.bindings && (forall other | other != arn :: SameEntry(s, s', other))
      && (arn != "" ==> arn !in s'.entries)
  {
  }

  // ---------------------------------------------------------------- what associating grants

  /** The binding of a principal's role, in the cluster or in a namespace, as the facade names it. */
  function RoleBinding(hash: string -> string, arn: string, role: string, namespace: Option<string>): BindingKey {
    var name := "fjord-access-entry-" + hash(arn) + "-" + role;
    if namespace.None? then InCluster(name) else InNamespace(namespace.value, name)
  }

  /** The places a scope names: the cluster or each namespace. */
  predicate InScope(scope: string, namespaces: seq<string>, place: Option<string>) {
    if scope == "namespace" then place.Some? && place.value in namespaces else place.None?
  }

  /** After a policy was associated, the principal holds exactly the policy's role through the role's binding
      in each place of the scope, the binding is to the principal's own group, the policy is recorded, and
      every other binding is as it was.
   */
  lemma AssociateGrants(hash: string -> string, s: Store, arn: string, policyARN: string, scope: string, namespaces: seq<string>, role: string)
    requires IsDigest(hash) && Inv(hash, s) && NamesRole(policyARN, role)
    requires arn != "" && arn in s.entries && Acceptable(scope, namespaces)
    ensures Answer(s, Associate(arn, policyARN, scope, namespaces)) == Done
    ensures
      var s' := Handle(hash, s, Associate(arn, policyARN, scope, namespaces));
      && (forall place | InScope(scope, namespaces, place) ::
            var k := RoleBinding(hash, arn, role, place);
            && k in s'.bindings && s'.bindings[k] == Grant(role, "fjord:access-entry:" + hash(arn))
            && forall r :: Holds(hash, s', arn, k, r) <==> r == role)
      && (forall k | !(exists place :: InScope(scope, namespaces, place) && k == RoleBinding(hash, arn, role, place)) ::
            (k in s'.bindings <==> k in s.bindings) && (k in s.bindings ==> s'.bindings[k] == s.bindings[k]))
      && Recorded(s', arn, AccessPolicy(policyARN, if scope == "namespace" then "namespace" else "cluster", namespaces))
  {
    var request := Associate(arn, policyARN, scope, namespaces);
    var policy := AccessPolicy(policyARN, EffectiveScope(scope), namespaces);
    var s' := Handle(hash, s, request);
    ClusterRoleExactly(policyARN, role);
    AssociateReplies(s, arn, policyARN, scope, namespaces);
    AssociateKeeps(hash, s, request);
    UpsertedExact(s.entries[arn].policies, policy);
    assert Recorded(s', arn, policy) && policy.scopeType == if scope == "namespace" then "namespace" else "cluster";
    ScopeKeys(hash, arn, role, scope, namespaces);
    forall place | InScope(scope, namespaces, place)
      ensures
        var k := RoleBinding(hash, arn, role, place);
        && k in s'.bindings && s'.bindings[k] == Grant(role, "fjord:access-entry:" + hash(arn))
        && forall r :: Holds(hash, s', arn, k, r) <==> r == role
    {
      var k := RoleBinding(hash, arn, role, place);
      assert k in PolicyKeys(hash, arn, policy);
      RecordedHolds(hash, s', arn, policy, k);
      assert NameOf(k) == BindingName(hash, arn, role);
      assert s'.bindings[k] == GrantOf(hash, arn, role);
    }
    forall k | !(exists place :: InScope(scope, namespaces, place) && k == RoleBinding(hash, arn, role, place))
      ensures (k in s'.bindings <==> k in s.bindings) && (k in s.bindings ==> s'.bindings[k] == s.bindings[k])
    {
      assert k !in PolicyKeys(hash, arn, policy);
    }
  }

  lemma ScopeKeys(hash: string -> string, arn: string, role: string, scope: string, namespaces: seq<string>)
    requires Acceptable(scope, namespaces)
    ensures forall k :: k in BindingKeys(hash, arn, role, EffectiveScope(scope), namespaces) <==>
                        exists place :: InScope(scope, namespaces, place) && k == RoleBinding(hash, arn, role, place)
  {
    var keys, name := BindingKeys(hash, arn, role, EffectiveScope(scope), namespaces), BindingName(hash, arn, role);
    assert CLUSTER != NAMESPACE && NAMESPACE != "";
    forall k ensures k in keys <==> exists place :: InScope(scope, namespaces, place) && k == RoleBinding(hash, arn, role, place) {
      if k in keys {
        var place := if scope == "namespace" then Some(k.namespace) else None;
        assert InScope(scope, namespaces, place) && k == RoleBinding(hash, arn, role, place);
      }
    }
  }

  /** Disassociating a recorded policy deletes its bindings and its record, and nothing else. */
  lemma DisassociateRevokes(hash: string -> string, s: Store, arn: string, p: AccessPolicy, role: string)
    requires Inv(hash, s) && Recorded(s, arn, p) && NamesRole(p.policyARN, role) && arn != ""
    ensures
      var s' := Handle(hash, s, Disassociate(arn, p.policyARN));
      && Answer(s, Disassociate(arn, p.policyARN)) == Done
      && (forall k :: k in s'.bindings <==>
            k in s.bindings && !(exists place :: InScope(p.scopeType, p.namespaces, place) && k == RoleBinding(hash, arn, role, place)))
      && (forall k | k in s'.bindings :: s'.bindings[k] == s.bindings[k])
      && (forall other, q :: Recorded(s', other, q) <==> Recorded(s, other, q) && (other, q.policyARN) != (arn, p.policyARN))
  {
    var s', keys := Handle(hash, s, Disassociate(arn, p.policyARN)), PolicyKeys(hash, arn, p);
    ClusterRoleExactly(p.policyARN, role);
    DisassociateReplies(s, arn, p.policyARN);
    FindIsNamed(s.entries[arn].policies, p.policyARN);
    RemovedRecords(hash, s, Disassociate(arn, p.policyARN));
    assert s'.bindings == s.bindings - keys;
    RecordedScope(hash, s, arn, p, role);
  }

  lemma RecordedScope(hash: string -> string, s: Store, arn: string, p: AccessPolicy, role: string)
    requires Inv(hash, s) && Recorded(s, arn, p) && ClusterRoleForPolicy(p.policyARN) == Some(role)
    ensures forall k :: k in PolicyKeys(hash, arn, p) <==>
                        exists place :: InScope(p.scopeType, p.namespaces, place) && k == RoleBinding(hash, arn, role, place)
  {
    assert Scoped(p);
    assert NAMESPACE != CLUSTER && CLUSTER != "" && NAMESPACE != "";
    ScopeKeys(hash, arn, role, p.scopeType, p.namespaces);
    assert PolicyKeys(hash, arn, p) == BindingKeys(hash, arn, role, EffectiveScope(p.scopeType), p.namespaces);
  }

  /** The standard ARN of each policy gives its role and no other; no other name below that prefix is one. */
  lemma StandardRole(policy: string, role: string)
    requires policy != "" && '/' !in policy
    ensures NamesRole("arn:aws:eks::aws:cluster-access-policy/" + policy, role) <==> GivesRole(policy, role)
  {
    var prefix := "arn:aws:eks::aws:cluster-access-policy";
    RoleOfPath(prefix, policy);
    assert prefix + "/" + policy == "arn:aws:eks::aws:cluster-access-policy/" + policy;
    ClusterRoleExactly(prefix + "/" + policy, role);
    RoleNamedExactly(policy, role);
  }
}
