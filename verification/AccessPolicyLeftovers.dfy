/** No more than is recorded: when the bindings of the access entries give exactly the recorded policies,
    and which requests leave access behind.
 */
module AccessPolicyLeftovers {
  import opened AccessPolicies
  import opened Registries
  import opened Wrappers

  /** A recorded policy of the principal calls for the binding. */
  ghost predicate CalledFor(hash: string -> string, s: Store, arn: string, k: BindingKey) {
    exists p :: Recorded(s, arn, p) && k in PolicyKeys(hash, arn, p)
  }

  /** Every binding named after a principal in use is called for. */
  ghost predicate Tight(hash: string -> string, known: set<string>, s: Store) {
    forall k, arn, role | k in s.bindings && arn in known && NameOf(k) == BindingName(hash, arn, role) :: CalledFor(hash, s, arn, k)
  }

  ghost predicate Ready(hash: string -> string, known: set<string>, s: Store) {
    IsDigest(hash) && InjectiveOn(hash, known) && StandardStore(known, s) && Inv(hash, s) && Tight(hash, known, s)
  }

  /** The principal holds the role through the binding, by its synthetic group. */
  ghost predicate HoldsThrough(hash: string -> string, s: Store, arn: string, k: BindingKey, role: string) {
    && arn in s.entries && k in s.bindings && s.bindings[k] == GrantOf(hash, arn, role)
    && s.entries[arn].policies != []
  }

  /** A tight store gives exactly what is recorded: through a binding of its name the principal holds the
      role if and only if a recorded policy calls for the binding.
   */
  lemma HoldsExactly(hash: string -> string, known: set<string>, s: Store, arn: string, k: BindingKey, role: string)
    requires Ready(hash, known, s) && arn in known && NameOf(k) == BindingName(hash, arn, role)
    ensures HoldsThrough(hash, s, arn, k, role) <==> CalledFor(hash, s, arn, k)
  {
    if p :| Recorded(s, arn, p) && k in PolicyKeys(hash, arn, p) {
      assert PolicyKeys(hash, arn, p) <= s.bindings.Keys;
    }
  }

  /** Two recorded policies of a principal that call for one binding are the same. */
  lemma OneCaller(hash: string -> string, arn: string, p: AccessPolicy, q: AccessPolicy, k: BindingKey)
    requires IsDigest(hash) && Standard(p.policyARN) && Standard(q.policyARN)
    requires k in PolicyKeys(hash, arn, p) && k in PolicyKeys(hash, arn, q)
    ensures p.policyARN == q.policyARN
  {
    var a, b := ClusterRoleForPolicy(p.policyARN).value, ClusterRoleForPolicy(q.policyARN).value;
    KeysAreNamed(hash, arn, a, p.scopeType, p.namespaces);
    KeysAreNamed(hash, arn, b, q.scopeType, q.namespaces);
    BindingNameDetermines(hash, arn, a, arn, b);
    RoleIsPolicy(p.policyARN, q.policyARN);
  }

  lemma NamesakeIsFound(policies: seq<AccessPolicy>, p: AccessPolicy)
    requires DistinctARNs(policies) && p in policies
    ensures Find(policies, p.policyARN) == Some(p)
  {
    FindIsNamed(policies, p.policyARN);
  }

  function NewPolicy(r: Request): AccessPolicy
    requires r.Associate?
  {
    AccessPolicy(r.policyARN, EffectiveScope(r.scope), r.namespaces)
  }

  /** What associating records and binds. */
  lemma AssociateRecords(hash: string -> string, s: Store, r: Request)
    requires WellRecorded(s) && r.Associate? && Answer(s, r) == Done
    ensures
      var s', policy := Handle(hash, s, r), NewPolicy(r);
      && s'.bindings.Keys == s.bindings.Keys + PolicyKeys(hash, r.arn, policy)
      && forall arn, p :: Recorded(s', arn, p) <==>
           (arn == r.arn && p == policy) || (Recorded(s, arn, p) && (arn, p.policyARN) != (r.arn, r.policyARN))
  {
    UpsertedExact(s.entries[r.arn].policies, NewPolicy(r));
  }

  /** The request takes no scope away from the policy as it is recorded. */
  ghost predicate Widens(hash: string -> string, s: Store, r: Request)
    requires r.Associate? && r.arn in s.entries
  {
    var recorded := Find(s.entries[r.arn].policies, r.policyARN);
    recorded.None? || PolicyKeys(hash, r.arn, recorded.value) <= PolicyKeys(hash, r.arn, NewPolicy(r))
  }

  lemma WideningStaysTight(hash: string -> string, known: set<string>, s: Store, r: Request)
    requires Ready(hash, known, s) && r.Associate? && StandardRequest(known, r) && Answer(s, r) == Done && Widens(hash, s, r)
    ensures Tight(hash, known, Handle(hash, s, r))
  {
    var s', policy, role := Handle(hash, s, r), NewPolicy(r), ClusterRoleForPolicy(r.policyARN).value;
    AssociateRecords(hash, s, r);
    assert Recorded(s', r.arn, policy);
    forall k, arn, other | k in s'.bindings && arn in known && NameOf(k) == BindingName(hash, arn, other)
      ensures CalledFor(hash, s', arn, k)
    {
      if k in PolicyKeys(hash, r.arn, policy) {
        KeysAreNamed(hash, r.arn, role, policy.scopeType, policy.namespaces);
        BindingNameDetermines(hash, r.arn, role, arn, other);
      } else {
        assert CalledFor(hash, s, arn, k);
        var p :| Recorded(s, arn, p) && k in PolicyKeys(hash, arn, p);
        if (arn, p.policyARN) == (r.arn, r.policyARN) {
          NamesakeIsFound(s.entries[arn].policies, p);
        }
        assert Recorded(s', arn, p);
      }
    }
  }

  lemma NarrowingIsNotTight(hash: string -> string, known: set<string>, s: Store, r: Request)
    requires Ready(hash, known, s) && r.Associate? && StandardRequest(known, r) && Answer(s, r) == Done && !Widens(hash, s, r)
    ensures !Tight(hash, known, Handle(hash, s, r))
  {
    var s', policy, role := Handle(hash, s, r), NewPolicy(r), ClusterRoleForPolicy(r.policyARN).value;
    var before := Find(s.entries[r.arn].policies, r.policyARN).value;
    AssociateRecords(hash, s, r);
    FindIsNamed(s.entries[r.arn].policies, r.policyARN);
    assert Recorded(s, r.arn, before);
    var k :| k in PolicyKeys(hash, r.arn, before) && k !in PolicyKeys(hash, r.arn, policy);
    KeysAreNamed(hash, r.arn, role, before.scopeType, before.namespaces);
    assert k in s.bindings by {
      assert PolicyKeys(hash, r.arn, before) <= s.bindings.Keys;
    }
    forall p | Recorded(s', r.arn, p) ensures k !in PolicyKeys(hash, r.arn, p) {
      if p != policy && k in PolicyKeys(hash, r.arn, p) {
        OneCaller(hash, r.arn, p, before, k);
      }
    }
    assert !CalledFor(hash, s', r.arn, k);
  }

  /** Associating leaves no more than is recorded exactly when the policy was not recorded or the new scope
      covers the old one.
   */
  lemma AssociateTightExactly(hash: string -> string, known: set<string>, s: Store, r: Request)
    requires Ready(hash, known, s) && r.Associate? && StandardRequest(known, r) && Answer(s, r) == Done
    ensures Tight(hash, known, Handle(hash, s, r)) <==> Widens(hash, s, r)
  {
    if Widens(hash, s, r) {
      WideningStaysTight(hash, known, s, r);
    } else {
      NarrowingIsNotTight(hash, known, s, r);
    }
  }

  /** Every recorded policy calls for some binding. */
  lemma CallsForSome(hash: string -> string, arn: string, p: AccessPolicy) returns (k: BindingKey)
    requires ClusterRoleForPolicy(p.policyARN).Some? && Scoped(p)
    ensures k in PolicyKeys(hash, arn, p) && NameOf(k) == BindingName(hash, arn, ClusterRoleForPolicy(p.policyARN).value)
  {
    var name := BindingName(hash, arn, ClusterRoleForPolicy(p.policyARN).value);
    k := if p.scopeType == CLUSTER then InCluster(name) else InNamespace(p.namespaces[0], name);
  }

  /** A request that forgets the entry's policies, by deleting it or by creating it anew, leaves no more
      than is recorded exactly when none was recorded.
   */
  lemma ForgettingTightExactly(hash: string -> string, known: set<string>, s: Store, r: Request)
    requires Ready(hash, known, s) && (r.CreateEntry? || r.DeleteAccessEntry?) && StandardRequest(known, r) && Answer(s, r) == Done
    ensures Tight(hash, known, Handle(hash, s, r)) <==> (r.arn in s.entries ==> s.entries[r.arn].policies == [])
  {
    var s' := Handle(hash, s, r);
    assert forall arn, p :: Recorded(s', arn, p) <==> Recorded(s, arn, p) && arn != r.arn;
    if r.arn in s.entries && s.entries[r.arn].policies != [] {
      var p := s.entries[r.arn].policies[0];
      assert Recorded(s, r.arn, p);
      var k := CallsForSome(hash, r.arn, p);
      assert k in s'.bindings by {
        assert PolicyKeys(hash, r.arn, p) <= s.bindings.Keys;
      }
      assert !CalledFor(hash, s', r.arn, k);
    } else {
      forall arn, p | Recorded(s, arn, p) ensures Recorded(s', arn, p) {
      }
      forall arn, k | CalledFor(hash, s, arn, k) ensures CalledFor(hash, s', arn, k) {
        var p :| Recorded(s, arn, p) && k in PolicyKeys(hash, arn, p);
        assert Recorded(s', arn, p);
      }
    }
  }

  /** Disassociating never leaves more than is recorded. */
  lemma DisassociateStaysTight(hash: string -> string, known: set<string>, s: Store, r: Request)
    requires Ready(hash, known, s) && r.Disassociate? && Answer(s, r) == Done
    ensures Tight(hash, known, Handle(hash, s, r))
  {
    var s', policy := Handle(hash, s, r), Find(s.entries[r.arn].policies, r.policyARN).value;
    RemovedRecords(hash, s, r);
    forall k, arn, role | k in s'.bindings && arn in known && NameOf(k) == BindingName(hash, arn, role)
      ensures CalledFor(hash, s', arn, k)
    {
      assert CalledFor(hash, s, arn, k);
      var p :| Recorded(s, arn, p) && k in PolicyKeys(hash, arn, p);
      if (arn, p.policyARN) == (r.arn, r.policyARN) {
        NamesakeIsFound(s.entries[arn].policies, p);
      }
      assert Recorded(s', arn, p);
    }
  }

  /** The request leaves nothing behind, as far as a caller can tell before making it. */
  ghost predicate Clean(hash: string -> string, s: Store, r: Request) {
    Answer(s, r) == Done ==>
      match r
      case CreateEntry(arn, _, _) => arn in s.entries ==> s.entries[arn].policies == []
      case DeleteAccessEntry(arn) => s.entries[arn].policies == []
      case Associate(_, _, _, _) => Widens(hash, s, r)
      case Disassociate(_, _) => true
  }

  /** One request, exactly. */
  lemma RequestTightExactly(hash: string -> string, known: set<string>, s: Store, r: Request)
    requires Ready(hash, known, s) && StandardRequest(known, r)
    ensures Tight(hash, known, Handle(hash, s, r)) <==> Clean(hash, s, r)
  {
    if Answer(s, r) == Done {
      match r
      case CreateEntry(_, _, _) => ForgettingTightExactly(hash, known, s, r);
      case DeleteAccessEntry(_) => ForgettingTightExactly(hash, known, s, r);
      case Associate(_, _, _, _) => AssociateTightExactly(hash, known, s, r);
      case Disassociate(_, _) => DisassociateStaysTight(hash, known, s, r);
    }
  }

  /** Over whole runs: starting without entries and without bindings for the principals in use, requests
      that are clean when they are made leave exactly the recorded access.
   */
  lemma {:induction false} CleanRunsStayTight(hash: string -> string, known: set<string>, bindings: map<BindingKey, Grant>, requests: seq<Request>)
    requires IsDigest(hash) && InjectiveOn(hash, known) && Proper(hash, bindings) && Tight(hash, known, Store(map[], bindings))
    requires forall i | 0 <= i < |requests| ::
               StandardRequest(known, requests[i]) && Clean(hash, After(hash, Store(map[], bindings), requests[..i]), requests[i])
    ensures Ready(hash, known, After(hash, Store(map[], bindings), requests))
  {
    RunKeepsInvariant(hash, known, bindings, requests);
    if requests != [] {
      var n := |requests| - 1;
      forall i | 0 <= i < n ensures requests[..n][..i] == requests[..i] {
      }
      CleanRunsStayTight(hash, known, bindings, requests[..n]);
      RequestTightExactly(hash, known, After(hash, Store(map[], bindings), requests[..n]), requests[n]);
    }
  }

  /** Deleting and re-creating an entry keeps the old access waiting: the next policy of whatever role
      brings it back. Here the one recorded policy has the role of `b`, and the role of `a` is held too.
   */
  lemma RecreationBringsBack(hash: string -> string, arn: string, a: string, b: string)
    requires arn != "" && ClusterRoleForPolicy(a).Some? && ClusterRoleForPolicy(b).Some?
    ensures
      var requests := [CreateEntry(arn, "", []), Associate(arn, a, CLUSTER, []), DeleteAccessEntry(arn),
                       CreateEntry(arn, "", []), Associate(arn, b, CLUSTER, [])];
      var s := After(hash, Store(map[], map[]), requests);
      var role := ClusterRoleForPolicy(a).value;
      && arn in s.entries && s.entries[arn].policies == [AccessPolicy(b, CLUSTER, [])]
      && HoldsThrough(hash, s, arn, InCluster(BindingName(hash, arn, role)), role)
  {
    var r1, r2, r3, r5 := CreateEntry(arn, "", []), Associate(arn, a, CLUSTER, []), DeleteAccessEntry(arn), Associate(arn, b, CLUSTER, []);
    var s0 := Store(map[], map[]);
    var s1 := Handle(hash, s0, r1);
    var s2 := Handle(hash, s1, r2);
    var s3 := Handle(hash, s2, r3);
    var s4 := Handle(hash, s3, r1);
    var k, role := InCluster(BindingName(hash, arn, ClusterRoleForPolicy(a).value)), ClusterRoleForPolicy(a).value;
    assert s2.bindings == map[k := GrantOf(hash, arn, role)];
    assert s4.bindings == s2.bindings && s4.entries[arn].policies == [];
    FiveRequests(hash, s0, r1, r2, r3, r1, r5);
  }

  lemma FiveRequests(hash: string -> string, s: Store, r1: Request, r2: Request, r3: Request, r4: Request, r5: Request)
    ensures After(hash, s, [r1, r2, r3, r4, r5]) == Handle(hash, Handle(hash, Handle(hash, Handle(hash, Handle(hash, s, r1), r2), r3), r4), r5)
  {
    AfterNext(hash, s, [], r1);
    AfterNext(hash, s, [r1], r2);
    AfterNext(hash, s, [r1, r2], r3);
    AfterNext(hash, s, [r1, r2, r3], r4);
    AfterNext(hash, s, [r1, r2, r3, r4], r5);
    assert [] + [r1] == [r1] && [r1] + [r2] == [r1, r2] && [r1, r2] + [r3] == [r1, r2, r3];
    assert [r1, r2, r3] + [r4] == [r1, r2, r3, r4] && [r1, r2, r3, r4] + [r5] == [r1, r2, r3, r4, r5];
  }

  lemma AfterNext(hash: string -> string, s: Store, requests: seq<Request>, r: Request)
    ensures After(hash, s, requests + [r]) == Handle(hash, After(hash, s, requests), r)
  {
    assert (requests + [r])[..|requests|] == requests;
  }

  /** A principal that was once a cluster admin and is now recorded as a viewer is a cluster admin. */
  lemma ViewerIsAdmin(hash: string -> string, arn: string)
    requires arn != ""
    ensures
      var prefix := "arn:aws:eks::aws:cluster-access-policy";
      var admin, view := prefix + "/" + "AmazonEKSClusterAdminPolicy", prefix + "/" + "AmazonEKSViewPolicy";
      var s := After(hash, Store(map[], map[]), [
        CreateEntry(arn, "", []), Associate(arn, admin, CLUSTER, []), DeleteAccessEntry(arn),
        CreateEntry(arn, "", []), Associate(arn, view, CLUSTER, [])]);
      && ClusterRoleForPolicy(view) == Some("view") && arn in s.entries && s.entries[arn].policies == [AccessPolicy(view, CLUSTER, [])]
      && HoldsThrough(hash, s, arn, InCluster(BindingName(hash, arn, "cluster-admin")), "cluster-admin")
  {
    var prefix := "arn:aws:eks::aws:cluster-access-policy";
    RoleOfPath(prefix, "AmazonEKSClusterAdminPolicy");
    RoleOfPath(prefix, "AmazonEKSViewPolicy");
    RecreationBringsBack(hash, arn, prefix + "/" + "AmazonEKSClusterAdminPolicy", prefix + "/" + "AmazonEKSViewPolicy");
  }

  /** Narrowing a policy from the cluster to namespaces leaves the ClusterRoleBinding,
      and the principal keeps the role in the whole cluster.
   */
  lemma NarrowingKeepsAccess(hash: string -> string, s: Store, arn: string, policyARN: string, namespaces: seq<string>)
    requires Proper(hash, s.bindings) && WellRecorded(s) && IsDigest(hash)
    requires Answer(s, Associate(arn, policyARN, CLUSTER, [])) == Done && namespaces != []
    ensures
      var wide := Handle(hash, s, Associate(arn, policyARN, CLUSTER, []));
      var narrow := Handle(hash, wide, Associate(arn, policyARN, NAMESPACE, namespaces));
      var role := ClusterRoleForPolicy(policyARN).value;
      && Find(narrow.entries[arn].policies, policyARN) == Some(AccessPolicy(policyARN, NAMESPACE, namespaces))
      && Holds(hash, narrow, arn, InCluster(BindingName(hash, arn, role)), role)
  {
    var wide := Handle(hash, s, Associate(arn, policyARN, CLUSTER, []));
    var policies, policy := wide.entries[arn].policies, AccessPolicy(policyARN, NAMESPACE, namespaces);
    var k, role := InCluster(BindingName(hash, arn, ClusterRoleForPolicy(policyARN).value)), ClusterRoleForPolicy(policyARN).value;
    assert CLUSTER != NAMESPACE;
    assert k in wide.bindings && wide.bindings[k] == GrantOf(hash, arn, role);
    FindUpserted(policies, policy);
  }

  lemma {:induction false} FindUpserted(policies: seq<AccessPolicy>, policy: AccessPolicy)
    ensures Find(Upserted(policies, policy), policy.policyARN) == Some(policy)
  {
    if policies != [] && policies[0].policyARN != policy.policyARN {
      FindUpserted(policies[1..], policy);
      assert Upserted(policies, policy)[1..] == Upserted(policies[1..], policy);
    }
  }

  /** Nor may two recorded ARNs share a role: disassociating one takes the bindings of the other away. */
  lemma SharedRoleLosesAccess(hash: string -> string, s: Store, arn: string, a: string, b: string)
    requires Inv(hash, s) && IsDigest(hash) && a != b && a != "" && ClusterRoleForPolicy(a) == ClusterRoleForPolicy(b)
    requires Answer(s, Associate(arn, a, CLUSTER, [])) == Done
    ensures
      var both := Handle(hash, Handle(hash, s, Associate(arn, a, CLUSTER, [])), Associate(arn, b, CLUSTER, []));
      && Inv(hash, both) && Answer(both, Disassociate(arn, a)) == Done && !Inv(hash, Handle(hash, both, Disassociate(arn, a)))
  {
    var one := Handle(hash, s, Associate(arn, a, CLUSTER, []));
    var both := Handle(hash, one, Associate(arn, b, CLUSTER, []));
    AssociateKeeps(hash, s, Associate(arn, a, CLUSTER, []));
    AssociateKeeps(hash, one, Associate(arn, b, CLUSTER, []));
    var pa, pb := AccessPolicy(a, CLUSTER, []), AccessPolicy(b, CLUSTER, []);
    UpsertedExact(s.entries[arn].policies, pa);
    UpsertedExact(one.entries[arn].policies, pb);
    FindIsNamed(both.entries[arn].policies, a);
    var policy := Find(both.entries[arn].policies, a).value;
    assert policy == pa by {
      assert policy in both.entries[arn].policies && policy != pb;
    }
    var k := InCluster(BindingName(hash, arn, ClusterRoleForPolicy(a).value));
    assert k in PolicyKeys(hash, arn, pa) * PolicyKeys(hash, arn, pb);
    assert OtherUser(hash, both, arn, pa, arn, pb);
    DisassociateKeepsExactly(hash, both, Disassociate(arn, a));
  }

  /** Such pairs exist: a trailing slash makes another ARN of the same role. */
  lemma TrailingSlashSharesRole(policyARN: string)
    requires policyARN != ""
    ensures ClusterRoleForPolicy(policyARN + "/") == ClusterRoleForPolicy(policyARN) && policyARN + "/" != policyARN
  {
    assert (policyARN + "/")[..|policyARN|] == policyARN;
    assert |policyARN + "/"| == |policyARN| + 1;
  }
}
