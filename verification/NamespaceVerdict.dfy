/** What a namespace lets in once a reconcile pass has applied every ClusterNetworkPolicy: NetworkPolicies
    add up, so a connection to a pod passes when no policy isolates the pod or one that does admits it.
 */
module NamespaceVerdicts {
  import opened Kube
  import opened NetworkPolicies
  import opened ClusterNetworkPolicies
  import opened ClusterNetworkPolicyMeaning
  import opened ClusterNetworkPolicyLimits
  import opened CNPController
  import opened Wrappers

  /** The policy applies to ingress of pods with these labels; an empty `policyTypes` means Ingress. */
  predicate Isolates(np: NetworkPolicy, pod: Labels) {
    SelectorMatches(np.spec.podSelector, pod) && (np.spec.policyTypes == [] || "Ingress" in np.spec.policyTypes)
  }

  ghost predicate IsolatedBy(objects: Objects, namespace: string, pod: Labels, k: Key) {
    k in objects && k.namespace == namespace && Isolates(objects[k], pod)
  }

  ghost predicate AdmittedBy(objects: Objects, namespace: string, pod: Labels, t: Traffic, k: Key) {
    IsolatedBy(objects, namespace, pod, k) && Admits(objects[k].spec.ingress, t)
  }

  ghost predicate SomeIsolates(objects: Objects, namespace: string, pod: Labels) {
    exists k :: IsolatedBy(objects, namespace, pod, k)
  }

  ghost predicate SomeAdmits(objects: Objects, namespace: string, pod: Labels, t: Traffic) {
    exists k :: AdmittedBy(objects, namespace, pod, t, k)
  }

  /** The verdict of all the policies of a namespace together. */
  ghost predicate NamespaceAdmits(objects: Objects, namespace: string, pod: Labels, t: Traffic) {
    !SomeIsolates(objects, namespace, pod) || SomeAdmits(objects, namespace, pod, t)
  }

  /** The policies of others: fjord leaves unmanaged ones alone. */
  ghost function Unmanaged(before: Objects): Objects {
    map k | k in before && !Managed(before[k]) :: before[k]
  }

  /** The ClusterNetworkPolicy has its policy in the namespace after a pass. */
  ghost predicate Placed(before: Objects, dc: DecodedCNP, ns: Namespace) {
    Derived(dc, ns).Some? && DerivedKey(dc, ns) !in Unmanaged(before)
  }

  ghost predicate SomePlaced(before: Objects, cnps: seq<DecodedCNP>, ns: Namespace) {
    exists dc | dc in cnps :: Placed(before, dc, ns)
  }

  ghost predicate PlacedAdmits(before: Objects, cnps: seq<DecodedCNP>, ns: Namespace, t: Traffic) {
    exists dc | dc in cnps :: Placed(before, dc, ns) && Verdict(Translation(dc.cnp, ns.name), t)
  }

  lemma DerivedIsolates(dc: DecodedCNP, ns: Namespace, pod: Labels)
    requires Derived(dc, ns).Some?
    ensures Translation(dc.cnp, ns.name).Some? && Derived(dc, ns).value.spec == Translation(dc.cnp, ns.name).value.spec
    ensures Isolates(Derived(dc, ns).value, pod)
  {
    assert "Ingress" in ["Ingress"];
  }

  /** What a key holds after a pass. */
  lemma AfterPassAt(before: Objects, desired: Objects, k: Key)
    requires k in Reconciled(before, desired)
    ensures k in Unmanaged(before) ==> Reconciled(before, desired)[k] == before[k]
    ensures k !in Unmanaged(before) ==> k in desired && Reconciled(before, desired)[k].spec == desired[k].spec
  {
  }

  lemma SameNamespace(namespaces: seq<Namespace>, a: Namespace, b: Namespace)
    requires DistinctNamespaces(namespaces) && a in namespaces && b in namespaces && a.name == b.name
    ensures a == b
  {
  }

  /** A desired policy of the namespace is one of the derived ones. */
  lemma DesiredIsDerived(desired: Objects, cnps: seq<DecodedCNP>, namespaces: seq<Namespace>, ns: Namespace, k: Key)
    returns (dc: DecodedCNP)
    requires IsDesired(desired, cnps, namespaces) && DistinctNamespaces(namespaces) && ns in namespaces
    requires k in desired && k.namespace == ns.name
    ensures dc in cnps && Derived(dc, ns).Some? && k == DerivedKey(dc, ns) && desired[k] == Derived(dc, ns).value
  {
    var found, other :| found in cnps && other in namespaces && Derived(found, other).Some? && k == DerivedKey(found, other);
    SameNamespace(namespaces, other, ns);
    dc := found;
  }

  /** Each placed policy is there, isolates every pod, and admits what the translation does. */
  lemma PlacedIsThere(before: Objects, desired: Objects, cnps: seq<DecodedCNP>, namespaces: seq<Namespace>,
                      dc: DecodedCNP, ns: Namespace, pod: Labels, t: Traffic)
    requires IsDesired(desired, cnps, namespaces) && dc in cnps && ns in namespaces && Placed(before, dc, ns)
    ensures IsolatedBy(Reconciled(before, desired), ns.name, pod, DerivedKey(dc, ns))
    ensures AdmittedBy(Reconciled(before, desired), ns.name, pod, t, DerivedKey(dc, ns)) <==> Verdict(Translation(dc.cnp, ns.name), t)
  {
    var k := DerivedKey(dc, ns);
    assert k in desired && desired[k] == Derived(dc, ns).value;
    assert k in Reconciled(before, desired);
    AfterPassAt(before, desired, k);
    DerivedIsolates(dc, ns, pod);
  }

  /** Somebody else's policy is there as it was. */
  lemma UnmanagedIsThere(before: Objects, desired: Objects, namespace: string, pod: Labels, t: Traffic, k: Key)
    requires k in Unmanaged(before)
    ensures IsolatedBy(Reconciled(before, desired), namespace, pod, k) <==> IsolatedBy(Unmanaged(before), namespace, pod, k)
    ensures AdmittedBy(Reconciled(before, desired), namespace, pod, t, k) <==> AdmittedBy(Unmanaged(before), namespace, pod, t, k)
  {
    assert k in Reconciled(before, desired);
    AfterPassAt(before, desired, k);
  }

  lemma IsolatedAfterPass(before: Objects, desired: Objects, cnps: seq<DecodedCNP>, namespaces: seq<Namespace>, ns: Namespace,
                          pod: Labels, t: Traffic)
    requires IsDesired(desired, cnps, namespaces) && DistinctNamespaces(namespaces) && ns in namespaces
    ensures SomeIsolates(Reconciled(before, desired), ns.name, pod) <==>
            SomePlaced(before, cnps, ns) || SomeIsolates(Unmanaged(before), ns.name, pod)
  {
    if k :| IsolatedBy(Reconciled(before, desired), ns.name, pod, k) {
      AfterPassAt(before, desired, k);
      if k in Unmanaged(before) {
        UnmanagedIsThere(before, desired, ns.name, pod, t, k);
      } else {
        var dc := DesiredIsDerived(desired, cnps, namespaces, ns, k);
        assert Placed(before, dc, ns);
      }
    }
    if dc :| dc in cnps && Placed(before, dc, ns) {
      PlacedIsThere(before, desired, cnps, namespaces, dc, ns, pod, t);
    }
    if k :| IsolatedBy(Unmanaged(before), ns.name, pod, k) {
      UnmanagedIsThere(before, desired, ns.name, pod, t, k);
    }
  }

  lemma AdmittedIfAfterPass(before: Objects, desired: Objects, cnps: seq<DecodedCNP>, namespaces: seq<Namespace>, ns: Namespace,
                            pod: Labels, t: Traffic, k: Key)
    requires IsDesired(desired, cnps, namespaces) && DistinctNamespaces(namespaces) && ns in namespaces
    requires AdmittedBy(Reconciled(before, desired), ns.name, pod, t, k)
    ensures PlacedAdmits(before, cnps, ns, t) || SomeAdmits(Unmanaged(before), ns.name, pod, t)
  {
    AfterPassAt(before, desired, k);
    if k in Unmanaged(before) {
      UnmanagedIsThere(before, desired, ns.name, pod, t, k);
    } else {
      var dc := DesiredIsDerived(desired, cnps, namespaces, ns, k);
      PlacedIsThere(before, desired, cnps, namespaces, dc, ns, pod, t);
    }
  }

  lemma AdmittedAfterPass(before: Objects, desired: Objects, cnps: seq<DecodedCNP>, namespaces: seq<Namespace>, ns: Namespace,
                          pod: Labels, t: Traffic)
    requires IsDesired(desired, cnps, namespaces) && DistinctNamespaces(namespaces) && ns in namespaces
    ensures SomeAdmits(Reconciled(before, desired), ns.name, pod, t) <==>
            PlacedAdmits(before, cnps, ns, t) || SomeAdmits(Unmanaged(before), ns.name, pod, t)
  {
    if k :| AdmittedBy(Reconciled(before, desired), ns.name, pod, t, k) {
      AdmittedIfAfterPass(before, desired, cnps, namespaces, ns, pod, t, k);
    }
    if dc :| dc in cnps && Placed(before, dc, ns) && Verdict(Translation(dc.cnp, ns.name), t) {
      PlacedIsThere(before, desired, cnps, namespaces, dc, ns, pod, t);
    }
    if k :| AdmittedBy(Unmanaged(before), ns.name, pod, t, k) {
      UnmanagedIsThere(before, desired, ns.name, pod, t, k);
    }
  }

  /** The verdict of a namespace after a successful pass: nothing isolates the pod, or a translation or
      somebody else's policy admits the connection.
   */
  lemma NamespaceAfterPass(before: Objects, desired: Objects, cnps: seq<DecodedCNP>, namespaces: seq<Namespace>, ns: Namespace,
                           pod: Labels, t: Traffic)
    requires IsDesired(desired, cnps, namespaces) && DistinctNamespaces(namespaces) && ns in namespaces
    ensures NamespaceAdmits(Reconciled(before, desired), ns.name, pod, t) <==>
            || (!SomePlaced(before, cnps, ns) && !SomeIsolates(Unmanaged(before), ns.name, pod))
            || PlacedAdmits(before, cnps, ns, t)
            || SomeAdmits(Unmanaged(before), ns.name, pod, t)
  {
    IsolatedAfterPass(before, desired, cnps, namespaces, ns, pod, t);
    AdmittedAfterPass(before, desired, cnps, namespaces, ns, pod, t);
  }

  /** A translation opens a connection: an Allow rule names it, or its restrictions leave it alone. */
  ghost predicate Opens(cnp: ClusterNetworkPolicy, t: Traffic) {
    AllowedAsTranslated(cnp.ingress, t)
    || (SomeSoleDeny(cnp.ingress) && (!Denied(cnp.ingress, t) || Wraps(cnp.ingress, t.protocol)))
  }

  /** What one ClusterNetworkPolicy keeps closed stays closed exactly when no other one that selects the
      namespace opens it, and no policy of somebody else admits it. A second Deny policy is enough to
      open every port the first one closes.
   */
  lemma ClosedStaysClosedExactly(before: Objects, desired: Objects, cnps: seq<DecodedCNP>, namespaces: seq<Namespace>,
                                 dc: DecodedCNP, ns: Namespace, pod: Labels, t: Traffic)
    requires IsDesired(desired, cnps, namespaces) && DistinctNamespaces(namespaces) && ns in namespaces
    requires dc in cnps && Placed(before, dc, ns) && InDomain(t) && !Verdict(Translation(dc.cnp, ns.name), t)
    ensures !NamespaceAdmits(Reconciled(before, desired), ns.name, pod, t) <==>
            && (forall other | other in cnps && Placed(before, other, ns) :: other != dc ==> !Opens(other.cnp, t))
            && !SomeAdmits(Unmanaged(before), ns.name, pod, t)
  {
    NamespaceAfterPass(before, desired, cnps, namespaces, ns, pod, t);
    assert SomePlaced(before, cnps, ns);
    forall other | other in cnps && Placed(before, other, ns)
      ensures Verdict(Translation(other.cnp, ns.name), t) <==> Opens(other.cnp, t)
    {
      TranslationAdmits(other.cnp, ns.name, t);
      DerivedIsolates(other, ns, pod);
    }
  }

  function DenyPort(name: string, port: Int32): DecodedCNP {
    DecodedCNP(ClusterNetworkPolicy(name, CNPSubject(Some(EVERYTHING), None), [CNPRule("deny", Deny, [], [CNPPort(TCP, port)])], []), name)
  }

  lemma DenyPortMeans(name: string, port: Int32, ns: Namespace, t: Traffic)
    requires 1 < port <= 65535 && t.protocol == TCP && InDomain(t)
    ensures Derived(DenyPort(name, port), ns).Some? && (Opens(DenyPort(name, port).cnp, t) <==> t.port != port)
    ensures Verdict(Translation(DenyPort(name, port).cnp, ns.name), t) <==> t.port != port
  {
    var rules := DenyPort(name, port).cnp.ingress;
    assert SoleDeny(rules, 0, 0);
    assert Restriction(port, None) in Restrictions(rules, TCP) by {
      SurvivorIsSole(rules, TCP, Restriction(port, None));
    }
    assert Denied(rules, t) <==> t.port == port by {
      assert t.port == port ==> SoleDeny(rules, 0, 0) && NamesSource(rules[0].from, t.source);
    }
    assert !AllowedAsTranslated(rules, t) && !Wraps(rules, TCP);
    DenyPortEmits(name, port, ns);
    TranslationAdmits(DenyPort(name, port).cnp, ns.name, t);
  }

  /** Port 1 stays open, so something is emitted. */
  lemma DenyPortEmits(name: string, port: Int32, ns: Namespace)
    requires 1 < port <= 65535
    ensures Translation(DenyPort(name, port).cnp, ns.name).Some? && Derived(DenyPort(name, port), ns).Some?
  {
    var rules := DenyPort(name, port).cnp.ingress;
    assert SoleDeny(rules, 0, 0);
    assert !Closed(rules, TCP, 1);
    OpenFirstPort(rules, TCP);
    NothingEmittedExactly(DenyPort(name, port).cnp, ns.name);
  }

  /** Two ClusterNetworkPolicies over one namespace, one denying TCP port 22 and one TCP port 80: each by
      itself refuses its port, and together they admit both.
   */
  lemma DenyPoliciesCancel(desired: Objects, ns: Namespace, pod: Labels, source: Labels)
    requires IsDesired(desired, [DenyPort("a", 22), DenyPort("b", 80)], [ns])
    ensures
      var ssh, web := Traffic(source, TCP, 22), Traffic(source, TCP, 80);
      && !Verdict(Translation(DenyPort("a", 22).cnp, ns.name), ssh) && !Verdict(Translation(DenyPort("b", 80).cnp, ns.name), web)
      && NamespaceAdmits(Reconciled(map[], desired), ns.name, pod, ssh)
      && NamespaceAdmits(Reconciled(map[], desired), ns.name, pod, web)
  {
    var ssh, web := DenyPort("a", 22), DenyPort("b", 80);
    DenyPortMeans("a", 22, ns, Traffic(source, TCP, 22));
    DenyPortMeans("b", 80, ns, Traffic(source, TCP, 80));
    DenyPortMeans("b", 80, ns, Traffic(source, TCP, 22));
    DenyPortMeans("a", 22, ns, Traffic(source, TCP, 80));
    OneAdmits(desired, [ssh, web], ns, web, pod, Traffic(source, TCP, 22));
    OneAdmits(desired, [ssh, web], ns, ssh, pod, Traffic(source, TCP, 80));
  }

  /** One translation that admits the connection is enough. */
  lemma OneAdmits(desired: Objects, cnps: seq<DecodedCNP>, ns: Namespace, dc: DecodedCNP, pod: Labels, t: Traffic)
    requires IsDesired(desired, cnps, [ns]) && dc in cnps && Derived(dc, ns).Some? && Verdict(Translation(dc.cnp, ns.name), t)
    ensures NamespaceAdmits(Reconciled(map[], desired), ns.name, pod, t)
  {
    assert Placed(map[], dc, ns);
    NamespaceAfterPass(map[], desired, cnps, [ns], ns, pod, t);
  }
}
