/** Two properties of the translation's output: which Deny ports it enforces and which it reports, and
    that it does not depend on the order of the Deny rules. The second is what lets the controller compare
    a fresh translation with the stored policy and find no difference.
 */
module ClusterNetworkPolicyCanonical {
  import opened NetworkPolicies
  import opened ClusterNetworkPolicies
  import opened ClusterNetworkPolicyMeaning
  import opened Sequences
  import opened Wrappers

  // ---------------------------------------------------------------- every Deny port is enforced or reported

  lemma {:induction false} PortReported(ports: seq<CNPPort>, rule: string, j: int)
    requires 0 <= j < |ports| && !IsTranslatableProtocol(ports[j].protocol)
    ensures Unsupported(rule, UnsupportedProtocol(ports[j].protocol)) in PortReports(ports, rule)
  {
    if j < |ports| - 1 {
      PortReported(ports[..|ports| - 1], rule, j);
    }
  }

  lemma {:induction false} RuleReported(rules: seq<CNPRule>, i: int, report: Unsupported)
    requires 0 <= i < |rules| && report in RuleReports(rules[i])
    ensures report in ShapeReports(rules)
  {
    if i < |rules| - 1 {
      RuleReported(rules[..|rules| - 1], i, report);
    }
  }

  lemma {:induction false} PeerReported(peers: seq<CNPPeer>, rule: string, k: int)
    requires 0 <= k < |peers| && peers[k].namespaces.None?
    ensures Unsupported(rule, PeerWithoutNamespaces) in PeerReports(peers, rule)
  {
    if k < |peers| - 1 {
      PeerReported(peers[..|peers| - 1], rule, k);
    }
  }

  lemma {:induction false} AllowReported(rules: seq<CNPRule>, i: int, report: Unsupported)
    requires 0 <= i < |rules| && rules[i].action == Allow && report in PeerReports(rules[i].from, rules[i].name)
    ensures report in AllowReports(rules)
  {
    if i < |rules| - 1 {
      AllowReported(rules[..|rules| - 1], i, report);
    }
  }

  /** A key is in conflict exactly when some translatable occurrence of it is not alone. */
  lemma ConflictExactly(rules: seq<CNPRule>, key: CNPPort)
    ensures key in Conflicts(Occurrences(rules)) <==>
            exists i, j :: Translatable(rules, i, j) && rules[i].ports[j] == key && !SoleDeny(rules, i, j)
  {
    CountClaimants(rules, key);
    AtMembers(Occurrences(rules), key);
    if key in Conflicts(Occurrences(rules)) {
      var c :| c in Claimants(rules, key);
      SoleClaimant(rules, c.0, c.1);
    }
    if i, j :| Translatable(rules, i, j) && rules[i].ports[j] == key && !SoleDeny(rules, i, j) {
      SoleClaimant(rules, i, j);
      assert (i, j) in Claimants(rules, key);
      assert |Claimants(rules, key)| > 1;
    }
  }

  lemma ConflictReported(rules: seq<CNPRule>, key: CNPPort)
    ensures ConflictReport(key) in ConflictReports(Occurrences(rules)) <==> key in Conflicts(Occurrences(rules))
  {
    var keys := Conflicts(Occurrences(rules));
    var reports := set k | k in keys :: ConflictReport(k);
    assert ConflictReport(key) in reports <==> key in keys;
  }

  lemma {:induction false} ShapeReportsAreNotConflicts(rules: seq<CNPRule>)
    ensures forall report | report in ShapeReports(rules) :: !report.reason.RestrictedTwice?
  {
    if rules != [] {
      ShapeReportsAreNotConflicts(rules[..|rules| - 1]);
      PortReportsAreNotConflicts(rules[|rules| - 1].ports, rules[|rules| - 1].name);
    }
  }

  lemma {:induction false} PortReportsAreNotConflicts(ports: seq<CNPPort>, rule: string)
    ensures forall report | report in PortReports(ports, rule) :: report.reason.UnsupportedProtocol?
  {
    if ports != [] {
      PortReportsAreNotConflicts(ports[..|ports| - 1], rule);
    }
  }

  lemma {:induction false} AllowReportsAreNotConflicts(rules: seq<CNPRule>)
    ensures forall report | report in AllowReports(rules) :: report.reason == PeerWithoutNamespaces
  {
    if rules != [] {
      AllowReportsAreNotConflicts(rules[..|rules| - 1]);
      PeerReportsAreNotConflicts(rules[|rules| - 1].from, rules[|rules| - 1].name);
    }
  }

  lemma {:induction false} PeerReportsAreNotConflicts(peers: seq<CNPPeer>, rule: string)
    ensures forall report | report in PeerReports(peers, rule) :: report.reason == PeerWithoutNamespaces
  {
    if peers != [] {
      PeerReportsAreNotConflicts(peers[..|peers| - 1], rule);
    }
  }

  /** No listed port is dropped silently: port j of Deny rule i is the one occurrence of its protocol and port
      and becomes the one restriction of that port, or it is reported, for its rule's shape, for its
      protocol, or for the conflict. A conflict is reported only where there is one.
   */
  lemma DenyAccounted(cnp: ClusterNetworkPolicy, i: int, j: int)
    requires 0 <= i < |cnp.ingress| && 0 <= j < |cnp.ingress[i].ports| && cnp.ingress[i].action == Deny
    ensures
      var rule, key := cnp.ingress[i], cnp.ingress[i].ports[j];
      var shape := DenyAllowedPeer(rule);
      if shape.Rejected? then Unsupported(rule.name, shape.reason) in Reports(cnp)
      else if !IsTranslatableProtocol(key.protocol) then
        Unsupported(rule.name, UnsupportedProtocol(key.protocol)) in Reports(cnp)
      else if SoleDeny(cnp.ingress, i, j) then
        && Restriction(key.port, shape.allowed) in Restrictions(cnp.ingress, key.protocol)
        && (forall r | r in Restrictions(cnp.ingress, key.protocol) && r.port == key.port :: r.allowed == shape.allowed)
        && ConflictReport(key) !in Reports(cnp)
      else ConflictReport(key) in Reports(cnp)
  {
    var rules, rule, key := cnp.ingress, cnp.ingress[i], cnp.ingress[i].ports[j];
    match DenyAllowedPeer(rule)
    case Rejected(reason) =>
      RuleReported(rules, i, Unsupported(rule.name, reason));
    case Supported(allowed) =>
      if !IsTranslatableProtocol(key.protocol) {
        PortReported(rule.ports, rule.name, j);
        RuleReported(rules, i, Unsupported(rule.name, UnsupportedProtocol(key.protocol)));
      } else {
        ClaimAccounted(cnp, i, j);
      }
  }

  lemma ClaimAccounted(cnp: ClusterNetworkPolicy, i: int, j: int)
    requires Translatable(cnp.ingress, i, j)
    ensures
      var key, allowed := cnp.ingress[i].ports[j], DenyAllowedPeer(cnp.ingress[i]).allowed;
      if SoleDeny(cnp.ingress, i, j) then
        && Restriction(key.port, allowed) in Restrictions(cnp.ingress, key.protocol)
        && (forall r | r in Restrictions(cnp.ingress, key.protocol) && r.port == key.port :: r.allowed == allowed)
        && ConflictReport(key) !in Reports(cnp)
      else ConflictReport(key) in Reports(cnp)
  {
    var rules, key := cnp.ingress, cnp.ingress[i].ports[j];
    ConflictExactly(rules, key);
    ConflictReported(rules, key);
    if SoleDeny(rules, i, j) {
      SurvivorIsSole(rules, key.protocol, Restriction(key.port, DenyAllowedPeer(rules[i]).allowed));
      RestrictionsSpec(rules, key.protocol);
      ShapeReportsAreNotConflicts(rules);
      AllowReportsAreNotConflicts(rules);
    }
  }

  // ---------------------------------------------------------------- what is reported, and nothing else

  /** Rule i has the action Allow and a peer without a namespace selector. */
  ghost predicate LosesPeer(rules: seq<CNPRule>, i: int) {
    0 <= i < |rules| && rules[i].action == Allow && exists peer | peer in rules[i].from :: peer.namespaces.None?
  }

  /** Port j of Deny rule i names a protocol that cannot be restricted. */
  ghost predicate Unrestrictable(rules: seq<CNPRule>, i: int, j: int) {
    && 0 <= i < |rules| && 0 <= j < |rules[i].ports| && rules[i].action == Deny && Reversible(rules[i].from)
    && rules[i].ports[j].protocol != "TCP" && rules[i].ports[j].protocol != "UDP"
  }

  /** Port j of Deny rule i is claimed by another translatable Deny occurrence too. */
  ghost predicate Contested(rules: seq<CNPRule>, i: int, j: int) {
    Translatable(rules, i, j) && !SoleDeny(rules, i, j)
  }

  /** Deny rule i has a `from` that cannot be turned around. */
  ghost predicate Irreversible(rules: seq<CNPRule>, i: int) {
    0 <= i < |rules| && rules[i].action == Deny && !Reversible(rules[i].from)
  }

  /** There is something in the ingress rules to report this way, under this name. */
  ghost predicate IngressDeserves(rules: seq<CNPRule>, report: Unsupported) {
    match report.reason
    case PeerWithoutNamespaces => exists i :: LosesPeer(rules, i) && rules[i].name == report.rule
    case SeveralDenyPeers => exists i :: Irreversible(rules, i) && |rules[i].from| > 1 && rules[i].name == report.rule
    case DenyPeerShape => exists i :: Irreversible(rules, i) && |rules[i].from| == 1 && rules[i].name == report.rule
    case UnsupportedProtocol(protocol) =>
      exists i, j :: Unrestrictable(rules, i, j) && rules[i].ports[j].protocol == protocol && rules[i].name == report.rule
    case RestrictedTwice(key) =>
      report.rule == "" && exists i, j :: Contested(rules, i, j) && rules[i].ports[j] == key
    case _ => false
  }

  /** The reports are one for a pod subject, one for each egress rule, one for each Allow rule that loses a
      peer, one for each Deny rule that cannot be turned around, one for each protocol that cannot be
      restricted and one for each contested port, under the name of the rule they are about.
   */
  lemma ReportsExactly(cnp: ClusterNetworkPolicy, report: Unsupported)
    ensures report in Reports(cnp) <==>
            || (report == Unsupported("", PodSubject) && cnp.subject.pods.Some?)
            || (report.reason == EgressRule && exists i :: 0 <= i < |cnp.egress| && cnp.egress[i].name == report.rule)
            || IngressDeserves(cnp.ingress, report)
  {
    ReportedSomewhere(cnp, report);
    EgressReportsExactly(cnp.egress, report);
    AllowReportsExactly(cnp.ingress, report);
    ShapeReportsDeserved(cnp.ingress, report);
    ConflictDeserved(cnp.ingress, report);
  }

  lemma ReportedSomewhere(cnp: ClusterNetworkPolicy, report: Unsupported)
    ensures report in Reports(cnp) <==>
            || (report == Unsupported("", PodSubject) && cnp.subject.pods.Some?)
            || report in EgressReports(cnp.egress) || report in AllowReports(cnp.ingress)
            || report in ShapeReports(cnp.ingress) || report in ConflictReports(Occurrences(cnp.ingress))
  {
  }

  lemma EgressReportsExactly(rules: seq<CNPRule>, report: Unsupported)
    ensures report in EgressReports(rules) <==>
            report.reason == EgressRule && exists i :: 0 <= i < |rules| && rules[i].name == report.rule
  {
    var reports := EgressReports(rules);
    if i :| 0 <= i < |rules| && report == Unsupported(rules[i].name, EgressRule) {
      assert reports[i] == report;
    }
  }

  lemma ConflictDeserved(rules: seq<CNPRule>, report: Unsupported)
    ensures report in ConflictReports(Occurrences(rules)) <==> report.reason.RestrictedTwice? && IngressDeserves(rules, report)
  {
    if report.reason.RestrictedTwice? {
      var key := report.reason.key;
      ConflictExactly(rules, key);
      ConflictReported(rules, key);
      assert report.rule == "" ==> report == ConflictReport(key);
    }
  }

  lemma ShapeReportsDeserved(rules: seq<CNPRule>, report: Unsupported)
    ensures report in ShapeReports(rules) <==>
            && (report.reason == SeveralDenyPeers || report.reason == DenyPeerShape || report.reason.UnsupportedProtocol?)
            && IngressDeserves(rules, report)
  {
    ShapeReportsExactly(rules, report);
    if report in ShapeReports(rules) {
      var i :| 0 <= i < |rules| && report in RuleReports(rules[i]);
      assert !Reversible(rules[i].from) ==> Irreversible(rules, i);
    }
    if report.reason == SeveralDenyPeers || report.reason == DenyPeerShape {
      if i :| Irreversible(rules, i) && rules[i].name == report.rule
              && (|rules[i].from| > 1 <==> report.reason == SeveralDenyPeers) {
        assert report in RuleReports(rules[i]);
      }
    }
    if report.reason.UnsupportedProtocol? && IngressDeserves(rules, report) {
      var i, j :| Unrestrictable(rules, i, j) && rules[i].ports[j].protocol == report.reason.protocol && rules[i].name == report.rule;
      assert report in RuleReports(rules[i]);
    }
  }

  lemma {:induction false} AllowReportsExactly(rules: seq<CNPRule>, report: Unsupported)
    ensures report in AllowReports(rules) <==>
            report.reason == PeerWithoutNamespaces && IngressDeserves(rules, report)
  {
    AllowReportsAreNotConflicts(rules);
    if report in AllowReports(rules) {
      LostPeerOf(rules, report);
    }
    if i :| LosesPeer(rules, i) && report == Unsupported(rules[i].name, PeerWithoutNamespaces) {
      var k :| 0 <= k < |rules[i].from| && rules[i].from[k].namespaces.None?;
      PeerReported(rules[i].from, rules[i].name, k);
      AllowReported(rules, i, report);
    }
  }

  lemma {:induction false} LostPeerOf(rules: seq<CNPRule>, report: Unsupported)
    requires report in AllowReports(rules)
    ensures exists i :: LosesPeer(rules, i) && rules[i].name == report.rule
  {
    var n := |rules| - 1;
    if report in AllowReports(rules[..n]) {
      LostPeerOf(rules[..n], report);
      var i :| LosesPeer(rules[..n], i) && rules[i].name == report.rule;
      assert LosesPeer(rules, i);
    } else {
      LostPeer(rules[n].from, rules[n].name, report);
      assert LosesPeer(rules, n);
    }
  }

  lemma {:induction false} LostPeer(peers: seq<CNPPeer>, rule: string, report: Unsupported)
    requires report in PeerReports(peers, rule)
    ensures report.rule == rule && exists peer | peer in peers :: peer.namespaces.None?
  {
    var n := |peers| - 1;
    if report in PeerReports(peers[..n], rule) {
      LostPeer(peers[..n], rule, report);
    } else {
      assert peers[n].namespaces.None?;
    }
  }

  lemma ShapeReportsExactly(rules: seq<CNPRule>, report: Unsupported)
    ensures report in ShapeReports(rules) <==> exists i :: 0 <= i < |rules| && report in RuleReports(rules[i])
    ensures forall i | 0 <= i < |rules| ::
              report in RuleReports(rules[i]) <==>
                || (rules[i].action == Deny && |rules[i].from| > 1 && report == Unsupported(rules[i].name, SeveralDenyPeers))
                || (rules[i].action == Deny && |rules[i].from| == 1 && !Reversible(rules[i].from)
                    && report == Unsupported(rules[i].name, DenyPeerShape))
                || exists j :: Unrestrictable(rules, i, j)
                           && report == Unsupported(rules[i].name, UnsupportedProtocol(rules[i].ports[j].protocol))
  {
    if report in ShapeReports(rules) {
      ReportedRule(rules, report);
    }
    if i :| 0 <= i < |rules| && report in RuleReports(rules[i]) {
      RuleReported(rules, i, report);
    }
    forall i | 0 <= i < |rules|
      ensures report in PortReports(rules[i].ports, rules[i].name) <==>
              exists j :: 0 <= j < |rules[i].ports| && !IsTranslatableProtocol(rules[i].ports[j].protocol)
                       && report == Unsupported(rules[i].name, UnsupportedProtocol(rules[i].ports[j].protocol))
    {
      PortReportsExactly(rules[i].ports, rules[i].name, report);
    }
  }

  lemma {:induction false} ReportedRule(rules: seq<CNPRule>, report: Unsupported)
    requires report in ShapeReports(rules)
    ensures exists i :: 0 <= i < |rules| && report in RuleReports(rules[i])
  {
    var n := |rules| - 1;
    if report in ShapeReports(rules[..n]) {
      ReportedRule(rules[..n], report);
      var i :| 0 <= i < n && report in RuleReports(rules[..n][i]);
      assert report in RuleReports(rules[i]);
    } else {
      assert report in RuleReports(rules[n]);
    }
  }

  lemma {:induction false} PortReportsExactly(ports: seq<CNPPort>, rule: string, report: Unsupported)
    ensures report in PortReports(ports, rule) <==>
            exists j :: 0 <= j < |ports| && !IsTranslatableProtocol(ports[j].protocol)
                     && report == Unsupported(rule, UnsupportedProtocol(ports[j].protocol))
  {
    if ports != [] {
      var n := |ports| - 1;
      PortReportsExactly(ports[..n], rule, report);
      if j :| 0 <= j < |ports| && !IsTranslatableProtocol(ports[j].protocol)
              && report == Unsupported(rule, UnsupportedProtocol(ports[j].protocol)) {
        assert j < n ==> ports[..n][j] == ports[j];
      }
    }
  }

  /** Deny rule i leaves no trace: none of its ports survives, and no report is about the rule or a port of it. */
  ghost predicate Silent(cnp: ClusterNetworkPolicy, i: int)
    requires 0 <= i < |cnp.ingress|
  {
    && RuleReports(cnp.ingress[i]) == []
    && forall j | 0 <= j < |cnp.ingress[i].ports| :: !SoleDeny(cnp.ingress, i, j) && ConflictReport(cnp.ingress[i].ports[j]) !in Reports(cnp)
  }

  lemma {:induction false} NoPortReports(ports: seq<CNPPort>, rule: string)
    ensures PortReports(ports, rule) == [] <==> forall j | 0 <= j < |ports| :: IsTranslatableProtocol(ports[j].protocol)
  {
    if ports != [] {
      var front := ports[..|ports| - 1];
      NoPortReports(front, rule);
      assert forall j | 0 <= j < |front| :: ports[j] == front[j];
    }
  }

  /** Exactly the Deny rules that omit their ports, and whose shape fjord supports, are dropped silently,
      although omitted ports mean every port.
   */
  lemma SilentExactly(cnp: ClusterNetworkPolicy, i: int)
    requires 0 <= i < |cnp.ingress| && cnp.ingress[i].action == Deny
    ensures Silent(cnp, i) <==> Reversible(cnp.ingress[i].from) && cnp.ingress[i].ports == []
  {
    var rule := cnp.ingress[i];
    NoPortReports(rule.ports, rule.name);
    SupportedExactly(rule);
    if Reversible(rule.from) && rule.ports != [] {
      DenyAccounted(cnp, i, 0);
    }
  }

  /** Denying everyone on every port this way yields no policy and no report. */
  lemma PortlessDenyIsSilent()
    ensures
      var cnp := ClusterNetworkPolicy("p", CNPSubject(None, None), [CNPRule("deny-everything", Deny, [], [])], []);
      Translation(cnp, "ns").None? && Reports(cnp) == multiset{}
  {
    var rule := CNPRule("deny-everything", Deny, [], []);
    var rules := [rule];
    assert rules[..0] == [];
    assert Occurrences(rules) == [] && ShapeReports(rules) == [] && AllowReports(rules) == [] && AllowRules(rules) == [];
    assert Restrictions(rules, TCP) == [] && Restrictions(rules, UDP) == [];
    assert Conflicts([]) == {};
  }

  /** Every peer an Allow rule loses is reported under that rule. */
  lemma AllowPeerAccounted(cnp: ClusterNetworkPolicy, i: int, k: int)
    requires 0 <= i < |cnp.ingress| && 0 <= k < |cnp.ingress[i].from| && cnp.ingress[i].action == Allow
    ensures cnp.ingress[i].from[k].namespaces.None? ==>
              Unsupported(cnp.ingress[i].name, PeerWithoutNamespaces) in Reports(cnp)
    ensures cnp.ingress[i].from[k].namespaces.Some? ==>
              NetworkPolicyPeer(cnp.ingress[i].from[k].namespaces.value) in AllowRule(cnp.ingress[i]).from
  {
    var rule := cnp.ingress[i];
    if rule.from[k].namespaces.None? {
      PeerReported(rule.from, rule.name, k);
      AllowReported(cnp.ingress, i, Unsupported(rule.name, PeerWithoutNamespaces));
    } else {
      TranslatedPeers(rule.from, NetworkPolicyPeer(rule.from[k].namespaces.value));
      assert rule.from[k] in rule.from;
    }
  }

  // ---------------------------------------------------------------- order independence

  function Kept(action: Action): CNPRule -> seq<CNPRule> {
    (rule: CNPRule) => if rule.action == action then [rule] else []
  }

  /** The rules with one action, in order. */
  function Only(rules: seq<CNPRule>, action: Action): seq<CNPRule> {
    Flatten(Kept(action), rules)
  }

  function Allowing(rule: CNPRule): seq<IngressRule> {
    if rule.action == Allow then [AllowRule(rule)] else []
  }

  function AllowReporting(rule: CNPRule): seq<Unsupported> {
    if rule.action == Allow then PeerReports(rule.from, rule.name) else []
  }

  lemma {:induction false} AllowIsFlatten(rules: seq<CNPRule>)
    ensures AllowRules(rules) == Flatten(Allowing, rules)
    ensures AllowReports(rules) == Flatten(AllowReporting, rules)
  {
    if rules != [] {
      AllowIsFlatten(rules[..|rules| - 1]);
    }
  }

  lemma {:induction false} OccurrencesIsFlatten(rules: seq<CNPRule>)
    ensures Occurrences(rules) == Flatten(RuleOccurrences, rules)
  {
    if rules != [] {
      OccurrencesIsFlatten(rules[..|rules| - 1]);
    }
  }

  lemma {:induction false} ShapeReportsIsFlatten(rules: seq<CNPRule>)
    ensures ShapeReports(rules) == Flatten(RuleReports, rules)
  {
    if rules != [] {
      ShapeReportsIsFlatten(rules[..|rules| - 1]);
    }
  }

  function Recording(key: CNPPort): Occurrence -> seq<Restriction> {
    (o: Occurrence) => if o.key == key then [Restriction(key.port, o.allowed)] else []
  }

  lemma {:induction false} AtIsFlatten(occurrences: seq<Occurrence>, key: CNPPort)
    ensures At(occurrences, key) == Flatten(Recording(key), occurrences)
  {
    if occurrences != [] {
      AtIsFlatten(occurrences[..|occurrences| - 1], key);
    }
  }

  /** Only Allow rules count for the Allow half. */
  lemma OnlyAllowMatters(rules: seq<CNPRule>)
    ensures AllowRules(rules) == AllowRules(Only(rules, Allow))
    ensures AllowReports(rules) == AllowReports(Only(rules, Allow))
  {
    AllowIsFlatten(rules);
    AllowIsFlatten(Only(rules, Allow));
    FlattenFiltered(Allowing, Kept(Allow), rules);
    FlattenFiltered(AllowReporting, Kept(Allow), rules);
  }

  /** Only Deny rules count for the Deny half, and their order does not. */
  lemma DenyPermute(a: seq<CNPRule>, b: seq<CNPRule>)
    requires multiset(Only(a, Deny)) == multiset(Only(b, Deny))
    ensures multiset(Occurrences(a)) == multiset(Occurrences(b))
    ensures multiset(ShapeReports(a)) == multiset(ShapeReports(b))
  {
    OccurrencesIsFlatten(a);
    OccurrencesIsFlatten(b);
    ShapeReportsIsFlatten(a);
    ShapeReportsIsFlatten(b);
    FlattenFiltered(RuleOccurrences, Kept(Deny), a);
    FlattenFiltered(RuleOccurrences, Kept(Deny), b);
    FlattenFiltered(RuleReports, Kept(Deny), a);
    FlattenFiltered(RuleReports, Kept(Deny), b);
    FlattenPermute(RuleOccurrences, Only(a, Deny), Only(b, Deny));
    FlattenPermute(RuleReports, Only(a, Deny), Only(b, Deny));
  }

  lemma AtPermute(a: seq<Occurrence>, b: seq<Occurrence>, key: CNPPort)
    requires multiset(a) == multiset(b)
    ensures multiset(At(a, key)) == multiset(At(b, key))
  {
    AtIsFlatten(a, key);
    AtIsFlatten(b, key);
    FlattenPermute(Recording(key), a, b);
  }

  lemma SameSole(a: seq<Occurrence>, b: seq<Occurrence>, protocol: string, r: Restriction)
    requires multiset(a) == multiset(b) && SoleIn(a, protocol, r)
    ensures SoleIn(b, protocol, r)
  {
    var key := CNPPort(protocol, r.port);
    AtPermute(a, b, key);
    assert |multiset(At(b, key))| == 1;
    var x := At(b, key)[0];
    assert At(b, key) == [x] && x in multiset(At(b, key));
    assert x in multiset([r]);
  }

  lemma RestrictionsPermute(a: seq<CNPRule>, b: seq<CNPRule>, protocol: string)
    requires multiset(Occurrences(a)) == multiset(Occurrences(b))
    ensures Restrictions(a, protocol) == Restrictions(b, protocol)
  {
    RestrictionsSpec(a, protocol);
    RestrictionsSpec(b, protocol);
    forall r ensures r in Restrictions(a, protocol) <==> r in Restrictions(b, protocol) {
      if SoleIn(Occurrences(a), protocol, r) {
        SameSole(Occurrences(a), Occurrences(b), protocol, r);
      }
      if SoleIn(Occurrences(b), protocol, r) {
        SameSole(Occurrences(b), Occurrences(a), protocol, r);
      }
    }
    AscendingUnique(Restrictions(a, protocol), Restrictions(b, protocol));
  }

  lemma ConflictsPermute(a: seq<Occurrence>, b: seq<Occurrence>)
    requires multiset(a) == multiset(b)
    ensures Conflicts(a) == Conflicts(b)
  {
    forall key ensures key in Conflicts(a) <==> key in Conflicts(b) {
      AtPermute(a, b, key);
      AtMembers(a, key);
      AtMembers(b, key);
      assert |At(a, key)| == |multiset(At(a, key))| && |At(b, key)| == |multiset(At(b, key))|;
    }
  }

  /** The translation is canonical: however the Deny rules are permuted, among themselves and around
      the Allow rules, the NetworkPolicy is identical and the reports are the same ones. Together with
      the contract of TranslateClusterNetworkPolicy, which fixes both for every map iteration order,
      equal policies never look changed to the controller.
   */
  lemma TranslationCanonical(cnp: ClusterNetworkPolicy, ingress: seq<CNPRule>, namespace: string)
    requires Only(ingress, Allow) == Only(cnp.ingress, Allow)
    requires multiset(Only(ingress, Deny)) == multiset(Only(cnp.ingress, Deny))
    ensures Translation(cnp.(ingress := ingress), namespace) == Translation(cnp, namespace)
    ensures Reports(cnp.(ingress := ingress)) == Reports(cnp)
  {
    OnlyAllowMatters(ingress);
    OnlyAllowMatters(cnp.ingress);
    DenyPermute(ingress, cnp.ingress);
    RestrictionsPermute(ingress, cnp.ingress, TCP);
    RestrictionsPermute(ingress, cnp.ingress, UDP);
    ConflictsPermute(Occurrences(ingress), Occurrences(cnp.ingress));
  }

  lemma OnlyWithout(before: seq<CNPRule>, rule: CNPRule, after: seq<CNPRule>, action: Action)
    requires rule.action != action
    ensures Only(before + [rule] + after, action) == Only(before + after, action)
  {
    FlattenConcat(Kept(action), before + [rule], after);
    FlattenLast(Kept(action), before, rule);
    FlattenConcat(Kept(action), before, after);
    assert Only(before, action) + [] == Only(before, action);
  }

  /** A rule whose action is neither Allow nor Deny changes neither the policy nor the reports. */
  lemma OtherActionsIgnored(cnp: ClusterNetworkPolicy, i: int, namespace: string)
    requires 0 <= i < |cnp.ingress| && cnp.ingress[i].action.Other?
    ensures
      var without := cnp.(ingress := cnp.ingress[..i] + cnp.ingress[i + 1..]);
      Translation(without, namespace) == Translation(cnp, namespace) && Reports(without) == Reports(cnp)
  {
    var before, rule, after := cnp.ingress[..i], cnp.ingress[i], cnp.ingress[i + 1..];
    assert cnp.ingress == before + [rule] + after;
    OnlyWithout(before, rule, after, Allow);
    OnlyWithout(before, rule, after, Deny);
    TranslationCanonical(cnp, before + after, namespace);
  }
}
