/** The compiler from ClusterNetworkPolicy, which has Deny rules, to the standard NetworkPolicy,
    which only has an allow-list (internal/agent/clusternetworkpolicy.go).

    Each loop of the program is a method here, proved equal to a function on sequences; the
    functions recurse from the end of a sequence, the way the loops extend their prefixes. Go's
    unordered map iteration is a `:|` choice, so a method equal to a function is a method whose
    result the iteration order cannot change.
 */
module ClusterNetworkPolicies {
  import opened Kube
  import opened NetworkPolicies
  import opened Wrappers
  import Sorting

  const MANAGED_BY_LABEL_KEY := "app.kubernetes.io/managed-by"
  const MANAGED_BY_LABEL_VALUE := "fjord"
  const MIN_PORT: Int32 := 1
  const MAX_PORT: Int32 := 65535
  const TCP := "TCP"
  const UDP := "UDP"

  datatype Action = Allow | Deny | Other(text: string)

  datatype CNPPeer = CNPPeer(namespaces: Option<LabelSelector>)

  datatype CNPPort = CNPPort(protocol: string, port: Int32)

  datatype CNPRule = CNPRule(name: string, action: Action, from: seq<CNPPeer>, ports: seq<CNPPort>)

  datatype CNPSubject = CNPSubject(namespaces: Option<LabelSelector>, pods: Option<LabelSelector>)

  datatype ClusterNetworkPolicy = ClusterNetworkPolicy(
    name: string, subject: CNPSubject, ingress: seq<CNPRule>, egress: seq<CNPRule>)

  datatype Reason =
    | PodSubject
    | EgressRule
    | PeerWithoutNamespaces
    | SeveralDenyPeers
    | DenyPeerShape
    | UnsupportedProtocol(protocol: string)
    | RestrictedTwice(key: CNPPort)

  datatype Unsupported = Unsupported(rule: string, reason: Reason)

  /** One port a Deny rule closes and the peer that may still reach it. */
  datatype Restriction = Restriction(port: Int32, allowed: Option<NetworkPolicyPeer>)

  function NetworkPolicyName(cnpName: string): string {
    "fjord-cnp-" + cnpName
  }

  predicate IsTranslatableProtocol(p: string) {
    p == TCP || p == UDP
  }

  // ---------------------------------------------------------------- Allow rules

  function TranslatePeers(peers: seq<CNPPeer>): seq<NetworkPolicyPeer> {
    if peers == [] then [] else
      var last := peers[|peers| - 1];
      TranslatePeers(peers[..|peers| - 1])
      + if last.namespaces.Some? then [NetworkPolicyPeer(last.namespaces.value)] else []
  }

  function PeerReports(peers: seq<CNPPeer>, rule: string): seq<Unsupported> {
    if peers == [] then [] else
      PeerReports(peers[..|peers| - 1], rule)
      + if peers[|peers| - 1].namespaces.None? then [Unsupported(rule, PeerWithoutNamespaces)] else []
  }

  function TranslatePort(p: CNPPort): NetworkPolicyPort {
    NetworkPolicyPort(p.protocol, p.port, None)
  }

  function TranslatePorts(ports: seq<CNPPort>): seq<NetworkPolicyPort> {
    seq(|ports|, i requires 0 <= i < |ports| => TranslatePort(ports[i]))
  }

  function AllowRule(rule: CNPRule): IngressRule {
    IngressRule(TranslatePeers(rule.from), TranslatePorts(rule.ports))
  }

  function AllowRules(rules: seq<CNPRule>): seq<IngressRule> {
    if rules == [] then [] else
      var last := rules[|rules| - 1];
      AllowRules(rules[..|rules| - 1]) + if last.action == Allow then [AllowRule(last)] else []
  }

  function AllowReports(rules: seq<CNPRule>): seq<Unsupported> {
    if rules == [] then [] else
      var last := rules[|rules| - 1];
      AllowReports(rules[..|rules| - 1])
      + if last.action == Allow then PeerReports(last.from, last.name) else []
  }

  method TranslateAllowRule(rule: CNPRule) returns (ingress: IngressRule, unsupported: seq<Unsupported>)
    ensures ingress == AllowRule(rule)
    ensures unsupported == PeerReports(rule.from, rule.name)
  {
    var from := [];
    unsupported := [];
    for i := 0 to |rule.from|
      invariant from == TranslatePeers(rule.from[..i])
      invariant unsupported == PeerReports(rule.from[..i], rule.name)
    {
      var peer := rule.from[i];
      assert rule.from[..i + 1][..i] == rule.from[..i];
      if peer.namespaces.None? {
        unsupported := unsupported + [Unsupported(rule.name, PeerWithoutNamespaces)];
        continue;
      }
      from := from + [NetworkPolicyPeer(peer.namespaces.value)];
    }
    assert rule.from[..|rule.from|] == rule.from;

    var ports := [];
    for i := 0 to |rule.ports|
      invariant |ports| == i && forall j | 0 <= j < i :: ports[j] == TranslatePort(rule.ports[j])
    {
      ports := ports + [NetworkPolicyPort(rule.ports[i].protocol, rule.ports[i].port, None)];
    }
    ingress := IngressRule(from, ports);
  }

  // ---------------------------------------------------------------- Deny rules

  datatype DenyShape = Supported(allowed: Option<NetworkPolicyPeer>) | Rejected(reason: Reason)

  /** The peer a Deny rule leaves through, or why the rule's `from` has no complement fjord can express. */
  function DenyAllowedPeer(rule: CNPRule): DenyShape {
    if |rule.from| == 0 then Supported(None)
    else if |rule.from| != 1 then Rejected(SeveralDenyPeers)
    else
      var sel := rule.from[0].namespaces;
      if sel.None? || |sel.value.matchLabels| != 0 || |sel.value.matchExpressions| != 1 then Rejected(DenyPeerShape)
      else
        var expr := sel.value.matchExpressions[0];
        if expr.operator != NotIn || |expr.values| == 0 then Rejected(DenyPeerShape)
        else Supported(Some(NetworkPolicyPeer(LabelSelector(map[], [Requirement(expr.key, In, expr.values)]))))
  }

  /** A port of a translatable Deny rule, with the peer that rule lets through. */
  datatype Occurrence = Occurrence(key: CNPPort, allowed: Option<NetworkPolicyPeer>)

  function PortOccurrences(ports: seq<CNPPort>, allowed: Option<NetworkPolicyPeer>): seq<Occurrence> {
    if ports == [] then [] else
      var last := ports[|ports| - 1];
      PortOccurrences(ports[..|ports| - 1], allowed)
      + if IsTranslatableProtocol(last.protocol) then [Occurrence(last, allowed)] else []
  }

  function PortReports(ports: seq<CNPPort>, rule: string): seq<Unsupported> {
    if ports == [] then [] else
      var last := ports[|ports| - 1];
      PortReports(ports[..|ports| - 1], rule)
      + if IsTranslatableProtocol(last.protocol) then [] else [Unsupported(rule, UnsupportedProtocol(last.protocol))]
  }

  function RuleOccurrences(rule: CNPRule): seq<Occurrence> {
    var shape := DenyAllowedPeer(rule);
    if rule.action == Deny && shape.Supported? then PortOccurrences(rule.ports, shape.allowed) else []
  }

  function RuleReports(rule: CNPRule): seq<Unsupported> {
    if rule.action != Deny then []
    else
      match DenyAllowedPeer(rule)
      case Rejected(reason) => [Unsupported(rule.name, reason)]
      case Supported(_) => PortReports(rule.ports, rule.name)
  }

  function Occurrences(rules: seq<CNPRule>): seq<Occurrence> {
    if rules == [] then [] else Occurrences(rules[..|rules| - 1]) + RuleOccurrences(rules[|rules| - 1])
  }

  function ShapeReports(rules: seq<CNPRule>): seq<Unsupported> {
    if rules == [] then [] else ShapeReports(rules[..|rules| - 1]) + RuleReports(rules[|rules| - 1])
  }

  /** The restrictions recorded for one protocol and port, in order of occurrence. */
  function At(occurrences: seq<Occurrence>, key: CNPPort): seq<Restriction> {
    if occurrences == [] then [] else
      var last := occurrences[|occurrences| - 1];
      At(occurrences[..|occurrences| - 1], key)
      + if last.key == key then [Restriction(key.port, last.allowed)] else []
  }

  function ConflictReport(key: CNPPort): Unsupported {
    Unsupported("", RestrictedTwice(key))
  }

  /** The protocol/port pairs more than one Deny occurrence claims, one report each. */
  ghost function Conflicts(occurrences: seq<Occurrence>): set<CNPPort> {
    set o | o in occurrences && |At(occurrences, o.key)| > 1 :: o.key
  }

  ghost function ConflictReports(occurrences: seq<Occurrence>): multiset<Unsupported> {
    multiset(set key | key in Conflicts(occurrences) :: ConflictReport(key))
  }

  predicate Ascending(rs: seq<Restriction>) {
    forall i, j | 0 <= i < j < |rs| :: rs[i].port < rs[j].port
  }

  predicate PortLess(a: Restriction, b: Restriction) {
    a.port < b.port
  }

  function InsertByPort(r: Restriction, rs: seq<Restriction>): seq<Restriction> {
    Sorting.Insert(PortLess, rs, r)
  }

  /** The occurrences of `protocol` among `some` that `every` records once, by ascending port. */
  function Sole(some: seq<Occurrence>, every: seq<Occurrence>, protocol: string): seq<Restriction> {
    if some == [] then [] else
      var last := some[|some| - 1];
      var rest := Sole(some[..|some| - 1], every, protocol);
      if last.key.protocol == protocol && |At(every, last.key)| == 1
      then InsertByPort(Restriction(last.key.port, last.allowed), rest) else rest
  }

  /** The restrictions that survive, for one protocol, by ascending port. */
  function Restrictions(rules: seq<CNPRule>, protocol: string): seq<Restriction> {
    Sole(Occurrences(rules), Occurrences(rules), protocol)
  }

  // ---- members and order of Sole

  lemma InsertMember(r: Restriction, rs: seq<Restriction>)
    ensures forall x :: x in InsertByPort(r, rs) <==> x == r || x in rs
  {
    Sorting.InsertMembers(PortLess, rs, r);
    var inserted := InsertByPort(r, rs);
    assert forall x :: x in inserted <==> x in multiset(inserted);
    assert forall x :: x in rs <==> x in multiset(rs);
  }

  lemma {:induction false} InsertAscending(r: Restriction, rs: seq<Restriction>)
    requires Ascending(rs) && forall x | x in rs :: x.port != r.port
    ensures Ascending(InsertByPort(r, rs))
    ensures forall x :: x in InsertByPort(r, rs) <==> x == r || x in rs
  {
    InsertMember(r, rs);
    if rs != [] {
      var front, last := rs[..|rs| - 1], rs[|rs| - 1];
      assert last in rs;
      if r.port < last.port {
        assert forall x | x in front :: x in rs;
        InsertAscending(r, front);
        var inserted := InsertByPort(r, front);
        assert InsertByPort(r, rs) == inserted + [last];
        forall i | 0 <= i < |inserted| ensures inserted[i].port < last.port {
          assert inserted[i] in inserted;
        }
      } else {
        assert InsertByPort(r, rs) == rs + [r];
      }
    }
  }

  /** A key is recorded somewhere exactly when some occurrence carries it. */
  lemma {:induction false} AtMembers(occurrences: seq<Occurrence>, key: CNPPort)
    ensures forall r :: r in At(occurrences, key) <==> r.port == key.port && Occurrence(key, r.allowed) in occurrences
    ensures At(occurrences, key) != [] <==> exists o | o in occurrences :: o.key == key
  {
    if occurrences != [] {
      var front, last := occurrences[..|occurrences| - 1], occurrences[|occurrences| - 1];
      assert occurrences == front + [last];
      AtMembers(front, key);
      assert At(occurrences, key) == At(front, key) + if last.key == key then [Restriction(key.port, last.allowed)] else [];
      if last.key == key {
        assert last in occurrences && last == Occurrence(key, last.allowed);
      }
    }
  }

  lemma {:induction false} AtConcat(a: seq<Occurrence>, b: seq<Occurrence>, key: CNPPort)
    ensures At(a + b, key) == At(a, key) + At(b, key)
  {
    if b == [] {
      assert a + b == a;
    } else {
      var front, last := b[..|b| - 1], b[|b| - 1];
      AtConcat(a, front, key);
      assert (a + b)[..|a + b| - 1] == a + front;
    }
  }

  ghost predicate SoleIn(occurrences: seq<Occurrence>, protocol: string, r: Restriction) {
    At(occurrences, CNPPort(protocol, r.port)) == [r]
  }

  lemma {:induction false} SoleSpec(some: seq<Occurrence>, every: seq<Occurrence>, protocol: string)
    requires some <= every
    ensures Ascending(Sole(some, every, protocol))
    ensures forall r :: r in Sole(some, every, protocol)
                    <==> Occurrence(CNPPort(protocol, r.port), r.allowed) in some && SoleIn(every, protocol, r)
  {
    if some != [] {
      var front, last := some[..|some| - 1], some[|some| - 1];
      assert some == front + [last];
      SoleSpec(front, every, protocol);
      var rest := Sole(front, every, protocol);
      var r := Restriction(last.key.port, last.allowed);
      AtMembers(every, last.key);
      assert every == front + ([last] + every[|some|..]);
      assert last in every;
      if last.key.protocol == protocol && |At(every, last.key)| == 1 {
        assert last.key == CNPPort(protocol, r.port);
        assert r in At(every, last.key);
        assert At(every, last.key) == [r];
        AtConcat(front, [last] + every[|some|..], last.key);
        AtConcat([last], every[|some|..], last.key);
        assert At([last], last.key) == [r] by {
          assert [last][..0] == [];
        }
        AtMembers(front, last.key);
        assert forall o | o in front :: o.key != last.key;
        forall x | x in rest ensures x.port != r.port {
          assert Occurrence(CNPPort(protocol, x.port), x.allowed) in front;
        }
        InsertAscending(r, rest);
      } else if last.key.protocol == protocol {
        forall x | SoleIn(every, protocol, x) ensures last != Occurrence(CNPPort(protocol, x.port), x.allowed) {
        }
      }
    }
  }

  lemma RestrictionsSpec(rules: seq<CNPRule>, protocol: string)
    ensures Ascending(Restrictions(rules, protocol))
    ensures forall r :: r in Restrictions(rules, protocol) <==> SoleIn(Occurrences(rules), protocol, r)
  {
    var occurrences := Occurrences(rules);
    SoleSpec(occurrences, occurrences, protocol);
    forall r | SoleIn(occurrences, protocol, r)
      ensures Occurrence(CNPPort(protocol, r.port), r.allowed) in occurrences
    {
      AtMembers(occurrences, CNPPort(protocol, r.port));
      assert r in At(occurrences, CNPPort(protocol, r.port));
    }
  }

  /** Ascending lists with the same members end alike. */
  lemma SameLast(a: seq<Restriction>, b: seq<Restriction>)
    requires Ascending(a) && Ascending(b) && a != [] && b != []
    requires forall r :: r in a <==> r in b
    ensures a[|a| - 1] == b[|b| - 1]
  {
    var x, y := a[|a| - 1], b[|b| - 1];
    assert x in b && y in a;
    var i :| 0 <= i < |b| && b[i] == x;
    var j :| 0 <= j < |a| && a[j] == y;
  }

  /** The last member of an ascending list occurs once. */
  lemma DropLastMembers(a: seq<Restriction>)
    requires Ascending(a) && a != []
    ensures Ascending(a[..|a| - 1])
    ensures forall r :: r in a[..|a| - 1] <==> r in a && r != a[|a| - 1]
  {
    assert a == a[..|a| - 1] + [a[|a| - 1]];
  }

  lemma FirstIsMember(a: seq<Restriction>)
    requires a != []
    ensures a[0] in a
  {
  }

  /** An ascending list is determined by its members. */
  lemma {:induction false} AscendingUnique(a: seq<Restriction>, b: seq<Restriction>)
    requires Ascending(a) && Ascending(b)
    requires forall r :: r in a <==> r in b
    ensures a == b
  {
    if a == [] && b != [] {
      FirstIsMember(b);
      assert false;
    } else if b == [] && a != [] {
      FirstIsMember(a);
      assert false;
    } else if a != [] {
      SameLast(a, b);
      DropLastMembers(a);
      DropLastMembers(b);
      var fa, fb := a[..|a| - 1], b[..|b| - 1];
      forall r: Restriction ensures r in fa <==> r in fb {
        assert r in fa <==> r in a && r != a[|a| - 1];
        assert r in fb <==> r in b && r != b[|b| - 1];
      }
      AscendingUnique(fa, fb);
      assert a == fa + [a[|a| - 1]] && b == fb + [b[|b| - 1]];
    }
  }

  /** slices.SortFunc by port, called where no port repeats. */
  method SortByPort(rs: seq<Restriction>) returns (sorted: seq<Restriction>)
    requires forall i, j | 0 <= i < j < |rs| :: rs[i].port != rs[j].port
    ensures Ascending(sorted)
    ensures forall r :: r in sorted <==> r in rs
  {
    sorted := [];
    for i := 0 to |rs|
      invariant Ascending(sorted)
      invariant forall r :: r in sorted <==> r in rs[..i]
    {
      InsertAscending(rs[i], sorted);
      sorted := InsertByPort(rs[i], sorted);
    }
  }

  /** `byPort` groups the occurrences by protocol and port. */
  ghost predicate Groups(byPort: map<CNPPort, seq<Restriction>>, occurrences: seq<Occurrence>) {
    && (forall key :: key in byPort <==> At(occurrences, key) != [])
    && (forall key | key in byPort :: byPort[key] == At(occurrences, key))
  }

  /** byPort[key] = append(byPort[key], restriction) */
  function Record(byPort: map<CNPPort, seq<Restriction>>, o: Occurrence): map<CNPPort, seq<Restriction>> {
    byPort[o.key := (if o.key in byPort then byPort[o.key] else []) + [Restriction(o.key.port, o.allowed)]]
  }

  lemma GroupsExtend(byPort: map<CNPPort, seq<Restriction>>, occurrences: seq<Occurrence>, o: Occurrence)
    requires Groups(byPort, occurrences)
    ensures Groups(Record(byPort, o), occurrences + [o])
  {
    assert (occurrences + [o])[..|occurrences|] == occurrences;
  }

  /** The loop over the ports of one translatable Deny rule. */
  method GroupRulePorts(rule: CNPRule, allowed: Option<NetworkPolicyPeer>,
                        grouped: map<CNPPort, seq<Restriction>>, ghost before: seq<Occurrence>)
    returns (byPort: map<CNPPort, seq<Restriction>>, unsupported: seq<Unsupported>)
    requires Groups(grouped, before)
    ensures Groups(byPort, before + PortOccurrences(rule.ports, allowed))
    ensures unsupported == PortReports(rule.ports, rule.name)
  {
    byPort, unsupported := grouped, [];
    ghost var all := before;
    for j := 0 to |rule.ports|
      invariant all == before + PortOccurrences(rule.ports[..j], allowed)
      invariant Groups(byPort, all)
      invariant unsupported == PortReports(rule.ports[..j], rule.name)
    {
      var key := rule.ports[j];
      assert rule.ports[..j + 1][..j] == rule.ports[..j];
      if !IsTranslatableProtocol(key.protocol) {
        unsupported := unsupported + [Unsupported(rule.name, UnsupportedProtocol(key.protocol))];
        continue;
      }
      var o := Occurrence(key, allowed);
      GroupsExtend(byPort, all, o);
      all := all + [o];
      byPort := Record(byPort, o);
    }
    assert rule.ports[..|rule.ports|] == rule.ports;
  }

  /** The first half of restrictedPorts: the loop over the Deny rules. */
  method GroupDenyPorts(rules: seq<CNPRule>)
    returns (byPort: map<CNPPort, seq<Restriction>>, unsupported: seq<Unsupported>)
    ensures Groups(byPort, Occurrences(rules))
    ensures unsupported == ShapeReports(rules)
  {
    byPort, unsupported := map[], [];
    for i := 0 to |rules|
      invariant Groups(byPort, Occurrences(rules[..i]))
      invariant unsupported == ShapeReports(rules[..i])
    {
      var rule := rules[i];
      assert rules[..i + 1][..i] == rules[..i];
      ghost var before := Occurrences(rules[..i]);
      assert before + [] == before && unsupported + [] == unsupported;
      if rule.action != Deny {
        continue;
      }
      var shape := DenyAllowedPeer(rule);
      if shape.Rejected? {
        unsupported := unsupported + [Unsupported(rule.name, shape.reason)];
        continue;
      }
      var reports;
      byPort, reports := GroupRulePorts(rule, shape.allowed, byPort, before);
      unsupported := unsupported + reports;
    }
    assert rules[..|rules|] == rules;
  }

  /** Go's lookup in a map of slices: a missing key is a nil slice. */
  function Of(restricted: map<string, seq<Restriction>>, protocol: string): seq<Restriction> {
    if protocol in restricted then restricted[protocol] else []
  }

  predicate NoPortTwice(rs: seq<Restriction>) {
    forall i, j | 0 <= i < j < |rs| :: rs[i].port != rs[j].port
  }

  /** What the second loop of restrictedPorts has gathered once `done` keys are visited. */
  ghost predicate Gathered(restricted: map<string, seq<Restriction>>, occurrences: seq<Occurrence>, done: set<CNPPort>) {
    && (forall p | p in restricted :: restricted[p] != [])
    && (forall p, r :: r in Of(restricted, p) <==> CNPPort(p, r.port) in done && SoleIn(occurrences, p, r))
    && (forall p :: NoPortTwice(Of(restricted, p)))
  }

  lemma GatherOne(restricted: map<string, seq<Restriction>>, occurrences: seq<Occurrence>, done: set<CNPPort>,
                  key: CNPPort, r: Restriction)
    requires Gathered(restricted, occurrences, done) && key !in done
    requires r.port == key.port && SoleIn(occurrences, key.protocol, r)
    ensures Gathered(restricted[key.protocol := Of(restricted, key.protocol) + [r]], occurrences, done + {key})
  {
    var prior := Of(restricted, key.protocol);
    var next := restricted[key.protocol := prior + [r]];
    forall p: string, x: Restriction
      ensures x in Of(next, p) <==> CNPPort(p, x.port) in done + {key} && SoleIn(occurrences, p, x)
    {
      if p == key.protocol {
        assert x in Of(next, p) <==> x in prior || x == r;
        if x.port == key.port && SoleIn(occurrences, p, x) {
          assert x == [x][0] == [r][0];
        }
      } else {
        assert Of(next, p) == Of(restricted, p);
      }
    }
    forall p ensures NoPortTwice(Of(next, p)) {
      if p == key.protocol {
        forall i | 0 <= i < |prior| ensures prior[i].port != r.port {
          assert prior[i] in prior;
        }
      } else {
        assert Of(next, p) == Of(restricted, p);
      }
    }
  }

  /** The loop over `byPort`, in whatever order the map yields its keys. */
  method GatherSoleRestrictions(byPort: map<CNPPort, seq<Restriction>>, ghost occurrences: seq<Occurrence>)
    returns (restricted: map<string, seq<Restriction>>, unsupported: seq<Unsupported>)
    requires Groups(byPort, occurrences)
    ensures Gathered(restricted, occurrences, byPort.Keys)
    ensures multiset(unsupported) == ConflictReports(occurrences)
  {
    restricted, unsupported := map[], [];
    var todo := byPort.Keys;
    ghost var conflicts: set<CNPPort> := {};
    while todo != {}
      invariant todo <= byPort.Keys
      invariant Gathered(restricted, occurrences, byPort.Keys - todo)
      invariant conflicts == set key | key in byPort.Keys - todo && |byPort[key]| > 1
      invariant multiset(unsupported) == multiset(set key | key in conflicts :: ConflictReport(key))
    {
      var key :| key in todo;
      var rs := byPort[key];
      ghost var done := byPort.Keys - todo;
      todo := todo - {key};
      assert byPort.Keys - todo == done + {key};
      if |rs| > 1 {
        AddConflict(conflicts, key);
        conflicts := conflicts + {key};
        unsupported := unsupported + [ConflictReport(key)];
        GatherNone(restricted, occurrences, done, key);
        continue;
      }
      SoleAt(occurrences, key);
      GatherOne(restricted, occurrences, done, key, rs[0]);
      restricted := restricted[key.protocol := Of(restricted, key.protocol) + [rs[0]]];
    }
    assert byPort.Keys - todo == byPort.Keys;
    forall key ensures key in conflicts <==> key in Conflicts(occurrences) {
      AtMembers(occurrences, key);
    }
    assert conflicts == Conflicts(occurrences);
  }

  lemma AddConflict(conflicts: set<CNPPort>, key: CNPPort)
    requires key !in conflicts
    ensures multiset(set k | k in conflicts + {key} :: ConflictReport(k))
         == multiset(set k | k in conflicts :: ConflictReport(k)) + multiset{ConflictReport(key)}
  {
    var reports := set k | k in conflicts :: ConflictReport(k);
    assert ConflictReport(key) !in reports;
    assert (set k | k in conflicts + {key} :: ConflictReport(k)) == reports + {ConflictReport(key)};
  }

  /** A key claimed more than once is nobody's sole restriction. */
  lemma GatherNone(restricted: map<string, seq<Restriction>>, occurrences: seq<Occurrence>, done: set<CNPPort>, key: CNPPort)
    requires Gathered(restricted, occurrences, done) && |At(occurrences, key)| > 1
    ensures Gathered(restricted, occurrences, done + {key})
  {
    forall p: string, r: Restriction | CNPPort(p, r.port) == key ensures !SoleIn(occurrences, p, r) {
      assert |[r]| == 1;
    }
  }

  lemma SoleAt(occurrences: seq<Occurrence>, key: CNPPort)
    requires |At(occurrences, key)| == 1
    ensures At(occurrences, key)[0].port == key.port
    ensures SoleIn(occurrences, key.protocol, At(occurrences, key)[0])
  {
    AtMembers(occurrences, key);
    var rs := At(occurrences, key);
    assert rs[0] in rs;
    assert rs == [rs[0]];
    assert CNPPort(key.protocol, rs[0].port) == key;
  }

  /** The gathered restrictions of a protocol are its sole ones, so sorted they are that list. */
  lemma SortedSole(sorted: seq<Restriction>, occurrences: seq<Occurrence>, keys: set<CNPPort>, p: string)
    requires Ascending(sorted)
    requires forall r :: r in sorted <==> CNPPort(p, r.port) in keys && SoleIn(occurrences, p, r)
    requires forall key :: key in keys <==> At(occurrences, key) != []
    ensures sorted == Sole(occurrences, occurrences, p)
  {
    SoleSpec(occurrences, occurrences, p);
    forall r ensures r in sorted <==> r in Sole(occurrences, occurrences, p) {
      AtMembers(occurrences, CNPPort(p, r.port));
      if SoleIn(occurrences, p, r) {
        assert r in At(occurrences, CNPPort(p, r.port));
      }
    }
    AscendingUnique(sorted, Sole(occurrences, occurrences, p));
  }

  method SortProtocol(gathered: seq<Restriction>, ghost occurrences: seq<Occurrence>, ghost keys: set<CNPPort>, ghost p: string)
    returns (sorted: seq<Restriction>)
    requires gathered != [] && NoPortTwice(gathered)
    requires forall r :: r in gathered <==> CNPPort(p, r.port) in keys && SoleIn(occurrences, p, r)
    requires forall key :: key in keys <==> At(occurrences, key) != []
    ensures sorted == Sole(occurrences, occurrences, p) != []
  {
    sorted := SortByPort(gathered);
    assert gathered[0] in sorted;
    SortedSole(sorted, occurrences, keys, p);
  }

  /** The last loop of restrictedPorts, over the protocols in whatever order. */
  method SortRestrictions(gathered: map<string, seq<Restriction>>, ghost occurrences: seq<Occurrence>, ghost keys: set<CNPPort>)
    returns (restricted: map<string, seq<Restriction>>)
    requires Gathered(gathered, occurrences, keys)
    requires forall key :: key in keys <==> At(occurrences, key) != []
    ensures restricted.Keys == gathered.Keys
    ensures forall p | p in restricted :: restricted[p] == Sole(occurrences, occurrences, p) != []
  {
    restricted := gathered;
    var todo := restricted.Keys;
    while todo != {}
      invariant restricted.Keys == gathered.Keys && todo <= gathered.Keys
      invariant forall p | p in todo :: restricted[p] == Of(gathered, p)
      invariant forall p | p in gathered && p !in todo :: restricted[p] == Sole(occurrences, occurrences, p) != []
    {
      var p :| p in todo;
      var sorted := SortProtocol(Of(gathered, p), occurrences, keys, p);
      restricted := restricted[p := sorted];
      todo := todo - {p};
    }
  }

  /** The second half of restrictedPorts: gather what only one Deny occurrence claims, then sort it
      by port, protocol by protocol.
   */
  method KeepSoleRestrictions(byPort: map<CNPPort, seq<Restriction>>, ghost occurrences: seq<Occurrence>)
    returns (restricted: map<string, seq<Restriction>>, unsupported: seq<Unsupported>)
    requires Groups(byPort, occurrences)
    ensures forall p | p in restricted :: restricted[p] != []
    ensures forall p :: Of(restricted, p) == Sole(occurrences, occurrences, p)
    ensures multiset(unsupported) == ConflictReports(occurrences)
  {
    var gathered, conflicts := GatherSoleRestrictions(byPort, occurrences);
    restricted := SortRestrictions(gathered, occurrences, byPort.Keys);
    forall p | p !in gathered ensures Sole(occurrences, occurrences, p) == [] {
      assert Of(gathered, p) == [];
      SortedSole([], occurrences, byPort.Keys, p);
    }
    unsupported := conflicts;
  }

  method RestrictedPorts(rules: seq<CNPRule>)
    returns (restricted: map<string, seq<Restriction>>, unsupported: seq<Unsupported>)
    ensures forall p | p in restricted :: restricted[p] != []
    ensures forall p :: Of(restricted, p) == Restrictions(rules, p)
    ensures multiset(unsupported) == multiset(ShapeReports(rules)) + ConflictReports(Occurrences(rules))
  {
    var byPort, shapes := GroupDenyPorts(rules);
    var kept, conflicts := KeepSoleRestrictions(byPort, Occurrences(rules));
    return kept, shapes + conflicts;
  }

  // ---------------------------------------------------------------- the allow-list half

  function PointRule(protocol: string, r: Restriction): IngressRule
    requires r.allowed.Some?
  {
    IngressRule([r.allowed.value], [NetworkPolicyPort(protocol, r.port, None)])
  }

  function ExceptionRules(protocol: string, rs: seq<Restriction>): seq<IngressRule> {
    if rs == [] then [] else
      var last := rs[|rs| - 1];
      ExceptionRules(protocol, rs[..|rs| - 1]) + if last.allowed.None? then [] else [PointRule(protocol, last)]
  }

  function OpenRule(protocol: string, start: Int32, end: Int32): IngressRule {
    IngressRule([NetworkPolicyPeer(EVERYTHING)],
                [NetworkPolicyPort(protocol, start, if end != start then Some(end) else None)])
  }

  /** The variable `next` of complementRulesForProtocol after the given restrictions. */
  function NextPort(rs: seq<Restriction>): Int32 {
    if rs == [] then MIN_PORT else Wrap(rs[|rs| - 1].port + 1)
  }

  function Gaps(protocol: string, rs: seq<Restriction>): seq<IngressRule> {
    if rs == [] then [] else
      var front, r := rs[..|rs| - 1], rs[|rs| - 1];
      Gaps(protocol, front)
      + if r.port > NextPort(front) then [OpenRule(protocol, NextPort(front), Wrap(r.port - 1))] else []
  }

  function Complement(protocol: string, rs: seq<Restriction>): seq<IngressRule> {
    Gaps(protocol, rs) + if NextPort(rs) <= MAX_PORT then [OpenRule(protocol, NextPort(rs), MAX_PORT)] else []
  }

  method ComplementRulesForProtocol(protocol: string, restrictions: seq<Restriction>) returns (rules: seq<IngressRule>)
    ensures rules == Complement(protocol, restrictions)
  {
    rules := [];
    var next := MIN_PORT;
    for i := 0 to |restrictions|
      invariant rules == Gaps(protocol, restrictions[..i]) && next == NextPort(restrictions[..i])
    {
      var r := restrictions[i];
      assert restrictions[..i + 1][..i] == restrictions[..i];
      if r.port > next {
        rules := rules + [OpenRule(protocol, next, Wrap(r.port - 1))];
      }
      next := Wrap(r.port + 1);
    }
    assert restrictions[..|restrictions|] == restrictions;
    if next <= MAX_PORT {
      rules := rules + [OpenRule(protocol, next, MAX_PORT)];
    }
  }

  method RestrictedAllowRules(restricted: map<string, seq<Restriction>>) returns (rules: seq<IngressRule>)
    ensures rules == ExceptionRules(TCP, Of(restricted, TCP)) + ExceptionRules(UDP, Of(restricted, UDP))
  {
    rules := [];
    var protocols := [TCP, UDP];
    for p := 0 to 2
      invariant p == 0 ==> rules == []
      invariant p == 1 ==> rules == ExceptionRules(TCP, Of(restricted, TCP))
      invariant p == 2 ==> rules == ExceptionRules(TCP, Of(restricted, TCP)) + ExceptionRules(UDP, Of(restricted, UDP))
    {
      var rs := Of(restricted, protocols[p]);
      ghost var before := rules;
      for i := 0 to |rs|
        invariant rules == before + ExceptionRules(protocols[p], rs[..i])
      {
        assert rs[..i + 1][..i] == rs[..i];
        if rs[i].allowed.None? {
          continue;
        }
        rules := rules + [PointRule(protocols[p], rs[i])];
      }
      assert rs[..|rs|] == rs;
    }
  }

  predicate HasAnyRestriction(restricted: map<string, seq<Restriction>>) {
    exists p | p in restricted :: |restricted[p]| > 0
  }

  method ComplementRules(restricted: map<string, seq<Restriction>>) returns (rules: seq<IngressRule>)
    ensures rules == if HasAnyRestriction(restricted)
                     then Complement(TCP, Of(restricted, TCP)) + Complement(UDP, Of(restricted, UDP)) else []
  {
    if !HasAnyRestriction(restricted) {
      return [];
    }
    var tcp := ComplementRulesForProtocol(TCP, Of(restricted, TCP));
    var udp := ComplementRulesForProtocol(UDP, Of(restricted, UDP));
    rules := tcp + udp;
  }

  // ---------------------------------------------------------------- the whole translation

  function IngressRules(rules: seq<CNPRule>): seq<IngressRule> {
    var tcp, udp := Restrictions(rules, TCP), Restrictions(rules, UDP);
    AllowRules(rules) + (ExceptionRules(TCP, tcp) + ExceptionRules(UDP, udp))
    + if tcp == [] && udp == [] then [] else Complement(TCP, tcp) + Complement(UDP, udp)
  }

  function Translation(cnp: ClusterNetworkPolicy, namespace: string): Option<NetworkPolicy> {
    var rules := IngressRules(cnp.ingress);
    if rules == [] then None
    else Some(NetworkPolicy(namespace, NetworkPolicyName(cnp.name),
                            map[MANAGED_BY_LABEL_KEY := MANAGED_BY_LABEL_VALUE], map[], [],
                            NetworkPolicySpec(EVERYTHING, ["Ingress"], rules)))
  }

  function EgressReports(rules: seq<CNPRule>): seq<Unsupported> {
    seq(|rules|, i requires 0 <= i < |rules| => Unsupported(rules[i].name, EgressRule))
  }

  /** Everything the translation reports as not enforced, each report as often as it is made. */
  ghost function Reports(cnp: ClusterNetworkPolicy): multiset<Unsupported> {
    (if cnp.subject.pods.Some? then multiset{Unsupported("", PodSubject)} else multiset{})
    + multiset(EgressReports(cnp.egress)) + multiset(AllowReports(cnp.ingress))
    + multiset(ShapeReports(cnp.ingress)) + ConflictReports(Occurrences(cnp.ingress))
  }

  /** Only TCP and UDP are ever restricted. */
  lemma OnlyTranslatable(rules: seq<CNPRule>, p: string)
    requires !IsTranslatableProtocol(p)
    ensures Restrictions(rules, p) == []
  {
    var rs := Restrictions(rules, p);
    RestrictionsSpec(rules, p);
    if rs != [] {
      assert rs[0] in rs;
      AtMembers(Occurrences(rules), CNPPort(p, rs[0].port));
      assert rs[0] in At(Occurrences(rules), CNPPort(p, rs[0].port));
      OccurrencesTranslatable(rules);
    }
  }

  lemma {:induction false} OccurrencesTranslatable(rules: seq<CNPRule>)
    ensures forall o | o in Occurrences(rules) :: IsTranslatableProtocol(o.key.protocol)
  {
    if rules != [] {
      OccurrencesTranslatable(rules[..|rules| - 1]);
      var last := rules[|rules| - 1];
      if DenyAllowedPeer(last).Supported? {
        PortsTranslatable(last.ports, DenyAllowedPeer(last).allowed);
      }
    }
  }

  lemma {:induction false} PortsTranslatable(ports: seq<CNPPort>, allowed: Option<NetworkPolicyPeer>)
    ensures forall o | o in PortOccurrences(ports, allowed) :: IsTranslatableProtocol(o.key.protocol)
  {
    if ports != [] {
      PortsTranslatable(ports[..|ports| - 1], allowed);
    }
  }

  method ReportEgress(rules: seq<CNPRule>) returns (unsupported: seq<Unsupported>)
    ensures unsupported == EgressReports(rules)
  {
    unsupported := [];
    for i := 0 to |rules|
      invariant |unsupported| == i && forall j | 0 <= j < i :: unsupported[j] == Unsupported(rules[j].name, EgressRule)
    {
      unsupported := unsupported + [Unsupported(rules[i].name, EgressRule)];
    }
  }

  method TranslateAllowRules(rules: seq<CNPRule>) returns (ingress: seq<IngressRule>, unsupported: seq<Unsupported>)
    ensures ingress == AllowRules(rules)
    ensures unsupported == AllowReports(rules)
  {
    unsupported, ingress := [], [];
    for i := 0 to |rules|
      invariant ingress == AllowRules(rules[..i])
      invariant unsupported == AllowReports(rules[..i])
    {
      assert rules[..i + 1][..i] == rules[..i];
      if rules[i].action != Allow {
        continue;
      }
      var rule, reports := TranslateAllowRule(rules[i]);
      unsupported := unsupported + reports;
      ingress := ingress + [rule];
    }
    assert rules[..|rules|] == rules;
  }

  method TranslateClusterNetworkPolicy(cnp: ClusterNetworkPolicy, namespace: string)
    returns (np: Option<NetworkPolicy>, unsupported: seq<Unsupported>)
    ensures np == Translation(cnp, namespace)
    ensures multiset(unsupported) == Reports(cnp)
  {
    var egressReports := ReportEgress(cnp.egress);
    var ingress, allowReports := TranslateAllowRules(cnp.ingress);
    var restricted, denyReports := RestrictedPorts(cnp.ingress);
    unsupported := (if cnp.subject.pods.Some? then [Unsupported("", PodSubject)] else [])
      + egressReports + allowReports + denyReports;

    var exceptions := RestrictedAllowRules(restricted);
    var open := ComplementRules(restricted);
    RestrictedSomewhere(cnp.ingress, restricted);
    ingress := ingress + exceptions + open;
    assert ingress == IngressRules(cnp.ingress);
    if |ingress| == 0 {
      return None, unsupported;
    }
    np := Some(NetworkPolicy(namespace, NetworkPolicyName(cnp.name),
                             map[MANAGED_BY_LABEL_KEY := MANAGED_BY_LABEL_VALUE], map[], [],
                             NetworkPolicySpec(EVERYTHING, ["Ingress"], ingress)));
  }

  lemma RestrictedSomewhere(rules: seq<CNPRule>, restricted: map<string, seq<Restriction>>)
    requires forall p | p in restricted :: restricted[p] != []
    requires forall p :: Of(restricted, p) == Restrictions(rules, p)
    ensures HasAnyRestriction(restricted) <==> Restrictions(rules, TCP) != [] || Restrictions(rules, UDP) != []
  {
    if p :| p in restricted && |restricted[p]| > 0 {
      assert Of(restricted, p) != [];
      if !IsTranslatableProtocol(p) {
        OnlyTranslatable(rules, p);
      }
    }
    assert Of(restricted, TCP) != [] ==> TCP in restricted;
    assert Of(restricted, UDP) != [] ==> UDP in restricted;
  }
}
