/** The exact limits of the translation: when the Deny half is enforced, when nothing is emitted, and
    which connections pass although they are denied.
 */
module ClusterNetworkPolicyLimits {
  import opened Kube
  import opened NetworkPolicies
  import opened ClusterNetworkPolicies
  import opened ClusterNetworkPolicyMeaning
  import opened Wrappers

  // ---------------------------------------------------------------- when the Deny half is enforced

  /** Every Deny rule fjord can translate names sources without labels. */
  lemma UnlabelledIsNamed(rule: CNPRule)
    requires Reversible(rule.from)
    ensures NamesSource(rule.from, map[])
  {
    if |rule.from| == 1 {
      assert rule.from == [rule.from[0]];
      assert rule.from[0] in rule.from;
    }
  }

  /** A protocol's restrictions are enforced on every valid port exactly when none of them survives
      at 2147483647, or none at a valid port.
   */
  lemma DenyEnforcedExactly(rules: seq<CNPRule>, protocol: string)
    requires IsTranslatableProtocol(protocol)
    ensures (forall t: Traffic | t.protocol == protocol && InDomain(t) :: Admits(DenyHalf(rules), t) <==> !Denied(rules, t))
            <==>
            (|| !Wraps(rules, protocol)
             || forall i, j | SoleDeny(rules, i, j) && rules[i].ports[j].protocol == protocol :: !(1 <= rules[i].ports[j].port <= 65535))
  {
    forall t: Traffic | t.protocol == protocol && InDomain(t)
      ensures Admits(DenyHalf(rules), t) <==> !Denied(rules, t) || Wraps(rules, protocol)
    {
      DenyHalfAdmits(rules, t);
    }
    if i, j :| SoleDeny(rules, i, j) && rules[i].ports[j].protocol == protocol && 1 <= rules[i].ports[j].port <= 65535 {
      var t := Traffic(map[], protocol, rules[i].ports[j].port);
      UnlabelledIsNamed(rules[i]);
      assert InDomain(t) && Denied(rules, t);
    }
  }

  /** Denying TCP ports 22 and 2147483647 to everyone leaves port 22 open. */
  lemma WrapReopens()
    ensures
      var rules := [CNPRule("deny", Deny, [], [CNPPort(TCP, 22), CNPPort(TCP, MAX_INT32)])];
      var t := Traffic(map[], TCP, 22);
      && Denied(rules, t) && !AllowedAsTranslated(rules, t)
      && Verdict(Translation(ClusterNetworkPolicy("p", CNPSubject(None, None), rules, []), "ns"), t)
  {
    var rules := [CNPRule("deny", Deny, [], [CNPPort(TCP, 22), CNPPort(TCP, MAX_INT32)])];
    var t := Traffic(map[], TCP, 22);
    assert SoleDeny(rules, 0, 0) && SoleDeny(rules, 0, 1);
    assert Denied(rules, t) && Wraps(rules, TCP);
    TranslationAdmits(ClusterNetworkPolicy("p", CNPSubject(None, None), rules, []), "ns", t);
  }

  // ---------------------------------------------------------------- when nothing is emitted, for valid ports

  /** Every port a surviving Deny occurrence names is a valid port number. */
  ghost predicate ValidSolePorts(rules: seq<CNPRule>) {
    forall i, j | SoleDeny(rules, i, j) :: 1 <= rules[i].ports[j].port <= 65535
  }

  /** A surviving Deny of the port makes no exception. */
  ghost predicate Closed(rules: seq<CNPRule>, protocol: string, port: Int32) {
    exists i, j :: SoleDeny(rules, i, j) && rules[i].ports[j] == CNPPort(protocol, port) && rules[i].from == []
  }

  ghost predicate ClosesEveryPort(rules: seq<CNPRule>) {
    forall protocol: string, port: Int32 | IsTranslatableProtocol(protocol) && 1 <= port <= 65535 :: Closed(rules, protocol, port)
  }

  lemma {:induction false} NoExceptionRules(protocol: string, rs: seq<Restriction>)
    ensures ExceptionRules(protocol, rs) == [] <==> forall r | r in rs :: r.allowed.None?
  {
    if rs != [] {
      var front, last := rs[..|rs| - 1], rs[|rs| - 1];
      assert forall r :: r in rs <==> r in front || r == last by {
        assert rs == front + [last];
      }
      NoExceptionRules(protocol, front);
    }
  }

  lemma NoComplement(protocol: string, rs: seq<Restriction>)
    requires Ascending(rs) && ValidPorts(rs)
    ensures Complement(protocol, rs) == [] <==> forall port | 1 <= port <= 65535 :: IsRestricted(rs, port)
  {
    ComplementExact(protocol, rs);
    var ranges := OpenRanges(rs);
    if ranges != [] {
      var range := ranges[0];
      assert range in ranges;
      assert Covers(ranges, range.start);
    }
  }

  lemma SurvivorWithoutException(rules: seq<CNPRule>, protocol: string, port: Int32)
    ensures Restriction(port, None) in Restrictions(rules, protocol) <==> Closed(rules, protocol, port)
  {
    SurvivorIsSole(rules, protocol, Restriction(port, None));
  }

  lemma ValidSurvivors(rules: seq<CNPRule>, protocol: string)
    requires ValidSolePorts(rules)
    ensures Ascending(Restrictions(rules, protocol)) && ValidPorts(Restrictions(rules, protocol))
  {
    RestrictionsSpec(rules, protocol);
    forall r | r in Restrictions(rules, protocol) ensures 1 <= r.port <= 65535 {
      SurvivorIsSole(rules, protocol, r);
    }
  }

  /** One protocol emits no rule exactly when its restrictions close every port to everyone. */
  lemma ProtocolEmpty(rules: seq<CNPRule>, protocol: string)
    requires ValidSolePorts(rules)
    ensures
      var rs := Restrictions(rules, protocol);
      ExceptionRules(protocol, rs) == [] && Complement(protocol, rs) == [] <==> ClosesProtocol(rules, protocol)
  {
    var rs := Restrictions(rules, protocol);
    ValidSurvivors(rules, protocol);
    NoExceptionRules(protocol, rs);
    NoComplement(protocol, rs);
    AllClosed(rs);
  }

  lemma AllClosed(rs: seq<Restriction>)
    requires Ascending(rs) && ValidPorts(rs)
    ensures (forall r | r in rs :: r.allowed.None?) && (forall port | 1 <= port <= 65535 :: IsRestricted(rs, port)) <==>
            forall port: Int32 | 1 <= port <= 65535 :: Restriction(port, None) in rs
  {
    if (forall r | r in rs :: r.allowed.None?) && (forall port | 1 <= port <= 65535 :: IsRestricted(rs, port)) {
      forall port: Int32 | 1 <= port <= 65535 ensures Restriction(port, None) in rs {
        assert IsRestricted(rs, port);
        var r :| r in rs && r.port == port;
        assert r == Restriction(port, None);
      }
    }
    if forall port: Int32 | 1 <= port <= 65535 :: Restriction(port, None) in rs {
      forall r | r in rs ensures r.allowed.None? {
        assert Restriction(r.port, None) in rs;
      }
      forall port | 1 <= port <= 65535 ensures IsRestricted(rs, port) {
        assert Restriction(port, None) in rs;
      }
    }
  }

  ghost predicate ClosesProtocol(rules: seq<CNPRule>, protocol: string) {
    forall port: Int32 | 1 <= port <= 65535 :: Restriction(port, None) in Restrictions(rules, protocol)
  }

  lemma ClosesBoth(rules: seq<CNPRule>)
    ensures ClosesEveryPort(rules) <==> ClosesProtocol(rules, TCP) && ClosesProtocol(rules, UDP)
  {
    forall protocol: string, port: Int32
      ensures Restriction(port, None) in Restrictions(rules, protocol) <==> Closed(rules, protocol, port)
    {
      SurvivorWithoutException(rules, protocol, port);
    }
    assert ClosesProtocol(rules, TCP) <==> forall port: Int32 | 1 <= port <= 65535 :: Closed(rules, TCP, port);
    assert ClosesProtocol(rules, UDP) <==> forall port: Int32 | 1 <= port <= 65535 :: Closed(rules, UDP, port);
  }

  /** No policy is created exactly when there is no Allow rule and either no restriction survives or
      the restrictions close every TCP and UDP port to everyone. In that last case the namespace is
      left unrestricted although everything is denied.
   */
  lemma NothingEmittedForValidPorts(cnp: ClusterNetworkPolicy, namespace: string)
    requires ValidSolePorts(cnp.ingress)
    ensures Translation(cnp, namespace).None? <==>
            !SomeAllow(cnp.ingress) && (!SomeSoleDeny(cnp.ingress) || ClosesEveryPort(cnp.ingress))
  {
    var rules := cnp.ingress;
    IngressShape(rules);
    AllowRulesEmpty(rules);
    ProtocolEmpty(rules, TCP);
    ProtocolEmpty(rules, UDP);
    ClosesBoth(rules);
    assert DenyHalf(rules) == [] <==> ClosesProtocol(rules, TCP) && ClosesProtocol(rules, UDP);
    assert IngressRules(rules) == [] <==> AllowRules(rules) == [] && (!SomeSoleDeny(rules) || DenyHalf(rules) == []) by {
      assert |IngressRules(rules)| == |AllowRules(rules)| + if SomeSoleDeny(rules) then |DenyHalf(rules)| else 0;
    }
  }

  /** For valid ports and supported peers, the whole policy keeps its meaning exactly when it has an
      Allow rule or leaves some port open to someone.
   */
  lemma MeaningPreservedForValidPorts(cnp: ClusterNetworkPolicy, namespace: string)
    requires SomeSoleDeny(cnp.ingress) && AllowPeersSupported(cnp.ingress) && ValidSolePorts(cnp.ingress)
    ensures (forall t | InDomain(t) ::
               Verdict(Translation(cnp, namespace), t) <==> Allowed(cnp.ingress, t) || !Denied(cnp.ingress, t))
            <==> SomeAllow(cnp.ingress) || !ClosesEveryPort(cnp.ingress)
  {
    var rules := cnp.ingress;
    NothingEmittedForValidPorts(cnp, namespace);
    if Translation(cnp, namespace).Some? {
      forall t | InDomain(t) ensures Verdict(Translation(cnp, namespace), t) <==> Allowed(rules, t) || !Denied(rules, t) {
        MeaningPreserved(cnp, namespace, t);
      }
    } else {
      var t := Traffic(map[], TCP, 1);
      assert Closed(rules, TCP, 1);
      var i, j :| SoleDeny(rules, i, j) && rules[i].ports[j] == CNPPort(TCP, 1) && rules[i].from == [];
      assert InDomain(t) && Denied(rules, t);
    }
  }

  /** One Deny rule naming every TCP and UDP port and no peer. */
  ghost function DenyAll(): seq<CNPRule> {
    [CNPRule("all", Deny, [], seq(131070, k requires 0 <= k < 131070 =>
      if k < 65535 then CNPPort(TCP, k + 1) else CNPPort(UDP, k - 65534)))]
  }

  lemma DenyAllSole(protocol: string, port: Int32)
    requires IsTranslatableProtocol(protocol) && 1 <= port <= 65535
    ensures
      var j := if protocol == TCP then port - 1 else port + 65534;
      SoleDeny(DenyAll(), 0, j) && DenyAll()[0].ports[j] == CNPPort(protocol, port)
  {
  }

  /** That rule denies every connection in the domain, and translates to no policy at all. */
  lemma DenyAllIsDropped(t: Traffic)
    requires InDomain(t)
    ensures Denied(DenyAll(), t)
    ensures Verdict(Translation(ClusterNetworkPolicy("p", CNPSubject(None, None), DenyAll(), []), "ns"), t)
  {
    var rules := DenyAll();
    forall protocol: string, port: Int32 | IsTranslatableProtocol(protocol) && 1 <= port <= 65535
      ensures Closed(rules, protocol, port)
    {
      DenyAllSole(protocol, port);
    }
    DenyAllSole(t.protocol, t.port);
    NothingEmittedForValidPorts(ClusterNetworkPolicy("p", CNPSubject(None, None), rules, []), "ns");
  }

  // ---------------------------------------------------------------- when nothing is emitted, for any ports

  /** The ports run from 1 or below, one after the other. */
  ghost predicate Consecutive(rs: seq<Restriction>) {
    rs != [] && rs[0].port <= 1 && forall k | 0 <= k < |rs| :: rs[k].port == rs[0].port + k
  }

  lemma ConsecutiveSnoc(front: seq<Restriction>, last: Restriction)
    requires front != []
    ensures Consecutive(front + [last]) <==> Consecutive(front) && last.port == front[|front| - 1].port + 1
  {
    var rs := front + [last];
    assert forall k | 0 <= k < |front| :: rs[k] == front[k];
    if Consecutive(rs) {
      assert rs[|front|].port == rs[0].port + |front| && rs[|front| - 1].port == rs[0].port + |front| - 1;
    }
  }

  lemma {:induction false} NoGaps(protocol: string, rs: seq<Restriction>)
    requires Ascending(rs)
    ensures Gaps(protocol, rs) == [] <==> rs == [] || Consecutive(rs)
  {
    if rs != [] {
      var front, last := rs[..|rs| - 1], rs[|rs| - 1];
      NoGaps(protocol, front);
      if front != [] {
        assert rs == front + [last] && front[|front| - 1].port < last.port;
        ConsecutiveSnoc(front, last);
      }
    }
  }

  /** A protocol's complement is empty exactly when its ports are consecutive, start at 1 or below and
      end at 65535 or above, but not at 2147483647.
   */
  lemma EmptyComplement(protocol: string, rs: seq<Restriction>)
    requires Ascending(rs)
    ensures Complement(protocol, rs) == [] <==> Consecutive(rs) && 65535 <= rs[|rs| - 1].port < MAX_INT32
  {
    NoGaps(protocol, rs);
  }

  /** The surviving Deny ports of the protocol are the numbers lo..hi, all closed to everyone. */
  ghost predicate SealedBetween(rules: seq<CNPRule>, protocol: string, lo: Int32, hi: Int32) {
    && lo <= 1 && 65535 <= hi < MAX_INT32
    && (forall port: Int32 | lo <= port <= hi :: Closed(rules, protocol, port))
    && (forall i, j | SoleDeny(rules, i, j) && rules[i].ports[j].protocol == protocol :: lo <= rules[i].ports[j].port <= hi)
  }

  ghost predicate Sealed(rules: seq<CNPRule>, protocol: string) {
    exists lo, hi :: SealedBetween(rules, protocol, lo, hi)
  }

  lemma SurvivorPosition(rules: seq<CNPRule>, i: int, j: int)
    requires SoleDeny(rules, i, j)
    ensures Restriction(rules[i].ports[j].port, DenyAllowedPeer(rules[i]).allowed) in Restrictions(rules, rules[i].ports[j].protocol)
  {
    SurvivorIsSole(rules, rules[i].ports[j].protocol, Restriction(rules[i].ports[j].port, DenyAllowedPeer(rules[i]).allowed));
  }

  lemma SealedIfEmpty(rules: seq<CNPRule>, protocol: string)
    requires
      var rs := Restrictions(rules, protocol);
      (forall r | r in rs :: r.allowed.None?) && Consecutive(rs) && 65535 <= rs[|rs| - 1].port < MAX_INT32
    ensures Sealed(rules, protocol)
  {
    var rs := Restrictions(rules, protocol);
    var lo, hi := rs[0].port, rs[|rs| - 1].port;
    forall port: Int32 | lo <= port <= hi ensures Closed(rules, protocol, port) {
      var r := rs[port - lo];
      assert r in rs && r == Restriction(port, None);
      SurvivorWithoutException(rules, protocol, port);
    }
    forall i, j | SoleDeny(rules, i, j) && rules[i].ports[j].protocol == protocol ensures lo <= rules[i].ports[j].port <= hi {
      SurvivorPosition(rules, i, j);
      RestrictionsSpec(rules, protocol);
    }
    assert SealedBetween(rules, protocol, lo, hi);
  }

  lemma PositionOf(rs: seq<Restriction>, port: int) returns (i: nat)
    requires IsRestricted(rs, port)
    ensures i < |rs| && rs[i].port == port
  {
    var r :| r in rs && r.port == port;
    i :| 0 <= i < |rs| && rs[i] == r;
  }

  /** An ascending list that holds a run of numbers and nothing else is that run. */
  lemma {:induction false} RunAt(rs: seq<Restriction>, lo: int, hi: int, k: nat)
    requires Ascending(rs) && k < |rs| && (forall r | r in rs :: lo <= r.port <= hi)
    requires forall port | lo <= port <= hi :: IsRestricted(rs, port)
    ensures rs[k].port == lo + k
  {
    assert rs[k] in rs;
    if k > 0 {
      RunAt(rs, lo, hi, k - 1);
      assert rs[k - 1].port < rs[k].port;
    }
    assert IsRestricted(rs, lo + k);
    var i := PositionOf(rs, lo + k);
  }

  lemma RunIsConsecutive(rs: seq<Restriction>, lo: int, hi: int)
    requires Ascending(rs) && lo <= hi && (forall r | r in rs :: lo <= r.port <= hi)
    requires forall port | lo <= port <= hi :: IsRestricted(rs, port)
    ensures rs != [] && rs[|rs| - 1].port == hi && forall k | 0 <= k < |rs| :: rs[k].port == lo + k
  {
    assert IsRestricted(rs, hi);
    var i := PositionOf(rs, hi);
    assert rs[|rs| - 1] in rs;
    forall k | 0 <= k < |rs| ensures rs[k].port == lo + k {
      RunAt(rs, lo, hi, k);
    }
  }

  lemma EmptyIfSealed(rules: seq<CNPRule>, protocol: string, lo: Int32, hi: Int32)
    requires SealedBetween(rules, protocol, lo, hi)
    ensures
      var rs := Restrictions(rules, protocol);
      (forall r | r in rs :: r.allowed.None?) && Consecutive(rs) && 65535 <= rs[|rs| - 1].port < MAX_INT32
  {
    var rs := Restrictions(rules, protocol);
    RestrictionsSpec(rules, protocol);
    forall port: Int32 | lo <= port <= hi ensures Restriction(port, None) in rs {
      SurvivorWithoutException(rules, protocol, port);
    }
    forall r | r in rs ensures r.allowed.None? && lo <= r.port <= hi {
      SurvivorIsSole(rules, protocol, r);
      assert Restriction(r.port, None) in rs;
    }
    forall port | lo <= port <= hi ensures IsRestricted(rs, port) {
      assert Restriction(port, None) in rs;
    }
    RunIsConsecutive(rs, lo, hi);
  }

  lemma ProtocolSealed(rules: seq<CNPRule>, protocol: string)
    ensures
      var rs := Restrictions(rules, protocol);
      ExceptionRules(protocol, rs) == [] && Complement(protocol, rs) == [] <==> Sealed(rules, protocol)
  {
    var rs := Restrictions(rules, protocol);
    RestrictionsSpec(rules, protocol);
    NoExceptionRules(protocol, rs);
    EmptyComplement(protocol, rs);
    if (forall r | r in rs :: r.allowed.None?) && Complement(protocol, rs) == [] {
      SealedIfEmpty(rules, protocol);
    }
    if lo, hi :| SealedBetween(rules, protocol, lo, hi) {
      EmptyIfSealed(rules, protocol, lo, hi);
    }
  }

  lemma OpenFirstPort(rules: seq<CNPRule>, protocol: string)
    requires !Closed(rules, protocol, 1)
    ensures !Sealed(rules, protocol)
  {
    var one: Int32 := 1;
    forall lo: Int32, hi: Int32 ensures !SealedBetween(rules, protocol, lo, hi) {
      assert lo <= one <= hi ==> !Closed(rules, protocol, one);
    }
  }

  /** No policy is created exactly when there is no Allow rule and either no restriction survives or the
      restrictions seal both protocols. In that last case the namespace is left unrestricted although
      everything is denied.
   */
  lemma NothingEmittedExactly(cnp: ClusterNetworkPolicy, namespace: string)
    ensures Translation(cnp, namespace).None? <==>
            !SomeAllow(cnp.ingress) && (!SomeSoleDeny(cnp.ingress) || (Sealed(cnp.ingress, TCP) && Sealed(cnp.ingress, UDP)))
  {
    var rules := cnp.ingress;
    IngressShape(rules);
    AllowRulesEmpty(rules);
    ProtocolSealed(rules, TCP);
    ProtocolSealed(rules, UDP);
    assert DenyHalf(rules) == [] <==> Sealed(rules, TCP) && Sealed(rules, UDP);
    assert |IngressRules(rules)| == |AllowRules(rules)| + if SomeSoleDeny(rules) then |DenyHalf(rules)| else 0;
  }

  // ---------------------------------------------------------------- where the meaning is lost

  /** Whatever its ports and peers, a policy with a surviving restriction never keeps out what it lets
      through, and lets a connection through that it denies and does not allow exactly when it emits
      nothing, an Allow rule lost the peers that excluded the source, or the protocol's ports wrap.
   */
  lemma MeaningLostExactly(cnp: ClusterNetworkPolicy, namespace: string, t: Traffic)
    requires InDomain(t) && SomeSoleDeny(cnp.ingress)
    ensures
      var rules, passes := cnp.ingress, Verdict(Translation(cnp, namespace), t);
      && (Allowed(rules, t) || !Denied(rules, t) ==> passes)
      && (!Allowed(rules, t) && Denied(rules, t) ==>
            (passes <==> Translation(cnp, namespace).None? || AllowedAsTranslated(rules, t) || Wraps(rules, t.protocol)))
  {
    TranslationAdmits(cnp, namespace, t);
    if rule :| rule in cnp.ingress && AllowMatches(rule, t) {
      assert NamesSourceAsTranslated(rule.from, t.source);
    }
  }

  // ---------------------------------------------------------------- Deny rules without ports

  /** A Deny rule that omits its ports and names the source: read like an Allow rule that omits them, it
      denies every port.
   */
  ghost predicate DeniedOnEveryPort(rules: seq<CNPRule>, t: Traffic) {
    exists rule | rule in rules ::
      rule.action == Deny && rule.ports == [] && Reversible(rule.from) && NamesSource(rule.from, t.source)
  }

  /** With omitted ports read as every port, meaning is preserved exactly when the Deny rules without
      ports deny nothing that is not denied or allowed anyway.
   */
  lemma OmittedPortsExactly(cnp: ClusterNetworkPolicy, namespace: string)
    requires SomeSoleDeny(cnp.ingress) && AllowPeersSupported(cnp.ingress) && Translation(cnp, namespace).Some?
    requires !Wraps(cnp.ingress, TCP) && !Wraps(cnp.ingress, UDP)
    ensures
      var rules := cnp.ingress;
      (forall t | InDomain(t) :: Verdict(Translation(cnp, namespace), t) <==>
         Allowed(rules, t) || !(Denied(rules, t) || DeniedOnEveryPort(rules, t)))
      <==> (forall t | InDomain(t) && DeniedOnEveryPort(rules, t) :: Denied(rules, t) || Allowed(rules, t))
  {
    forall t | InDomain(t)
      ensures Verdict(Translation(cnp, namespace), t) <==> Allowed(cnp.ingress, t) || !Denied(cnp.ingress, t)
    {
      MeaningPreserved(cnp, namespace, t);
    }
  }

  // ---------------------------------------------------------------- one Deny rule, spelled out

  /** Denying one TCP port to the namespaces whose label `key` has none of the values: the port is open to
      the namespaces with one of the values and to no other, and the other ports to everybody.
   */
  lemma OnlyListedPass(rule: string, key: string, values: seq<string>, port: Int32, t: Traffic)
    requires values != [] && 1 <= port <= 65535 && InDomain(t)
    ensures
      var rules := [CNPRule(rule, Deny, [NotInPeer(key, values)], [CNPPort("TCP", port)])];
      Verdict(Translation(ClusterNetworkPolicy("p", CNPSubject(None, None), rules, []), "ns"), t)
      <==> t.protocol == "UDP" || t.port != port || (key in t.source && t.source[key] in values)
  {
    var rules := [CNPRule(rule, Deny, [NotInPeer(key, values)], [CNPPort("TCP", port)])];
    var cnp := ClusterNetworkPolicy("p", CNPSubject(None, None), rules, []);
    assert SoleDeny(rules, 0, 0);
    NamesUnlisted(key, values, t.source);
    assert Denied(rules, t) <==> t.protocol == "TCP" && t.port == port && !(key in t.source && t.source[key] in values);
    assert !Closed(rules, TCP, 1);
    OpenFirstPort(rules, TCP);
    NothingEmittedExactly(cnp, "ns");
    TranslationAdmits(cnp, "ns", t);
  }

  lemma NamesUnlisted(key: string, values: seq<string>, source: Labels)
    ensures NamesSource([NotInPeer(key, values)], source) <==> !(key in source && source[key] in values)
  {
    var peer := NotInPeer(key, values);
    var expr := Requirement(key, NotIn, values);
    assert expr in peer.namespaces.value.matchExpressions && peer in [peer];
    assert SelectorMatches(peer.namespaces.value, source) <==> RequirementMatches(expr, source);
  }

  // ---------------------------------------------------------------- other protocols

  /** Denying TCP port 22 closes SCTP port 9, which nothing names. */
  lemma SctpCloses()
    ensures
      var rules := [CNPRule("deny-ssh", Deny, [], [CNPPort(TCP, 22)])];
      var t := Traffic(map[], "SCTP", 9);
      !Denied(rules, t) && !Verdict(Translation(ClusterNetworkPolicy("p", CNPSubject(None, None), rules, []), "ns"), t)
  {
    var rules := [CNPRule("deny-ssh", Deny, [], [CNPPort(TCP, 22)])];
    var t := Traffic(map[], "SCTP", 9);
    var cnp := ClusterNetworkPolicy("p", CNPSubject(None, None), rules, []);
    assert SoleDeny(rules, 0, 0) && Denied(rules, Traffic(map[], TCP, 22));
    TranslationAdmits(cnp, "ns", Traffic(map[], TCP, 23));
    OtherProtocolsClosed(cnp, "ns", t);
    assert !Closed(rules, TCP, 1);
    OpenFirstPort(rules, TCP);
    NothingEmittedExactly(cnp, "ns");
  }
}
