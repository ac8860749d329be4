/** What the translated policy admits, compared with what the ClusterNetworkPolicy says.

    A ClusterNetworkPolicy is read rule by rule: an Allow rule lets its sources reach its ports, a
    Deny rule keeps its sources from its ports, everything else is left alone. Only Deny ports the
    compiler can express count; SoleDeny says which those are without mentioning its maps.
 */
module ClusterNetworkPolicyMeaning {
  import opened Kube
  import opened NetworkPolicies
  import opened ClusterNetworkPolicies
  import opened Wrappers

  // ---------------------------------------------------------------- the reading of a ClusterNetworkPolicy

  ghost predicate NamesPort(ports: seq<CNPPort>, t: Traffic) {
    ports == [] || exists p | p in ports :: p.protocol == t.protocol && p.port == t.port
  }

  ghost predicate NamesSource(peers: seq<CNPPeer>, source: Labels) {
    peers == [] || exists peer | peer in peers :: peer.namespaces.Some? && SelectorMatches(peer.namespaces.value, source)
  }

  ghost predicate AllowMatches(rule: CNPRule, t: Traffic) {
    rule.action == Allow && NamesSource(rule.from, t.source) && NamesPort(rule.ports, t)
  }

  ghost predicate Allowed(rules: seq<CNPRule>, t: Traffic) {
    exists rule | rule in rules :: AllowMatches(rule, t)
  }

  /** The `from` of a Deny rule that can be turned around: everybody, or the namespaces whose label of some
      key has none of the given values. ReversibleExactly writes such a list out.
   */
  predicate Reversible(from: seq<CNPPeer>) {
    from == [] || (|from| == 1 && from[0].namespaces.Some? && SelectsNotIn(from[0].namespaces.value))
  }

  predicate SelectsNotIn(selector: LabelSelector) {
    && selector.matchLabels == map[] && |selector.matchExpressions| == 1
    && selector.matchExpressions[0].operator == NotIn && selector.matchExpressions[0].values != []
  }

  function NotInPeer(key: string, values: seq<string>): CNPPeer {
    CNPPeer(Some(LabelSelector(map[], [Requirement(key, NotIn, values)])))
  }

  /** Port j of Deny rule i, when the rule's shape and the port's protocol can be translated. */
  ghost predicate Translatable(rules: seq<CNPRule>, i: int, j: int) {
    && 0 <= i < |rules| && 0 <= j < |rules[i].ports|
    && rules[i].action == Deny && Reversible(rules[i].from)
    && (rules[i].ports[j].protocol == "TCP" || rules[i].ports[j].protocol == "UDP")
  }

  /** Port j of Deny rule i is the only translatable Deny occurrence of its protocol and port. */
  ghost predicate SoleDeny(rules: seq<CNPRule>, i: int, j: int) {
    && Translatable(rules, i, j)
    && forall k, l | Translatable(rules, k, l) && rules[k].ports[l] == rules[i].ports[j] :: k == i && l == j
  }

  /** Some surviving Deny occurrence names the port and the source. */
  ghost predicate Denied(rules: seq<CNPRule>, t: Traffic) {
    exists i, j | SoleDeny(rules, i, j) ::
      && rules[i].ports[j].protocol == t.protocol && rules[i].ports[j].port == t.port
      && NamesSource(rules[i].from, t.source)
  }

  ghost predicate SomeSoleDeny(rules: seq<CNPRule>) {
    exists i, j :: SoleDeny(rules, i, j)
  }

  lemma ReversibleExactly(from: seq<CNPPeer>)
    ensures Reversible(from) <==> from == [] || exists key, values :: values != [] && from == [NotInPeer(key, values)]
  {
    if Reversible(from) && from != [] {
      var selector := from[0].namespaces.value;
      var expr := selector.matchExpressions[0];
      assert selector.matchExpressions == [expr];
      assert from == [NotInPeer(expr.key, expr.values)];
    }
  }

  /** The compiler supports exactly the Deny rules that can be turned around, and rejects every other. */
  lemma SupportedExactly(rule: CNPRule)
    ensures DenyAllowedPeer(rule).Supported? <==>
            rule.from == [] || exists key, values :: values != [] && rule.from == [NotInPeer(key, values)]
    ensures DenyAllowedPeer(rule).Rejected? ==>
              DenyAllowedPeer(rule).reason == if |rule.from| > 1 then SeveralDenyPeers else DenyPeerShape
  {
    ReversibleExactly(rule.from);
  }

  // ---------------------------------------------------------------- occurrences, counted by position

  /** The positions at which a port list claims a key, as positions in rule `i`. */
  ghost function Row(ports: seq<CNPPort>, key: CNPPort, i: int): set<(int, int)> {
    set j | 0 <= j < |ports| && ports[j] == key && IsTranslatableProtocol(key.protocol) :: (i, j)
  }

  /** The translatable Deny occurrences of a key. */
  ghost function Claimants(rules: seq<CNPRule>, key: CNPPort): set<(int, int)> {
    set i, j | 0 <= i < |rules| && 0 <= j < |rules[i].ports| && Translatable(rules, i, j) && rules[i].ports[j] == key :: (i, j)
  }

  lemma AtLast(front: seq<Occurrence>, o: Occurrence, key: CNPPort)
    ensures At(front + [o], key) == At(front, key) + if o.key == key then [Restriction(key.port, o.allowed)] else []
  {
    assert (front + [o])[..|front|] == front;
  }

  lemma {:induction false} CountRow(ports: seq<CNPPort>, allowed: Option<NetworkPolicyPeer>, key: CNPPort, i: int)
    ensures |At(PortOccurrences(ports, allowed), key)| == |Row(ports, key, i)|
    ensures forall r | r in At(PortOccurrences(ports, allowed), key) :: r == Restriction(key.port, allowed)
  {
    if ports == [] {
      assert Row(ports, key, i) == {};
    } else {
      var n := |ports| - 1;
      var front, last := ports[..n], ports[n];
      CountRow(front, allowed, key, i);
      var claimed := if last == key && IsTranslatableProtocol(key.protocol) then {(i, n)} else {};
      assert Row(ports, key, i) == Row(front, key, i) + claimed;
      assert (i, n) !in Row(front, key, i);
      var before := PortOccurrences(front, allowed);
      if IsTranslatableProtocol(last.protocol) {
        AtLast(before, Occurrence(last, allowed), key);
        assert PortOccurrences(ports, allowed) == before + [Occurrence(last, allowed)];
      } else {
        assert PortOccurrences(ports, allowed) == before;
      }
    }
  }

  /** byPort records as many restrictions for a key as there are occurrences of it. */
  lemma {:induction false} CountClaimants(rules: seq<CNPRule>, key: CNPPort)
    ensures |At(Occurrences(rules), key)| == |Claimants(rules, key)|
  {
    if rules == [] {
      assert Claimants(rules, key) == {};
    } else {
      var n := |rules| - 1;
      var front, last := rules[..n], rules[n];
      CountClaimants(front, key);
      AtConcat(Occurrences(front), RuleOccurrences(last), key);
      var shape := DenyAllowedPeer(last);
      if last.action == Deny && shape.Supported? {
        CountRow(last.ports, shape.allowed, key, n);
        SplitClaimants(rules, key, Row(last.ports, key, n));
      } else {
        SplitClaimants(rules, key, {});
        assert At([], key) == [];
      }
    }
  }

  /** Each recorded restriction lets through the peer of a rule with an occurrence of the key. */
  lemma {:induction false} RecordedPeer(rules: seq<CNPRule>, key: CNPPort, r: Restriction)
    requires r in At(Occurrences(rules), key)
    ensures r.port == key.port
    ensures exists c | c in Claimants(rules, key) :: DenyAllowedPeer(rules[c.0]) == Supported(r.allowed)
  {
    var n := |rules| - 1;
    var front, last := rules[..n], rules[n];
    AtConcat(Occurrences(front), RuleOccurrences(last), key);
    if r in At(Occurrences(front), key) {
      RecordedPeer(front, key, r);
      var c :| c in Claimants(front, key) && DenyAllowedPeer(front[c.0]) == Supported(r.allowed);
      assert Translatable(front, c.0, c.1);
      assert c in Claimants(rules, key) && rules[c.0] == front[c.0];
    } else {
      var allowed := DenyAllowedPeer(last).allowed;
      CountRow(last.ports, allowed, key, n);
      assert |Row(last.ports, key, n)| > 0;
      var c :| c in Row(last.ports, key, n);
      assert c in Claimants(rules, key);
    }
  }

  lemma EarlierClaimant(rules: seq<CNPRule>, key: CNPPort, i: int, j: int)
    requires rules != [] && i != |rules| - 1
    ensures (i, j) in Claimants(rules, key) <==> (i, j) in Claimants(rules[..|rules| - 1], key)
  {
    assert 0 <= i < |rules| - 1 ==> rules[..|rules| - 1][i] == rules[i];
  }

  lemma SplitClaimants(rules: seq<CNPRule>, key: CNPPort, row: set<(int, int)>)
    requires rules != []
    requires
      var last := rules[|rules| - 1];
      row == if last.action == Deny && DenyAllowedPeer(last).Supported? then Row(last.ports, key, |rules| - 1) else {}
    ensures Claimants(rules, key) == Claimants(rules[..|rules| - 1], key) + row
    ensures |Claimants(rules, key)| == |Claimants(rules[..|rules| - 1], key)| + |row|
  {
    var n := |rules| - 1;
    var front := rules[..n];
    forall i, j ensures (i, j) in Claimants(rules, key) <==> (i, j) in Claimants(front, key) || (i, j) in row {
      if i != n {
        EarlierClaimant(rules, key, i, j);
      }
    }
    assert Claimants(rules, key) == Claimants(front, key) + row;
    assert Claimants(front, key) !! row;
  }

  lemma OnlyMember<T>(s: set<T>, x: T)
    requires x in s && |s| == 1
    ensures s == {x}
  {
    assert |s - {x}| == 0;
  }

  lemma SoleClaimant(rules: seq<CNPRule>, i: int, j: int)
    requires Translatable(rules, i, j)
    ensures SoleDeny(rules, i, j) <==> |Claimants(rules, rules[i].ports[j])| == 1
  {
    var claimants := Claimants(rules, rules[i].ports[j]);
    assert (i, j) in claimants;
    if |claimants| == 1 {
      OnlyMember(claimants, (i, j));
      forall k, l | Translatable(rules, k, l) && rules[k].ports[l] == rules[i].ports[j] ensures k == i && l == j {
        assert (k, l) in claimants;
      }
    }
    if SoleDeny(rules, i, j) {
      assert claimants == {(i, j)};
    }
  }

  /** A restriction survives exactly when one Deny occurrence is alone in claiming its port, and it
      then lets through the peer of that occurrence's rule.
   */
  lemma SurvivorIsSole(rules: seq<CNPRule>, protocol: string, r: Restriction)
    ensures r in Restrictions(rules, protocol) <==>
            exists i, j :: SoleDeny(rules, i, j) && rules[i].ports[j] == CNPPort(protocol, r.port)
                        && DenyAllowedPeer(rules[i]) == Supported(r.allowed)
  {
    var key := CNPPort(protocol, r.port);
    var at := At(Occurrences(rules), key);
    RestrictionsSpec(rules, protocol);
    CountClaimants(rules, key);
    if r in Restrictions(rules, protocol) {
      assert at == [r] && r in at;
      RecordedPeer(rules, key, r);
      var c :| c in Claimants(rules, key) && DenyAllowedPeer(rules[c.0]) == Supported(r.allowed);
      SoleClaimant(rules, c.0, c.1);
    }
    if i, j :| SoleDeny(rules, i, j) && rules[i].ports[j] == key && DenyAllowedPeer(rules[i]) == Supported(r.allowed) {
      SoleClaimant(rules, i, j);
      assert |at| == 1 && at[0] in at;
      RecordedPeer(rules, key, at[0]);
      var c :| c in Claimants(rules, key) && DenyAllowedPeer(rules[c.0]) == Supported(at[0].allowed);
      OnlyMember(Claimants(rules, key), c);
      assert (i, j) in Claimants(rules, key);
      assert at == [r];
    }
  }

  // ---------------------------------------------------------------- complement ranges

  datatype Range = Range(start: Int32, end: Int32)

  ghost predicate IsRestricted(rs: seq<Restriction>, port: int) {
    exists r | r in rs :: r.port == port
  }

  ghost predicate Covers(ranges: seq<Range>, port: int) {
    exists range | range in ranges :: range.start <= port <= range.end
  }

  ghost function GapRanges(rs: seq<Restriction>): seq<Range> {
    if rs == [] then [] else
      var front, r := rs[..|rs| - 1], rs[|rs| - 1];
      GapRanges(front) + if r.port > NextPort(front) then [Range(NextPort(front), Wrap(r.port - 1))] else []
  }

  /** The port ranges complementRulesForProtocol opens. */
  ghost function OpenRanges(rs: seq<Restriction>): seq<Range> {
    GapRanges(rs) + if NextPort(rs) <= MAX_PORT then [Range(NextPort(rs), MAX_PORT)] else []
  }

  ghost predicate RulesOpen(rules: seq<IngressRule>, protocol: string, ranges: seq<Range>) {
    |rules| == |ranges| && forall k | 0 <= k < |rules| :: rules[k] == OpenRule(protocol, ranges[k].start, ranges[k].end)
  }

  lemma {:induction false} GapsAreRanges(protocol: string, rs: seq<Restriction>)
    ensures RulesOpen(Gaps(protocol, rs), protocol, GapRanges(rs))
  {
    if rs != [] {
      GapsAreRanges(protocol, rs[..|rs| - 1]);
    }
  }

  lemma ComplementIsRanges(protocol: string, rs: seq<Restriction>)
    ensures RulesOpen(Complement(protocol, rs), protocol, OpenRanges(rs))
  {
    GapsAreRanges(protocol, rs);
  }

  /** An open rule admits the traffic of its protocol inside its range, from anywhere. */
  lemma OpenRuleAdmits(protocol: string, range: Range, t: Traffic)
    ensures RuleAdmits(OpenRule(protocol, range.start, range.end), t)
            <==> t.protocol == protocol && range.start <= t.port <= range.end
  {
    var rule := OpenRule(protocol, range.start, range.end);
    assert rule.from[0] in rule.from && rule.ports[0] in rule.ports;
    assert SelectorMatches(EVERYTHING, t.source);
  }

  lemma ComplementAdmits(protocol: string, rs: seq<Restriction>, t: Traffic)
    ensures Admits(Complement(protocol, rs), t) <==> t.protocol == protocol && Covers(OpenRanges(rs), t.port)
  {
    ComplementIsRanges(protocol, rs);
    var rules, ranges := Complement(protocol, rs), OpenRanges(rs);
    forall k | 0 <= k < |rules|
      ensures RuleAdmits(rules[k], t) <==> t.protocol == protocol && ranges[k].start <= t.port <= ranges[k].end
    {
      OpenRuleAdmits(protocol, ranges[k], t);
    }
    if rule :| rule in rules && RuleAdmits(rule, t) {
      var k :| 0 <= k < |rules| && rules[k] == rule;
      assert ranges[k] in ranges;
    }
    if t.protocol == protocol && Covers(ranges, t.port) {
      var range :| range in ranges && range.start <= t.port <= range.end;
      var k :| 0 <= k < |ranges| && ranges[k] == range;
      assert rules[k] in rules;
    }
  }

  /** `next` is one past the last restricted port, unless int32 wraps. */
  lemma NextIsAbove(rs: seq<Restriction>)
    requires Ascending(rs) && rs != [] && rs[|rs| - 1].port < MAX_INT32
    ensures NextPort(rs) == rs[|rs| - 1].port + 1
    ensures forall r | r in rs :: r.port < NextPort(rs)
  {
  }

  lemma GapStep(rs: seq<Restriction>)
    requires Ascending(rs) && rs != []
    ensures
      var front, r := rs[..|rs| - 1], rs[|rs| - 1];
      && Ascending(front) && (front == [] || front[|front| - 1].port < r.port)
      && (NextPort(front) <= r.port || front == [])
      && forall x :: x in rs <==> x in front || x == r
  {
    var front, r := rs[..|rs| - 1], rs[|rs| - 1];
    assert rs == front + [r];
    if front != [] {
      assert front[|front| - 1] == rs[|rs| - 2];
      NextIsAbove(front);
    }
  }

  lemma RestrictedSplit(rs: seq<Restriction>, port: int)
    requires Ascending(rs) && rs != []
    ensures IsRestricted(rs, port) <==> IsRestricted(rs[..|rs| - 1], port) || rs[|rs| - 1].port == port
  {
    GapStep(rs);
  }

  /** Below `next`, the gaps hold exactly the valid ports nobody restricts. */
  lemma {:induction false} GapsCover(rs: seq<Restriction>, port: int)
    requires Ascending(rs) && (rs == [] || rs[|rs| - 1].port < MAX_INT32)
    requires 1 <= port
    ensures Covers(GapRanges(rs), port) <==> port < NextPort(rs) && !IsRestricted(rs, port)
  {
    if rs != [] {
      var front, r := rs[..|rs| - 1], rs[|rs| - 1];
      GapStep(rs);
      GapsCover(front, port);
      RestrictedSplit(rs, port);
      RestrictedBelowNext(front, port);
      var gap := if r.port > NextPort(front) then [Range(NextPort(front), Wrap(r.port - 1))] else [];
      CoversBoth(GapRanges(front), gap, port);
      assert Covers(gap, port) <==> NextPort(front) <= port < r.port by {
        if gap != [] { assert gap[0] in gap; }
      }
    }
  }

  lemma RestrictedBelowNext(rs: seq<Restriction>, port: int)
    requires Ascending(rs) && (rs == [] || rs[|rs| - 1].port < MAX_INT32)
    ensures IsRestricted(rs, port) ==> port < NextPort(rs)
  {
    if rs != [] {
      NextIsAbove(rs);
    }
  }

  lemma CoversBoth(a: seq<Range>, b: seq<Range>, port: int)
    ensures Covers(a + b, port) <==> Covers(a, port) || Covers(b, port)
  {
    forall range ensures range in a + b <==> range in a || range in b {
    }
  }

  /** Exactly when a valid port is left open: nobody restricts it, or some Deny rule restricts
      2147483647, whose successor wraps around and reopens every port.
   */
  lemma OpenRangesCover(rs: seq<Restriction>, port: int)
    requires Ascending(rs) && 1 <= port <= 65535
    ensures Covers(OpenRanges(rs), port) <==> !IsRestricted(rs, port) || IsRestricted(rs, MAX_INT32)
  {
    var last := if NextPort(rs) <= MAX_PORT then [Range(NextPort(rs), MAX_PORT)] else [];
    CoversBoth(GapRanges(rs), last, port);
    if last != [] {
      assert last[0] in last;
    }
    if rs == [] || rs[|rs| - 1].port < MAX_INT32 {
      GapsCover(rs, port);
      if rs != [] {
        NextIsAbove(rs);
      }
    } else {
      assert NextPort(rs) == MIN_INT32;
      assert rs[|rs| - 1] in rs;
    }
  }

  // ---- the ranges for ports that are valid port numbers

  ghost predicate ValidPorts(rs: seq<Restriction>) {
    forall r | r in rs :: 1 <= r.port <= 65535
  }

  /** Non-empty ranges inside 1..limit-1, ascending and disjoint, with a restricted port beside every
      end that is not a bound.
   */
  ghost predicate MaximalRanges(ranges: seq<Range>, rs: seq<Restriction>, limit: int) {
    && (forall range | range in ranges ::
          && 1 <= range.start <= range.end < limit
          && (range.start == 1 || IsRestricted(rs, range.start - 1))
          && (range.end == limit - 1 || IsRestricted(rs, range.end + 1)))
    && (forall k, l | 0 <= k < l < |ranges| :: ranges[k].end + 1 < ranges[l].start)
  }

  lemma ValidStep(rs: seq<Restriction>)
    requires Ascending(rs) && ValidPorts(rs) && rs != []
    ensures ValidPorts(rs[..|rs| - 1])
    ensures 1 <= rs[|rs| - 1].port <= 65535 && NextPort(rs) == rs[|rs| - 1].port + 1
    ensures IsRestricted(rs, rs[|rs| - 1].port)
    ensures forall port | IsRestricted(rs[..|rs| - 1], port) :: IsRestricted(rs, port)
  {
    GapStep(rs);
    assert rs[|rs| - 1] in rs;
  }

  lemma {:induction false} GapsMaximal(rs: seq<Restriction>)
    requires Ascending(rs) && ValidPorts(rs)
    ensures 1 <= NextPort(rs) <= 65536 && (NextPort(rs) == 1 || IsRestricted(rs, NextPort(rs) - 1))
    ensures |GapRanges(rs)| <= |rs|
    ensures forall range | range in GapRanges(rs) :: range.end + 1 < NextPort(rs) && IsRestricted(rs, range.end + 1)
    ensures MaximalRanges(GapRanges(rs), rs, NextPort(rs))
  {
    if rs != [] {
      var front, r := rs[..|rs| - 1], rs[|rs| - 1];
      GapStep(rs);
      ValidStep(rs);
      GapsMaximal(front);
      ExtendMaximal(GapRanges(front), front, rs, NextPort(front), NextPort(rs));
      if r.port > NextPort(front) {
        AppendRange(GapRanges(front), rs, Range(NextPort(front), Wrap(r.port - 1)), NextPort(rs));
      }
    }
  }

  /** Ranges that end beside restricted ports stay maximal as restrictions and the limit grow. */
  lemma ExtendMaximal(ranges: seq<Range>, rs: seq<Restriction>, more: seq<Restriction>, limit: int, higher: int)
    requires MaximalRanges(ranges, rs, limit) && limit <= higher
    requires forall port | IsRestricted(rs, port) :: IsRestricted(more, port)
    requires forall range | range in ranges :: IsRestricted(rs, range.end + 1)
    ensures MaximalRanges(ranges, more, higher)
  {
  }

  lemma AppendRange(ranges: seq<Range>, rs: seq<Restriction>, last: Range, limit: int)
    requires MaximalRanges(ranges, rs, limit)
    requires forall range | range in ranges :: range.end + 1 < last.start
    requires 1 <= last.start <= last.end < limit
    requires last.start == 1 || IsRestricted(rs, last.start - 1)
    requires last.end == limit - 1 || IsRestricted(rs, last.end + 1)
    ensures MaximalRanges(ranges + [last], rs, limit)
  {
    forall k | 0 <= k < |ranges| ensures ranges[k].end + 1 < last.start {
      assert ranges[k] in ranges;
    }
  }

  /** Complement exactness: for valid restricted ports in ascending order, complementRulesForProtocol
      emits at most one range more than there are restrictions; the ranges are non-empty, inside
      1..65535, ascending, disjoint, maximal, and hold exactly the unrestricted ports; and `next`
      stays within 65536, so int32 never overflows.
   */
  lemma ComplementExact(protocol: string, rs: seq<Restriction>)
    requires Ascending(rs) && ValidPorts(rs)
    ensures RulesOpen(Complement(protocol, rs), protocol, OpenRanges(rs))
    ensures |OpenRanges(rs)| <= |rs| + 1
    ensures MaximalRanges(OpenRanges(rs), rs, 65536)
    ensures forall port | 1 <= port <= 65535 :: Covers(OpenRanges(rs), port) <==> !IsRestricted(rs, port)
    ensures forall n | 0 <= n <= |rs| :: 1 <= NextPort(rs[..n]) <= 65536
  {
    ComplementIsRanges(protocol, rs);
    GapsMaximal(rs);
    ExtendMaximal(GapRanges(rs), rs, rs, NextPort(rs), 65536);
    if NextPort(rs) <= MAX_PORT {
      AppendRange(GapRanges(rs), rs, Range(NextPort(rs), MAX_PORT), 65536);
    }
    forall port | 1 <= port <= 65535 ensures Covers(OpenRanges(rs), port) <==> !IsRestricted(rs, port) {
      OpenRangesCover(rs, port);
    }
    forall n | 0 <= n <= |rs| ensures 1 <= NextPort(rs[..n]) <= 65536 {
      assert forall x | x in rs[..n] :: x in rs;
      GapsMaximal(rs[..n]);
    }
  }

  // ---------------------------------------------------------------- the Allow half

  lemma {:induction false} TranslatedPeers(peers: seq<CNPPeer>, peer: NetworkPolicyPeer)
    ensures peer in TranslatePeers(peers) <==> CNPPeer(Some(peer.namespaceSelector)) in peers
  {
    if peers != [] {
      var front, last := peers[..|peers| - 1], peers[|peers| - 1];
      assert peers == front + [last];
      TranslatedPeers(front, peer);
    }
  }

  ghost predicate SomeNamespacePeer(peers: seq<CNPPeer>) {
    exists peer | peer in peers :: peer.namespaces.Some?
  }

  /** The sources a translated `from` lets in: once every peer is dropped, all of them. */
  ghost predicate NamesSourceAsTranslated(peers: seq<CNPPeer>, source: Labels) {
    !SomeNamespacePeer(peers) || NamesSource(peers, source)
  }

  lemma TranslatedSource(peers: seq<CNPPeer>, source: Labels)
    ensures
      var from := TranslatePeers(peers);
      (from == [] || exists peer | peer in from :: SelectorMatches(peer.namespaceSelector, source))
      <==> NamesSourceAsTranslated(peers, source)
  {
    var from := TranslatePeers(peers);
    forall peer: NetworkPolicyPeer ensures peer in from <==> CNPPeer(Some(peer.namespaceSelector)) in peers {
      TranslatedPeers(peers, peer);
    }
    if peer :| peer in peers && peer.namespaces.Some? {
      assert NetworkPolicyPeer(peer.namespaces.value) in from;
    }
    if NamesSource(peers, source) && peers != [] {
      var peer :| peer in peers && peer.namespaces.Some? && SelectorMatches(peer.namespaces.value, source);
      assert NetworkPolicyPeer(peer.namespaces.value) in from;
    }
    if from != [] {
      assert from[0] in from;
    }
  }

  lemma TranslatedPorts(ports: seq<CNPPort>, t: Traffic)
    ensures
      var out := TranslatePorts(ports);
      (out == [] || exists p | p in out :: PortMatches(p, t)) <==> NamesPort(ports, t)
  {
    var out := TranslatePorts(ports);
    forall i | 0 <= i < |ports|
      ensures out[i] in out && (PortMatches(out[i], t) <==> ports[i].protocol == t.protocol && ports[i].port == t.port)
    {
    }
    if p :| p in ports && p.protocol == t.protocol && p.port == t.port {
      var i :| 0 <= i < |ports| && ports[i] == p;
      assert out[i] in out;
    }
  }

  lemma AllowRuleAdmits(rule: CNPRule, t: Traffic)
    ensures RuleAdmits(AllowRule(rule), t) <==> NamesSourceAsTranslated(rule.from, t.source) && NamesPort(rule.ports, t)
  {
    TranslatedSource(rule.from, t.source);
    TranslatedPorts(rule.ports, t);
  }

  /** An Allow rule keeps its meaning exactly when it names no peers or names at least one that has
      a namespace selector. Otherwise every peer is dropped and what is left names every source.
   */
  lemma AllowRuleFaithful(rule: CNPRule)
    ensures (forall t :: RuleAdmits(AllowRule(rule), t) <==> NamesSource(rule.from, t.source) && NamesPort(rule.ports, t))
            <==> rule.from == [] || SomeNamespacePeer(rule.from)
  {
    forall t: Traffic
      ensures RuleAdmits(AllowRule(rule), t) <==> NamesSourceAsTranslated(rule.from, t.source) && NamesPort(rule.ports, t)
    {
      AllowRuleAdmits(rule, t);
    }
    if rule.from != [] && !SomeNamespacePeer(rule.from) {
      var port := if rule.ports == [] then CNPPort(TCP, 80) else rule.ports[0];
      var t := Traffic(map[], port.protocol, port.port);
      assert rule.ports == [] || port in rule.ports;
      assert NamesPort(rule.ports, t) && !NamesSource(rule.from, t.source);
    }
  }

  /** A rule that allows one pod-only peer, in a ClusterNetworkPolicy that is translated to a
      policy letting in every namespace.
   */
  lemma AllowRuleCollapses()
    ensures
      var rule := CNPRule("only-pods", Allow, [CNPPeer(None)], [CNPPort(TCP, 80)]);
      var t := Traffic(map[], TCP, 80);
      !AllowMatches(rule, t) && Verdict(Translation(ClusterNetworkPolicy("p", CNPSubject(None, None), [rule], []), "ns"), t)
  {
    var rule := CNPRule("only-pods", Allow, [CNPPeer(None)], [CNPPort(TCP, 80)]);
    var t := Traffic(map[], TCP, 80);
    AllowRuleAdmits(rule, t);
    assert CNPPort(TCP, 80) in rule.ports;
    AllowRulesAdmit([rule], t);
    assert rule in [rule];
    AdmitsConcat(AllowRules([rule]), IngressRules([rule])[|AllowRules([rule])|..], t);
    assert IngressRules([rule]) == AllowRules([rule]) + IngressRules([rule])[|AllowRules([rule])|..];
  }

  ghost predicate AllowedAsTranslated(rules: seq<CNPRule>, t: Traffic) {
    exists rule | rule in rules ::
      rule.action == Allow && NamesSourceAsTranslated(rule.from, t.source) && NamesPort(rule.ports, t)
  }

  lemma AdmitsConcat(a: seq<IngressRule>, b: seq<IngressRule>, t: Traffic)
    ensures Admits(a + b, t) <==> Admits(a, t) || Admits(b, t)
  {
    forall rule ensures rule in a + b <==> rule in a || rule in b {
    }
  }

  lemma AdmitsOne(rule: IngressRule, t: Traffic)
    ensures Admits([rule], t) <==> RuleAdmits(rule, t)
  {
    assert rule in [rule];
  }

  lemma {:induction false} AllowRulesAdmit(rules: seq<CNPRule>, t: Traffic)
    ensures Admits(AllowRules(rules), t) <==> AllowedAsTranslated(rules, t)
  {
    if rules != [] {
      var front, last := rules[..|rules| - 1], rules[|rules| - 1];
      assert forall rule :: rule in rules <==> rule in front || rule == last by {
        assert rules == front + [last];
      }
      AllowRulesAdmit(front, t);
      AllowRuleAdmits(last, t);
      AdmitsConcat(AllowRules(front), [AllowRule(last)], t);
      AdmitsOne(AllowRule(last), t);
      assert last.action != Allow ==> AllowRules(rules) == AllowRules(front);
    }
  }

  // ---------------------------------------------------------------- the Deny half

  /** The peer a Deny rule lets through is the complement of the sources it names. */
  lemma DenyComplement(rule: CNPRule, source: Labels)
    requires DenyAllowedPeer(rule).Supported?
    ensures
      var allowed := DenyAllowedPeer(rule).allowed;
      NamesSource(rule.from, source) <==> allowed.None? || !SelectorMatches(allowed.value.namespaceSelector, source)
  {
    if |rule.from| == 1 {
      var expr := rule.from[0].namespaces.value.matchExpressions[0];
      var sel := DenyAllowedPeer(rule).allowed.value.namespaceSelector;
      assert rule.from == [rule.from[0]];
      assert rule.from[0].namespaces.value.matchExpressions == [expr];
      assert sel.matchExpressions == [Requirement(expr.key, In, expr.values)];
      assert rule.from[0].namespaces.value.matchLabels == map[];
      assert SelectorMatches(rule.from[0].namespaces.value, source) <==> RequirementMatches(expr, source);
      assert SelectorMatches(sel, source) <==> RequirementMatches(sel.matchExpressions[0], source);
    }
  }

  ghost predicate LetsThrough(r: Restriction, source: Labels) {
    r.allowed.Some? && SelectorMatches(r.allowed.value.namespaceSelector, source)
  }

  lemma PointRuleAdmits(protocol: string, r: Restriction, t: Traffic)
    requires r.allowed.Some?
    ensures RuleAdmits(PointRule(protocol, r), t) <==> t.protocol == protocol && t.port == r.port && LetsThrough(r, t.source)
  {
    var rule := PointRule(protocol, r);
    assert rule.from[0] in rule.from && rule.ports[0] in rule.ports;
  }

  lemma {:induction false} ExceptionsAdmit(protocol: string, rs: seq<Restriction>, t: Traffic)
    ensures Admits(ExceptionRules(protocol, rs), t)
            <==> t.protocol == protocol && exists r | r in rs :: r.port == t.port && LetsThrough(r, t.source)
  {
    if rs != [] {
      var front, last := rs[..|rs| - 1], rs[|rs| - 1];
      assert forall r :: r in rs <==> r in front || r == last by {
        assert rs == front + [last];
      }
      ExceptionsAdmit(protocol, front, t);
      if last.allowed.Some? {
        PointRuleAdmits(protocol, last, t);
        AdmitsConcat(ExceptionRules(protocol, front), [PointRule(protocol, last)], t);
        AdmitsOne(PointRule(protocol, last), t);
      } else {
        assert ExceptionRules(protocol, rs) == ExceptionRules(protocol, front);
      }
    }
  }

  /** Denied, read off the surviving restrictions. */
  lemma DeniedByRestriction(rules: seq<CNPRule>, t: Traffic)
    ensures Denied(rules, t) <==> exists r | r in Restrictions(rules, t.protocol) :: r.port == t.port && !LetsThrough(r, t.source)
  {
    if i, j :| SoleDeny(rules, i, j) && rules[i].ports[j].protocol == t.protocol && rules[i].ports[j].port == t.port
               && NamesSource(rules[i].from, t.source) {
      var r := Restriction(rules[i].ports[j].port, DenyAllowedPeer(rules[i]).allowed);
      SurvivorIsSole(rules, t.protocol, r);
      DenyComplement(rules[i], t.source);
      assert rules[i].ports[j] == CNPPort(t.protocol, r.port);
      assert r in Restrictions(rules, t.protocol);
    }
    if r :| r in Restrictions(rules, t.protocol) && r.port == t.port && !LetsThrough(r, t.source) {
      SurvivorIsSole(rules, t.protocol, r);
      var i, j :| SoleDeny(rules, i, j) && rules[i].ports[j] == CNPPort(t.protocol, r.port)
                  && DenyAllowedPeer(rules[i]) == Supported(r.allowed);
      DenyComplement(rules[i], t.source);
    }
  }

  /** The rules a translation emits for its restrictions, in the order it emits them. */
  function DenyHalf(rules: seq<CNPRule>): seq<IngressRule> {
    var tcp, udp := Restrictions(rules, TCP), Restrictions(rules, UDP);
    ExceptionRules(TCP, tcp) + ExceptionRules(UDP, udp) + (Complement(TCP, tcp) + Complement(UDP, udp))
  }

  /** TCP and UDP traffic to a valid port, the traffic the compiler's complement is about. */
  ghost predicate InDomain(t: Traffic) {
    (t.protocol == "TCP" || t.protocol == "UDP") && 1 <= t.port <= 65535
  }

  /** A surviving Deny occurrence of port 2147483647, whose successor is not an int32. */
  ghost predicate Wraps(rules: seq<CNPRule>, protocol: string) {
    exists i, j :: SoleDeny(rules, i, j) && rules[i].ports[j] == CNPPort(protocol, MAX_INT32)
  }

  lemma WrapsRestricted(rules: seq<CNPRule>, protocol: string)
    ensures Wraps(rules, protocol) <==> IsRestricted(Restrictions(rules, protocol), MAX_INT32)
  {
    if i, j :| SoleDeny(rules, i, j) && rules[i].ports[j] == CNPPort(protocol, MAX_INT32) {
      SurvivorIsSole(rules, protocol, Restriction(MAX_INT32, DenyAllowedPeer(rules[i]).allowed));
    }
    if r :| r in Restrictions(rules, protocol) && r.port == MAX_INT32 {
      SurvivorIsSole(rules, protocol, r);
    }
  }

  lemma DenyHalfAdmits(rules: seq<CNPRule>, t: Traffic)
    requires InDomain(t)
    ensures Admits(DenyHalf(rules), t) <==> !Denied(rules, t) || Wraps(rules, t.protocol)
  {
    var tcp, udp, rs := Restrictions(rules, TCP), Restrictions(rules, UDP), Restrictions(rules, t.protocol);
    AdmitsConcat(ExceptionRules(TCP, tcp) + ExceptionRules(UDP, udp), Complement(TCP, tcp) + Complement(UDP, udp), t);
    AdmitsConcat(ExceptionRules(TCP, tcp), ExceptionRules(UDP, udp), t);
    AdmitsConcat(Complement(TCP, tcp), Complement(UDP, udp), t);
    ExceptionsAdmit(TCP, tcp, t);
    ExceptionsAdmit(UDP, udp, t);
    ComplementAdmits(TCP, tcp, t);
    ComplementAdmits(UDP, udp, t);
    RestrictionsSpec(rules, t.protocol);
    OpenRangesCover(rs, t.port);
    WrapsRestricted(rules, t.protocol);
    DeniedByRestriction(rules, t);
    forall r, s | r in rs && s in rs && r.port == s.port ensures r == s {
    }
  }

  /** Beyond TCP and UDP the restrictions' rules admit nothing. */
  lemma DenyHalfOther(rules: seq<CNPRule>, t: Traffic)
    requires !IsTranslatableProtocol(t.protocol)
    ensures !Admits(DenyHalf(rules), t)
  {
    var tcp, udp := Restrictions(rules, TCP), Restrictions(rules, UDP);
    AdmitsConcat(ExceptionRules(TCP, tcp) + ExceptionRules(UDP, udp), Complement(TCP, tcp) + Complement(UDP, udp), t);
    AdmitsConcat(ExceptionRules(TCP, tcp), ExceptionRules(UDP, udp), t);
    AdmitsConcat(Complement(TCP, tcp), Complement(UDP, udp), t);
    ExceptionsAdmit(TCP, tcp, t);
    ExceptionsAdmit(UDP, udp, t);
    ComplementAdmits(TCP, tcp, t);
    ComplementAdmits(UDP, udp, t);
  }

  // ---------------------------------------------------------------- the main theorems

  ghost predicate SomeAllow(rules: seq<CNPRule>) {
    exists rule | rule in rules :: rule.action == Allow
  }

  lemma RestrictedIffSole(rules: seq<CNPRule>)
    ensures SomeSoleDeny(rules) <==> Restrictions(rules, TCP) != [] || Restrictions(rules, UDP) != []
  {
    if i, j :| SoleDeny(rules, i, j) {
      var key := rules[i].ports[j];
      SurvivorIsSole(rules, key.protocol, Restriction(key.port, DenyAllowedPeer(rules[i]).allowed));
    }
    forall protocol | Restrictions(rules, protocol) != [] ensures SomeSoleDeny(rules) {
      var r := Restrictions(rules, protocol)[0];
      assert r in Restrictions(rules, protocol);
      SurvivorIsSole(rules, protocol, r);
    }
  }

  lemma {:induction false} AllowRulesEmpty(rules: seq<CNPRule>)
    ensures AllowRules(rules) == [] <==> !SomeAllow(rules)
  {
    if rules != [] {
      var front, last := rules[..|rules| - 1], rules[|rules| - 1];
      assert forall rule :: rule in rules <==> rule in front || rule == last by {
        assert rules == front + [last];
      }
      AllowRulesEmpty(front);
    }
  }

  lemma IngressShape(rules: seq<CNPRule>)
    ensures IngressRules(rules) == AllowRules(rules) + if SomeSoleDeny(rules) then DenyHalf(rules) else []
  {
    RestrictedIffSole(rules);
  }

  /** Meaning, with no hypothesis on the policy. On TCP and UDP to a valid port, a translation with
      a surviving restriction admits what some Allow rule names as translated, and what no surviving
      Deny names; one port number, 2147483647, reopens its whole protocol. Without a surviving
      restriction the Allow rules alone decide, and with nothing to emit nothing is isolated.
   */
  lemma TranslationAdmits(cnp: ClusterNetworkPolicy, namespace: string, t: Traffic)
    requires InDomain(t)
    ensures
      var rules := cnp.ingress;
      Verdict(Translation(cnp, namespace), t) <==>
        || Translation(cnp, namespace).None?
        || AllowedAsTranslated(rules, t)
        || (SomeSoleDeny(rules) && (!Denied(rules, t) || Wraps(rules, t.protocol)))
  {
    var rules := cnp.ingress;
    IngressShape(rules);
    AllowRulesAdmit(rules, t);
    if SomeSoleDeny(rules) {
      AdmitsConcat(AllowRules(rules), DenyHalf(rules), t);
      DenyHalfAdmits(rules, t);
    } else {
      assert IngressRules(rules) == AllowRules(rules);
    }
  }

  /** Any other protocol is closed by the translation except where an Allow rule names it. */
  lemma OtherProtocolsClosed(cnp: ClusterNetworkPolicy, namespace: string, t: Traffic)
    requires !IsTranslatableProtocol(t.protocol)
    ensures Verdict(Translation(cnp, namespace), t) <==>
              Translation(cnp, namespace).None? || AllowedAsTranslated(cnp.ingress, t)
  {
    var rules := cnp.ingress;
    IngressShape(rules);
    AllowRulesAdmit(rules, t);
    if SomeSoleDeny(rules) {
      AdmitsConcat(AllowRules(rules), DenyHalf(rules), t);
      DenyHalfOther(rules, t);
    } else {
      assert IngressRules(rules) == AllowRules(rules);
    }
  }

  /** Every Allow rule that names peers names one with a namespace selector. */
  ghost predicate AllowPeersSupported(rules: seq<CNPRule>) {
    forall rule | rule in rules && rule.action == Allow :: rule.from == [] || SomeNamespacePeer(rule.from)
  }

  /** Meaning preservation: a connection passes the translated policy exactly when some Allow rule
      names it or no surviving Deny does.
   */
  lemma MeaningPreserved(cnp: ClusterNetworkPolicy, namespace: string, t: Traffic)
    requires InDomain(t)
    requires SomeSoleDeny(cnp.ingress) && AllowPeersSupported(cnp.ingress)
    requires !Wraps(cnp.ingress, t.protocol) && Translation(cnp, namespace).Some?
    ensures Verdict(Translation(cnp, namespace), t) <==> Allowed(cnp.ingress, t) || !Denied(cnp.ingress, t)
  {
    TranslationAdmits(cnp, namespace, t);
    forall rule | rule in cnp.ingress && rule.action == Allow
      ensures NamesSourceAsTranslated(rule.from, t.source) <==> NamesSource(rule.from, t.source)
    {
    }
  }
}
