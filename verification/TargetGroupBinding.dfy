/** Resolving the targets of a TargetGroupBinding (internal/agent/targetgroupbinding.go) and the node
    addresses of a LoadBalancer Service (internal/agent/loadbalancercontroller.go).
 */
module TargetGroupBindings {
  import opened Kube
  import opened Sequences
  import opened Sorting
  import opened Wrappers

  // ---------------------------------------------------------------- the objects read

  datatype PortRef = ByName(name: string) | ByNumber(number: Int32)

  datatype ServicePort = ServicePort(name: string, port: Int32, nodePort: Int32)

  datatype ServiceType = ClusterIP | NodePort | LoadBalancer | ExternalName

  datatype Service = Service(serviceType: ServiceType, selector: Labels, ports: seq<ServicePort>)

  datatype EndpointPort = EndpointPort(name: Option<string>, port: Option<Int32>)

  datatype Endpoint = Endpoint(addresses: seq<string>, ready: Option<bool>)

  datatype EndpointSlice = EndpointSlice(ports: seq<EndpointPort>, endpoints: seq<Endpoint>)

  datatype AddressType = InternalIP | ExternalIP | OtherAddress

  datatype NodeAddress = NodeAddress(addressType: AddressType, address: string)

  type Node = seq<NodeAddress>

  datatype Target = Target(address: string, port: Int32)

  datatype ResolveError = SelectorlessService | ServicePortNotFound | UnsupportedServiceType

  // ---------------------------------------------------------------- the order of targets

  /** Go's < on strings. */
  predicate StringLess(a: string, b: string) {
    b != "" && (a == "" || a[0] < b[0] || (a[0] == b[0] && StringLess(a[1..], b[1..])))
  }

  predicate TargetLess(t: Target, u: Target) {
    if t.address != u.address then StringLess(t.address, u.address) else t.port < u.port
  }

  lemma {:induction false} StringLessTransitive(a: string, b: string, c: string)
    requires StringLess(a, b) && StringLess(b, c)
    ensures StringLess(a, c)
  {
    if a != "" && a[0] == b[0] == c[0] {
      StringLessTransitive(a[1..], b[1..], c[1..]);
    }
  }

  lemma {:induction false} StringLessTotal(a: string, b: string)
    ensures !StringLess(a, a)
    ensures a != b ==> StringLess(a, b) || StringLess(b, a)
  {
    if a != "" {
      StringLessTotal(a[1..], if b == "" then "" else b[1..]);
      if b != "" && a[0] == b[0] && a[1..] == b[1..] {
        assert a == [a[0]] + a[1..] && b == [b[0]] + b[1..];
      }
    }
  }

  /** The strings agree up to some position, where `a` ends or has the smaller character. */
  ghost predicate FirstDifference(a: string, b: string, n: nat) {
    n <= |a| && n < |b| && a[..n] == b[..n] && (n == |a| || a[n] < b[n])
  }

  lemma {:induction false} StringLessExactly(a: string, b: string)
    ensures StringLess(a, b) <==> exists n :: FirstDifference(a, b, n)
  {
    if a == "" || b == "" {
      assert b != "" ==> FirstDifference(a, b, 0);
    } else {
      StringLessExactly(a[1..], b[1..]);
      if a[0] < b[0] {
        assert FirstDifference(a, b, 0);
      }
      if n: nat :| FirstDifference(a[1..], b[1..], n) && a[0] == b[0] {
        assert a[..n + 1] == [a[0]] + a[1..][..n] && b[..n + 1] == [b[0]] + b[1..][..n];
        assert FirstDifference(a, b, n + 1);
      }
      if n: nat :| FirstDifference(a, b, n) && n > 0 {
        assert a[..n][0] == b[..n][0];
        assert a[1..][..n - 1] == a[..n][1..] && b[1..][..n - 1] == b[..n][1..];
        assert FirstDifference(a[1..], b[1..], n - 1);
      }
    }
  }

  /** One target comes before another when its address does, or at one address when its port is smaller. */
  lemma TargetLessExactly(t: Target, u: Target)
    ensures TargetLess(t, u) <==>
            (t.address == u.address && t.port < u.port) || exists n :: FirstDifference(t.address, u.address, n)
  {
    StringLessExactly(t.address, u.address);
    StringLessTotal(t.address, t.address);
  }

  lemma StringsOrdered()
    ensures StrictTotal(StringLess)
  {
    forall a, b ensures !StringLess(a, a) && (a != b ==> StringLess(a, b) || StringLess(b, a)) {
      StringLessTotal(a, b);
    }
    forall a, b, c | StringLess(a, b) && StringLess(b, c) ensures StringLess(a, c) {
      StringLessTransitive(a, b, c);
    }
  }

  lemma TargetsOrdered()
    ensures StrictTotal(TargetLess)
  {
    StringsOrdered();
    forall t, u, v | TargetLess(t, u) && TargetLess(u, v) ensures TargetLess(t, v) {
      if t.address != u.address && u.address != v.address {
        StringLessTransitive(t.address, u.address, v.address);
        StringLessTotal(t.address, t.address);
      }
    }
    forall t, u ensures !TargetLess(t, t) && (t != u ==> TargetLess(t, u) || TargetLess(u, t)) {
      StringLessTotal(t.address, u.address);
    }
  }

  // ---------------------------------------------------------------- ports

  predicate Refers(ref: PortRef, p: ServicePort) {
    match ref
    case ByName(name) => p.name == name
    case ByNumber(number) => p.port == number
  }

  /** The first port the reference identifies. */
  function FindPort(ports: seq<ServicePort>, ref: PortRef): Option<ServicePort> {
    if ports == [] then None
    else
      var front, last := FindPort(ports[..|ports| - 1], ref), ports[|ports| - 1];
      if front.None? && Refers(ref, last) then Some(last) else front
  }

  lemma {:induction false} FindPortNone(ports: seq<ServicePort>, ref: PortRef)
    ensures FindPort(ports, ref).None? <==> forall i | 0 <= i < |ports| :: !Refers(ref, ports[i])
  {
    if ports != [] {
      var front := ports[..|ports| - 1];
      FindPortNone(front, ref);
      assert forall i | 0 <= i < |front| :: ports[i] == front[i];
    }
  }

  /** Position i is the first whose name, or whose number, is the reference's. */
  ghost predicate FirstReferred(ports: seq<ServicePort>, ref: PortRef, i: int) {
    && 0 <= i < |ports| && (ref == ByName(ports[i].name) || ref == ByNumber(ports[i].port))
    && forall j | 0 <= j < i :: ref != ByName(ports[j].name) && ref != ByNumber(ports[j].port)
  }

  /** The port found is the first the reference identifies, whatever follows. */
  lemma {:induction false} FirstDecides(ports: seq<ServicePort>, ref: PortRef, i: nat)
    requires FirstReferred(ports, ref, i)
    ensures FindPort(ports, ref) == Some(ports[i])
  {
    var front := ports[..|ports| - 1];
    FindPortNone(front, ref);
    if i < |front| {
      FirstDecides(front, ref, i);
    }
  }

  /** A port is found exactly when the reference identifies one, and it is the first. */
  lemma {:induction false} FindPortExactly(ports: seq<ServicePort>, ref: PortRef)
    ensures FindPort(ports, ref).Some? <==> exists i :: FirstReferred(ports, ref, i)
    ensures forall i | FirstReferred(ports, ref, i) :: FindPort(ports, ref) == Some(ports[i])
  {
    forall i | FirstReferred(ports, ref, i) ensures FindPort(ports, ref) == Some(ports[i]) {
      FirstDecides(ports, ref, i);
    }
    if FindPort(ports, ref).Some? {
      FindPortNone(ports, ref);
      var i := FirstOf(ports, ref);
      assert FirstReferred(ports, ref, i);
    }
  }

  lemma {:induction false} FirstOf(ports: seq<ServicePort>, ref: PortRef) returns (i: nat)
    requires exists k | 0 <= k < |ports| :: Refers(ref, ports[k])
    ensures FirstReferred(ports, ref, i)
  {
    i := 0;
    while !Refers(ref, ports[i])
      invariant i < |ports| && forall j | 0 <= j < i :: !Refers(ref, ports[j])
      decreases |ports| - i
    {
      i := i + 1;
    }
  }

  method ResolveServicePort(service: Service, ref: PortRef) returns (r: Result<ServicePort, ResolveError>)
    ensures r == match FindPort(service.ports, ref) {
                   case None => Failure(ServicePortNotFound)
                   case Some(p) => Success(p)
                 }
  {
    for i := 0 to |service.ports|
      invariant forall j | 0 <= j < i :: !Refers(ref, service.ports[j])
    {
      var p := service.ports[i];
      if (ref.ByName? && p.name == ref.name) || (ref.ByNumber? && p.port == ref.number) {
        FirstDecides(service.ports, ref, i);
        return Success(p);
      }
    }
    FindPortNone(service.ports, ref);
    r := Failure(ServicePortNotFound);
  }

  function PortName(p: EndpointPort): string {
    if p.name.Some? then p.name.value else ""
  }

  /** The number the first port of that name carries; a port without a number hides later ones. */
  function SlicePort(ports: seq<EndpointPort>, name: string): Option<Int32> {
    if ports == [] then None
    else if PortName(ports[0]) == name then ports[0].port
    else SlicePort(ports[1..], name)
  }

  /** Position i is the first port of that name, an absent name being the empty one. */
  ghost predicate FirstNamed(ports: seq<EndpointPort>, name: string, i: int) {
    && 0 <= i < |ports| && Carries(ports[i], name)
    && forall j | 0 <= j < i :: !Carries(ports[j], name)
  }

  ghost predicate Carries(p: EndpointPort, name: string) {
    p.name == Some(name) || (p.name == None && name == "")
  }

  /** A slice gives a name the number of the first port that carries it, and none when that has no number
      or no port carries it.
   */
  lemma {:induction false} SlicePortExactly(ports: seq<EndpointPort>, name: string, number: Int32)
    ensures SlicePort(ports, name) == Some(number) <==> exists i :: FirstNamed(ports, name, i) && ports[i].port == Some(number)
  {
    if ports != [] {
      SlicePortExactly(ports[1..], name, number);
      if Carries(ports[0], name) {
        assert FirstNamed(ports, name, 0);
      } else {
        if i :| FirstNamed(ports, name, i) && ports[i].port == Some(number) {
          assert FirstNamed(ports[1..], name, i - 1) && ports[1..][i - 1] == ports[i];
        }
        if i :| FirstNamed(ports[1..], name, i) && ports[1..][i].port == Some(number) {
          assert FirstNamed(ports, name, i + 1) && ports[i + 1] == ports[1..][i];
        }
      }
    }
  }

  method EndpointSlicePort(slice: EndpointSlice, portName: string) returns (port: Option<Int32>)
    ensures port == SlicePort(slice.ports, portName)
    ensures forall number: Int32 :: port == Some(number) <==>
              exists i :: FirstNamed(slice.ports, portName, i) && slice.ports[i].port == Some(number)
  {
    forall number: Int32
      ensures SlicePort(slice.ports, portName) == Some(number) <==>
              exists i :: FirstNamed(slice.ports, portName, i) && slice.ports[i].port == Some(number)
    {
      SlicePortExactly(slice.ports, portName, number);
    }
    for i := 0 to |slice.ports|
      invariant SlicePort(slice.ports, portName) == SlicePort(slice.ports[i..], portName)
    {
      var name := "";
      if slice.ports[i].name.Some? {
        name := slice.ports[i].name.value;
      }
      if name != portName {
        continue;
      }
      return slice.ports[i].port;
    }
    port := None;
  }

  // ---------------------------------------------------------------- ip targets

  predicate EndpointReady(ep: Endpoint) {
    ep.ready == None || ep.ready == Some(true)
  }

  /** An endpoint that says nothing counts as ready. */
  lemma ReadyExactly(ep: Endpoint)
    ensures EndpointReady(ep) <==> ep.ready != Some(false)
  {
    if ep.ready.Some? && ep.ready.value {
      assert ep.ready == Some(true) != Some(false);
    }
  }

  function AtPort(port: Int32): string -> seq<Target> {
    address => [Target(address, port)]
  }

  function OfEndpoint(port: Int32): Endpoint -> seq<Target> {
    ep => if EndpointReady(ep) then Flatten(AtPort(port), ep.addresses) else []
  }

  function SliceTargets(slice: EndpointSlice, portName: string): seq<Target> {
    match SlicePort(slice.ports, portName)
    case None => []
    case Some(port) => Flatten(OfEndpoint(port), slice.endpoints)
  }

  function OfSlice(portName: string): EndpointSlice -> seq<Target> {
    slice => SliceTargets(slice, portName)
  }

  function IPTargets(slices: seq<EndpointSlice>, portName: string): seq<Target> {
    Flatten(OfSlice(portName), slices)
  }

  /** Some slice has this target: an address of an endpoint that is not marked as not ready, at the number of
      the first of its ports with that name.
   */
  ghost predicate Offered(slices: seq<EndpointSlice>, portName: string, t: Target) {
    exists slice | slice in slices :: OfferedBy(slice, portName, t)
  }

  ghost predicate OfferedBy(slice: EndpointSlice, portName: string, t: Target) {
    && (exists i :: FirstNamed(slice.ports, portName, i) && slice.ports[i].port == Some(t.port))
    && exists ep | ep in slice.endpoints :: ep.ready != Some(false) && t.address in ep.addresses
  }

  lemma IPTargetsOffered(slices: seq<EndpointSlice>, portName: string, t: Target)
    ensures t in IPTargets(slices, portName) <==> Offered(slices, portName, t)
  {
    FlattenContains(OfSlice(portName), slices, t);
    forall slice | slice in slices ensures t in SliceTargets(slice, portName) <==> OfferedBy(slice, portName, t) {
      SliceTargetsOffered(slice, portName, t);
    }
  }

  lemma SliceTargetsOffered(slice: EndpointSlice, portName: string, t: Target)
    ensures t in SliceTargets(slice, portName) <==> OfferedBy(slice, portName, t)
  {
    var port := SlicePort(slice.ports, portName);
    SlicePortExactly(slice.ports, portName, t.port);
    if port.Some? {
      FlattenContains(OfEndpoint(port.value), slice.endpoints, t);
      forall ep | ep in slice.endpoints
        ensures t in OfEndpoint(port.value)(ep) <==> t.port == port.value && ep.ready != Some(false) && t.address in ep.addresses
      {
        ReadyExactly(ep);
        FlattenContains(AtPort(port.value), ep.addresses, t);
      }
    }
  }

  /** Address k of endpoint j of slice i is this target. */
  ghost predicate OfferedFrom(slice: EndpointSlice, portName: string, t: Target, j: int, k: int) {
    && (exists i :: FirstNamed(slice.ports, portName, i) && slice.ports[i].port == Some(t.port))
    && 0 <= j < |slice.endpoints| && slice.endpoints[j].ready != Some(false)
    && 0 <= k < |slice.endpoints[j].addresses| && slice.endpoints[j].addresses[k] == t.address
  }

  /** The places at which the slices offer a target. */
  ghost function OfferedAt(slices: seq<EndpointSlice>, portName: string, t: Target): set<(int, (int, int))> {
    set i, j, k | 0 <= i < |slices| && 0 <= j < |slices[i].endpoints| && 0 <= k < |slices[i].endpoints[j].addresses|
                  && OfferedFrom(slices[i], portName, t, j, k) :: (i, (j, k))
  }

  /** A target is listed as often as it is offered. */
  lemma IPTargetsCount(slices: seq<EndpointSlice>, portName: string, t: Target)
    ensures multiset(IPTargets(slices, portName))[t] == |OfferedAt(slices, portName, t)|
  {
    var inSlice := (slice: EndpointSlice) => PlacesInSlice(slice, portName, t);
    forall slice: EndpointSlice ensures multiset(OfSlice(portName)(slice))[t] == |inSlice(slice)| {
      SliceTargetsCount(slice, portName, t);
    }
    FlattenCount(OfSlice(portName), inSlice, slices, t);
    assert Places(inSlice, slices) == OfferedAt(slices, portName, t);
  }

  ghost function PlacesInSlice(slice: EndpointSlice, portName: string, t: Target): set<(int, int)> {
    set j, k | 0 <= j < |slice.endpoints| && 0 <= k < |slice.endpoints[j].addresses| && OfferedFrom(slice, portName, t, j, k) :: (j, k)
  }

  ghost function PlacesInEndpoint(ep: Endpoint, address: string): set<int> {
    set k | 0 <= k < |ep.addresses| && ep.ready != Some(false) && ep.addresses[k] == address
  }

  lemma SliceTargetsCount(slice: EndpointSlice, portName: string, t: Target)
    ensures multiset(SliceTargets(slice, portName))[t] == |PlacesInSlice(slice, portName, t)|
  {
    SlicePortExactly(slice.ports, portName, t.port);
    if SlicePort(slice.ports, portName) == Some(t.port) {
      EndpointsCount(slice.endpoints, t);
      assert PlacesInSlice(slice, portName, t) == PlacesInEndpoints(slice.endpoints, t.address);
    } else {
      assert PlacesInSlice(slice, portName, t) == {};
      OtherPort(slice, portName, t);
    }
  }

  ghost function PlacesInEndpoints(endpoints: seq<Endpoint>, address: string): set<(int, int)> {
    set j, k | 0 <= j < |endpoints| && 0 <= k < |endpoints[j].addresses| && k in PlacesInEndpoint(endpoints[j], address) :: (j, k)
  }

  lemma EndpointsCount(endpoints: seq<Endpoint>, t: Target)
    ensures multiset(Flatten(OfEndpoint(t.port), endpoints))[t] == |PlacesInEndpoints(endpoints, t.address)|
  {
    var inEndpoint := (ep: Endpoint) => PlacesInEndpoint(ep, t.address);
    forall ep: Endpoint ensures multiset(OfEndpoint(t.port)(ep))[t] == |inEndpoint(ep)| {
      EndpointCount(ep, t);
    }
    FlattenCount(OfEndpoint(t.port), inEndpoint, endpoints, t);
    assert Places(inEndpoint, endpoints) == PlacesInEndpoints(endpoints, t.address);
  }

  lemma OtherPort(slice: EndpointSlice, portName: string, t: Target)
    requires SlicePort(slice.ports, portName) != Some(t.port)
    ensures t !in SliceTargets(slice, portName)
  {
    SliceTargetsOffered(slice, portName, t);
    SlicePortExactly(slice.ports, portName, t.port);
  }

  lemma EndpointCount(ep: Endpoint, t: Target)
    ensures multiset(OfEndpoint(t.port)(ep))[t] == |PlacesInEndpoint(ep, t.address)|
  {
    ReadyExactly(ep);
    if EndpointReady(ep) {
      AddressCount(ep.addresses, t);
      assert PlacesInEndpoint(ep, t.address) == Positions(ep.addresses, t.address);
    } else {
      assert PlacesInEndpoint(ep, t.address) == {};
    }
  }

  lemma AddressCount(addresses: seq<string>, t: Target)
    ensures multiset(Flatten(AtPort(t.port), addresses))[t] == |Positions(addresses, t.address)|
  {
    var targets := Flatten(AtPort(t.port), addresses);
    FlattenAt(t.port, addresses);
    CountPositions(targets, t);
    assert Positions(addresses, t.address) == Positions(targets, t);
  }

  method AppendEndpointTargets(ep: Endpoint, port: Int32) returns (targets: seq<Target>)
    ensures targets == OfEndpoint(port)(ep)
  {
    targets := [];
    if !EndpointReady(ep) {
      return;
    }
    for k := 0 to |ep.addresses|
      invariant targets == Flatten(AtPort(port), ep.addresses[..k])
    {
      targets := targets + [Target(ep.addresses[k], port)];
      assert ep.addresses[..k + 1][..k] == ep.addresses[..k];
    }
    assert ep.addresses[..|ep.addresses|] == ep.addresses;
  }

  method AppendSliceTargets(slice: EndpointSlice, port: Int32) returns (targets: seq<Target>)
    ensures targets == Flatten(OfEndpoint(port), slice.endpoints)
  {
    targets := [];
    for j := 0 to |slice.endpoints|
      invariant targets == Flatten(OfEndpoint(port), slice.endpoints[..j])
    {
      var added := AppendEndpointTargets(slice.endpoints[j], port);
      targets := targets + added;
      assert slice.endpoints[..j + 1][..j] == slice.endpoints[..j];
    }
    assert slice.endpoints[..|slice.endpoints|] == slice.endpoints;
  }

  method ResolveIPTargets(service: Service, ref: PortRef, slices: seq<EndpointSlice>) returns (r: Result<seq<Target>, ResolveError>)
    ensures r == if service.selector == map[] then Failure(SelectorlessService)
                 else match FindPort(service.ports, ref) {
                   case None => Failure(ServicePortNotFound)
                   case Some(p) => Success(IPTargets(slices, p.name))
                 }
  {
    if service.selector == map[] {
      return Failure(SelectorlessService);
    }
    var port := ResolveServicePort(service, ref);
    if port.Failure? {
      return Failure(port.error);
    }
    var targets := [];
    for i := 0 to |slices|
      invariant targets == IPTargets(slices[..i], port.value.name)
    {
      assert slices[..i + 1][..i] == slices[..i];
      var containerPort := EndpointSlicePort(slices[i], port.value.name);
      if containerPort.None? {
        continue;
      }
      var added := AppendSliceTargets(slices[i], containerPort.value);
      targets := targets + added;
    }
    assert slices[..|slices|] == slices;
    r := Success(targets);
  }

  // ---------------------------------------------------------------- node addresses

  /** The first InternalIP. */
  function FirstInternal(node: Node): Option<string> {
    if node == [] then None
    else if node[0].addressType == InternalIP then Some(node[0].address)
    else FirstInternal(node[1..])
  }

  /** The first non-empty ExternalIP, or "". */
  function FirstExternal(node: Node): string {
    if node == [] then ""
    else if node[0].addressType == ExternalIP && node[0].address != "" then node[0].address
    else FirstExternal(node[1..])
  }

  function AddressOf(node: Node): string {
    if FirstInternal(node).Some? then FirstInternal(node).value else FirstExternal(node)
  }

  ghost predicate InternalAt(node: Node, i: int) {
    0 <= i < |node| && node[i].addressType == InternalIP
  }

  ghost predicate ExternalAt(node: Node, i: int) {
    0 <= i < |node| && node[i].addressType == ExternalIP && node[i].address != ""
  }

  /** The first InternalIP; without one the first non-empty ExternalIP; without either, "". */
  ghost predicate IsAddress(node: Node, address: string) {
    if exists i :: InternalAt(node, i) then
      exists i :: InternalAt(node, i) && node[i].address == address && forall j | InternalAt(node, j) :: i <= j
    else if exists i :: ExternalAt(node, i) then
      exists i :: ExternalAt(node, i) && node[i].address == address && forall j | ExternalAt(node, j) :: i <= j
    else address == ""
  }

  /** What counts as a node's address, by position. */
  lemma AddressOfExactly(node: Node, address: string)
    ensures AddressOf(node) == address <==> IsAddress(node, address)
  {
    InternalIsFirst(node);
    ExternalIsFirst(node);
  }

  lemma {:induction false} InternalIsFirst(node: Node)
    ensures FirstInternal(node).None? ==> forall i :: !InternalAt(node, i)
    ensures FirstInternal(node).Some? ==>
              exists i :: InternalAt(node, i) && Some(node[i].address) == FirstInternal(node) && forall j | InternalAt(node, j) :: i <= j
  {
    if node != [] {
      InternalIsFirst(node[1..]);
      forall j | InternalAt(node, j) && j > 0 ensures InternalAt(node[1..], j - 1) {
      }
      if node[0].addressType == InternalIP {
        assert InternalAt(node, 0);
      } else if FirstInternal(node).Some? {
        var i :| InternalAt(node[1..], i) && Some(node[1..][i].address) == FirstInternal(node[1..])
                 && forall j | InternalAt(node[1..], j) :: i <= j;
        assert InternalAt(node, i + 1);
      }
    }
  }

  lemma {:induction false} ExternalIsFirst(node: Node)
    ensures FirstExternal(node) == "" ==> forall i :: !ExternalAt(node, i)
    ensures FirstExternal(node) != "" ==>
              exists i :: ExternalAt(node, i) && node[i].address == FirstExternal(node) && forall j | ExternalAt(node, j) :: i <= j
  {
    if node != [] {
      ExternalIsFirst(node[1..]);
      forall j | ExternalAt(node, j) && j > 0 ensures ExternalAt(node[1..], j - 1) {
      }
      if node[0].addressType == ExternalIP && node[0].address != "" {
        assert ExternalAt(node, 0);
      } else if FirstExternal(node) != "" {
        var i :| ExternalAt(node[1..], i) && node[1..][i].address == FirstExternal(node[1..])
                 && forall j | ExternalAt(node[1..], j) :: i <= j;
        assert ExternalAt(node, i + 1);
      }
    }
  }

  method NodeAddressOf(node: Node) returns (address: string)
    ensures address == AddressOf(node) && IsAddress(node, address)
  {
    AddressOfExactly(node, AddressOf(node));
    var externalIP := "";
    for i := 0 to |node|
      invariant FirstInternal(node) == FirstInternal(node[i..])
      invariant FirstExternal(node) == if externalIP == "" then FirstExternal(node[i..]) else externalIP
    {
      if node[i].addressType == InternalIP {
        return node[i].address;
      }
      if node[i].addressType == ExternalIP && externalIP == "" {
        externalIP := node[i].address;
      }
    }
    address := externalIP;
  }

  /** The distinct non-empty node addresses, each where it first occurs. */
  function Addresses(nodes: seq<Node>): seq<string> {
    if nodes == [] then []
    else
      var front, address := Addresses(nodes[..|nodes| - 1]), AddressOf(nodes[|nodes| - 1]);
      if address == "" || address in front then front else front + [address]
  }

  lemma {:induction false} AddressesDistinct(nodes: seq<Node>)
    ensures Distinct(Addresses(nodes))
  {
    if nodes != [] {
      var front, address := nodes[..|nodes| - 1], AddressOf(nodes[|nodes| - 1]);
      AddressesDistinct(front);
      DistinctSnoc(Addresses(front), address);
    }
  }

  lemma {:induction false} AddressesExact(nodes: seq<Node>, address: string)
    ensures address in Addresses(nodes) <==> address != "" && exists node | node in nodes :: AddressOf(node) == address
  {
    if nodes != [] {
      AddressesExact(nodes[..|nodes| - 1], address);
      AddressesExact(nodes[..|nodes| - 1], AddressOf(nodes[|nodes| - 1]));
      assert nodes == nodes[..|nodes| - 1] + [nodes[|nodes| - 1]];
    }
  }

  /** The loop resolveInstanceTargets and desiredIngress share. */
  method CollectAddresses(nodes: seq<Node>) returns (addresses: seq<string>)
    ensures addresses == Addresses(nodes)
  {
    var seen: set<string> := {};
    addresses := [];
    for i := 0 to |nodes|
      invariant addresses == Addresses(nodes[..i])
      invariant forall a :: a in seen <==> a in addresses
    {
      assert nodes[..i + 1][..i] == nodes[..i];
      var address := NodeAddressOf(nodes[i]);
      if address == "" || address in seen {
        continue;
      }
      seen := seen + {address};
      addresses := addresses + [address];
    }
    assert nodes[..|nodes|] == nodes;
  }

  /** The same addresses whatever the order of the nodes. */
  lemma AddressesPermute(nodes: seq<Node>, nodes': seq<Node>)
    requires multiset(nodes) == multiset(nodes')
    ensures multiset(Addresses(nodes)) == multiset(Addresses(nodes'))
  {
    var a, b := Addresses(nodes), Addresses(nodes');
    AddressesDistinct(nodes);
    AddressesDistinct(nodes');
    forall address ensures multiset(a)[address] == multiset(b)[address] {
      AddressesExact(nodes, address);
      AddressesExact(nodes', address);
      assert forall node :: node in nodes <==> node in multiset(nodes);
      assert forall node :: node in nodes' <==> node in multiset(nodes');
      CountDistinct(a, address);
      CountDistinct(b, address);
    }
  }

  // ---------------------------------------------------------------- resolving

  function EffectiveTargetType(targetType: string): string {
    if targetType == "" then "ip" else targetType
  }

  function InstanceTargets(nodes: seq<Node>, nodePort: Int32): seq<Target> {
    if nodePort == 0 then [] else Flatten(AtPort(nodePort), Addresses(nodes))
  }

  /** The targets before sorting: "instance" registers node addresses, every other type pod IPs. */
  function Unsorted(service: Service, ref: PortRef, targetType: string, slices: seq<EndpointSlice>, nodes: seq<Node>)
    : Result<seq<Target>, ResolveError>
  {
    var port := FindPort(service.ports, ref);
    if EffectiveTargetType(targetType) == "instance" then
      if service.serviceType != NodePort && service.serviceType != LoadBalancer then Failure(UnsupportedServiceType)
      else if port.None? then Failure(ServicePortNotFound)
      else Success(InstanceTargets(nodes, port.value.nodePort))
    else if service.selector == map[] then Failure(SelectorlessService)
    else if port.None? then Failure(ServicePortNotFound)
    else Success(IPTargets(slices, port.value.name))
  }

  function Resolved(service: Service, ref: PortRef, targetType: string, slices: seq<EndpointSlice>, nodes: seq<Node>)
    : Result<seq<Target>, ResolveError>
  {
    var r := Unsorted(service, ref, targetType, slices, nodes);
    if r.Success? then Success(Sort(TargetLess, r.value)) else r
  }

  method ResolveInstanceTargets(service: Service, ref: PortRef, nodes: seq<Node>) returns (r: Result<seq<Target>, ResolveError>)
    ensures r == Unsorted(service, ref, "instance", [], nodes)
  {
    if service.serviceType != NodePort && service.serviceType != LoadBalancer {
      return Failure(UnsupportedServiceType);
    }
    var port := ResolveServicePort(service, ref);
    if port.Failure? {
      return Failure(port.error);
    }
    if port.value.nodePort == 0 {
      return Success([]);
    }
    var addresses := CollectAddresses(nodes);
    var targets := [];
    for i := 0 to |addresses|
      invariant targets == Flatten(AtPort(port.value.nodePort), addresses[..i])
    {
      targets := targets + [Target(addresses[i], port.value.nodePort)];
      assert addresses[..i + 1][..i] == addresses[..i];
    }
    assert addresses[..|addresses|] == addresses;
    r := Success(targets);
  }

  method SortTargets(targets: seq<Target>) returns (sorted: seq<Target>)
    ensures sorted == Sort(TargetLess, targets)
  {
    var a := new Target[|targets|](i requires 0 <= i < |targets| => targets[i]);
    assert a[..] == targets;
    SortInPlace(TargetLess, a);
    sorted := a[..];
  }

  method ResolveTargets(service: Service, ref: PortRef, targetType: string, slices: seq<EndpointSlice>, nodes: seq<Node>)
    returns (r: Result<seq<Target>, ResolveError>, effective: string)
    ensures r == Resolved(service, ref, targetType, slices, nodes)
    ensures effective == EffectiveTargetType(targetType)
    ensures effective == "instance" <==> targetType == "instance"
    ensures effective == "ip" <==> targetType == "ip" || targetType == ""
    ensures effective == targetType || targetType == ""
  {
    effective := EffectiveTargetType(targetType);
    if effective == "instance" {
      r := ResolveInstanceTargets(service, ref, nodes);
    } else {
      r := ResolveIPTargets(service, ref, slices);
    }
    if r.Failure? {
      return r, effective;
    }
    var sorted := SortTargets(r.value);
    r := Success(sorted);
  }

  // ---------------------------------------------------------------- what resolving yields

  /** Every type but "instance" resolves like "ip", the empty one included: the targets are exactly the
      addresses the slices offer at the name of the first port the reference identifies, in order.
   */
  lemma IPTargetsExact(service: Service, ref: PortRef, targetType: string, slices: seq<EndpointSlice>, nodes: seq<Node>)
    requires targetType != "instance"
    ensures
      var r := Resolved(service, ref, targetType, slices, nodes);
      && (r == Failure(SelectorlessService) <==> service.selector == map[])
      && (r == Failure(ServicePortNotFound) <==> service.selector != map[] && forall i :: !FirstReferred(service.ports, ref, i))
      && r != Failure(UnsupportedServiceType)
      && (r.Success? ==> Sorted(TargetLess, r.value))
      && (forall i, t | r.Success? && FirstReferred(service.ports, ref, i) ::
            multiset(r.value)[t] == |OfferedAt(slices, service.ports[i].name, t)|
            && (t in r.value <==> Offered(slices, service.ports[i].name, t)))
  {
    var r, port := Resolved(service, ref, targetType, slices, nodes), FindPort(service.ports, ref);
    FindPortExactly(service.ports, ref);
    if r.Success? {
      var targets := IPTargets(slices, port.value.name);
      TargetsOrdered();
      SortSorted(TargetLess, targets);
      SortMembers(TargetLess, targets);
      forall t
        ensures multiset(r.value)[t] == |OfferedAt(slices, port.value.name, t)|
        ensures t in r.value <==> Offered(slices, port.value.name, t)
      {
        IPTargetsOffered(slices, port.value.name, t);
        IPTargetsCount(slices, port.value.name, t);
        assert t in r.value <==> t in multiset(r.value);
        assert t in targets <==> t in multiset(targets);
      }
    }
  }

  /** Strictly ascending: no target twice. */
  ghost predicate Ascending(targets: seq<Target>) {
    forall i, j | 0 <= i < j < |targets| :: TargetLess(targets[i], targets[j])
  }

  lemma FlattenAt(port: Int32, addresses: seq<string>)
    ensures |Flatten(AtPort(port), addresses)| == |addresses|
    ensures forall i | 0 <= i < |addresses| :: Flatten(AtPort(port), addresses)[i] == Target(addresses[i], port)
  {
    if addresses != [] {
      FlattenAt(port, addresses[..|addresses| - 1]);
    }
  }

  lemma SortedDistinct(targets: seq<Target>)
    requires Distinct(targets)
    ensures Ascending(Sort(TargetLess, targets))
  {
    var sorted := Sort(TargetLess, targets);
    TargetsOrdered();
    SortSorted(TargetLess, targets);
    SortMembers(TargetLess, targets);
    DistinctPermute(targets, sorted);
  }

  /** instance targets are strictly ascending, one for each distinct non-empty node address, all at the
      nodePort of the first port the reference identifies, and none when that is 0.
   */
  lemma InstanceTargetsExact(service: Service, ref: PortRef, slices: seq<EndpointSlice>, nodes: seq<Node>)
    ensures
      var r := Resolved(service, ref, "instance", slices, nodes);
      && (r == Failure(UnsupportedServiceType) <==> service.serviceType != NodePort && service.serviceType != LoadBalancer)
      && (r == Failure(ServicePortNotFound) <==>
            (service.serviceType == NodePort || service.serviceType == LoadBalancer)
            && forall i :: !FirstReferred(service.ports, ref, i))
      && r != Failure(SelectorlessService)
      && (r.Success? ==> Ascending(r.value))
      && (forall i, t | r.Success? && FirstReferred(service.ports, ref, i) ::
            t in r.value <==>
              t.port == service.ports[i].nodePort != 0
              && t.address != "" && exists node | node in nodes :: IsAddress(node, t.address))
  {
    var r, port := Resolved(service, ref, "instance", slices, nodes), FindPort(service.ports, ref);
    FindPortExactly(service.ports, ref);
    if r.Success? {
      var nodePort := port.value.nodePort;
      var targets := InstanceTargets(nodes, nodePort);
      FlattenAt(nodePort, Addresses(nodes));
      AddressesDistinct(nodes);
      SortedDistinct(targets);
      SortMembers(TargetLess, targets);
      forall t: Target
        ensures t in r.value <==>
                t.port == nodePort != 0 && t.address != "" && exists node | node in nodes :: IsAddress(node, t.address)
      {
        assert t in r.value <==> t in multiset(r.value);
        assert t in targets <==> t in multiset(targets);
        InstanceTargetsAt(nodes, nodePort, t);
      }
    }
  }

  lemma InstanceTargetsAt(nodes: seq<Node>, nodePort: Int32, t: Target)
    ensures t in InstanceTargets(nodes, nodePort) <==>
            t.port == nodePort != 0 && t.address != "" && exists node | node in nodes :: IsAddress(node, t.address)
  {
    FlattenContains(AtPort(nodePort), Addresses(nodes), t);
    AddressesExact(nodes, t.address);
    forall node ensures AddressOf(node) == t.address <==> IsAddress(node, t.address) {
      AddressOfExactly(node, t.address);
    }
  }

  // ---------------------------------------------------------------- order does not matter

  ghost predicate SameEndpoint(e: Endpoint, e': Endpoint) {
    e.ready == e'.ready && multiset(e.addresses) == multiset(e'.addresses)
  }

  /** The endpoints permuted, and the addresses of each. The order of the ports matters and stays. */
  ghost predicate SameSlice(s: EndpointSlice, s': EndpointSlice) {
    s.ports == s'.ports && exists endpoints: seq<Endpoint> :: SameEndpoints(endpoints, s.endpoints, s'.endpoints)
  }

  ghost predicate SameEndpoints(between: seq<Endpoint>, a: seq<Endpoint>, b: seq<Endpoint>) {
    multiset(between) == multiset(a) && |between| == |b| && forall i | 0 <= i < |b| :: SameEndpoint(between[i], b[i])
  }

  /** The slices permuted, and each inside. */
  ghost predicate SameSlices(between: seq<EndpointSlice>, a: seq<EndpointSlice>, b: seq<EndpointSlice>) {
    multiset(between) == multiset(a) && |between| == |b| && forall i | 0 <= i < |b| :: SameSlice(between[i], b[i])
  }

  lemma PermutedSlices(a: seq<EndpointSlice>, b: seq<EndpointSlice>)
    requires multiset(a) == multiset(b)
    ensures SameSlices(b, a, b)
  {
    forall i | 0 <= i < |b| ensures SameSlice(b[i], b[i]) {
      assert SameEndpoints(b[i].endpoints, b[i].endpoints, b[i].endpoints);
    }
  }

  lemma SameSliceTargets(s: EndpointSlice, s': EndpointSlice, portName: string)
    requires SameSlice(s, s')
    ensures multiset(SliceTargets(s, portName)) == multiset(SliceTargets(s', portName))
  {
    var port := SlicePort(s.ports, portName);
    if port.Some? {
      var endpoints: seq<Endpoint> :| SameEndpoints(endpoints, s.endpoints, s'.endpoints);
      FlattenPermute(OfEndpoint(port.value), endpoints, s.endpoints);
      forall i | 0 <= i < |endpoints|
        ensures multiset(OfEndpoint(port.value)(endpoints[i])) == multiset(OfEndpoint(port.value)(s'.endpoints[i]))
      {
        assert SameEndpoint(endpoints[i], s'.endpoints[i]);
        FlattenPermute(AtPort(port.value), endpoints[i].addresses, s'.endpoints[i].addresses);
      }
      FlattenPointwise(OfEndpoint(port.value), endpoints, s'.endpoints);
    }
  }

  lemma IPTargetsPermute(between: seq<EndpointSlice>, a: seq<EndpointSlice>, b: seq<EndpointSlice>, portName: string)
    requires SameSlices(between, a, b)
    ensures multiset(IPTargets(a, portName)) == multiset(IPTargets(b, portName))
  {
    FlattenPermute(OfSlice(portName), between, a);
    forall i | 0 <= i < |between|
      ensures multiset(OfSlice(portName)(between[i])) == multiset(OfSlice(portName)(b[i]))
    {
      SameSliceTargets(between[i], b[i], portName);
    }
    FlattenPointwise(OfSlice(portName), between, b);
  }

  /** Target resolution is canonical: whatever order the listers and the API give slices, endpoints,
      addresses and nodes, the result is the same.
   */
  lemma ResolvedCanonical(service: Service, ref: PortRef, targetType: string, between: seq<EndpointSlice>,
                          slices: seq<EndpointSlice>, slices': seq<EndpointSlice>, nodes: seq<Node>, nodes': seq<Node>)
    requires SameSlices(between, slices, slices') && multiset(nodes) == multiset(nodes')
    ensures Resolved(service, ref, targetType, slices, nodes) == Resolved(service, ref, targetType, slices', nodes')
  {
    TargetsOrdered();
    var r, r' := Unsorted(service, ref, targetType, slices, nodes), Unsorted(service, ref, targetType, slices', nodes');
    if r.Success? {
      var port := FindPort(service.ports, ref).value;
      IPTargetsPermute(between, slices, slices', port.name);
      AddressesPermute(nodes, nodes');
      FlattenPermute(AtPort(port.nodePort), Addresses(nodes), Addresses(nodes'));
      SortCanonical(TargetLess, r.value, r'.value);
    }
  }

  // ---------------------------------------------------------------- the ingress of a LoadBalancer Service

  method DesiredIngress(nodes: seq<Node>) returns (ingress: seq<string>)
    ensures ingress == Sort(StringLess, Addresses(nodes))
  {
    var addresses := CollectAddresses(nodes);
    var a := new string[|addresses|](i requires 0 <= i < |addresses| => addresses[i]);
    assert a[..] == addresses;
    SortInPlace(StringLess, a);
    ingress := [];
    for i := 0 to a.Length
      invariant ingress == a[..i]
    {
      ingress := ingress + [a[i]];
    }
    assert a[..a.Length] == a[..];
  }

  /** One entry per distinct non-empty node address, the same for every order of the nodes. */
  lemma IngressCanonical(nodes: seq<Node>, nodes': seq<Node>, address: string)
    requires multiset(nodes) == multiset(nodes')
    ensures Sort(StringLess, Addresses(nodes)) == Sort(StringLess, Addresses(nodes'))
    ensures Sorted(StringLess, Sort(StringLess, Addresses(nodes)))
    ensures multiset(Sort(StringLess, Addresses(nodes)))[address]
            == if address != "" && exists node | node in nodes :: IsAddress(node, address) then 1 else 0
  {
    StringsOrdered();
    AddressesPermute(nodes, nodes');
    SortCanonical(StringLess, Addresses(nodes), Addresses(nodes'));
    SortSorted(StringLess, Addresses(nodes));
    SortMembers(StringLess, Addresses(nodes));
    AddressesExact(nodes, address);
    forall node ensures AddressOf(node) == address <==> IsAddress(node, address) {
      AddressOfExactly(node, address);
    }
    AddressesDistinct(nodes);
    CountDistinct(Addresses(nodes), address);
  }
}
