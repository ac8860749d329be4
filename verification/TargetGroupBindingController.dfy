/** The TargetGroupBinding controller (internal/agent/targetgroupbindingcontroller.go): informers with
    caches and notifications, a deduplicating work queue, workers that read the caches one after the
    other, and conditional status writes that come back through the watch.

    The machine interleaves all of it in every way. Any number of workers run, one per key at most.
 */
module TargetGroupBindingControllers {
  import opened Sequences
  import opened TargetGroupBindings
  import opened Wrappers

  datatype Key = Key(namespace: string, name: string)

  datatype Status = Status(observedGeneration: int, targets: seq<Target>, targetType: string)

  /** A TargetGroupBinding; `version` is its resourceVersion. */
  datatype Binding = Binding(version: nat, generation: int, serviceName: string, port: PortRef, targetType: string, status: Option<Status>)

  /** An EndpointSlice with the service its label names, "" when it has none. */
  datatype Labelled = Labelled(serviceName: string, slice: EndpointSlice)

  type Services = map<Key, Service>
  type Slices = map<Key, Labelled>
  type Nodes = map<string, Node>

  // ---------------------------------------------------------------- listing a cache

  ghost predicate Lists<K(!new), V>(keys: seq<K>, m: map<K, V>) {
    && Distinct(keys)
    && (forall k :: k in keys <==> k in m)
  }

  lemma {:induction false} ListingExists<K(!new), V>(m: map<K, V>)
    ensures exists keys :: Lists(keys, m)
    decreases |m|
  {
    if m == map[] {
      assert Lists([], m);
    } else {
      var k :| k in m;
      var rest := m - {k};
      assert |rest| < |m| by {
        assert rest.Keys == m.Keys - {k};
      }
      ListingExists(rest);
      var keys :| Lists(keys, rest);
      DistinctSnoc(keys, k);
      assert Lists(keys + [k], m);
    }
  }

  function One<K, V>(m: map<K, V>): K -> seq<V> {
    k => if k in m then [m[k]] else []
  }

  /** What a lister returns when it meets the keys in this order. */
  function Values<K, V>(keys: seq<K>, m: map<K, V>): seq<V> {
    Flatten(One(m), keys)
  }

  lemma ListingsPermute<K(!new), V>(a: seq<K>, b: seq<K>, m: map<K, V>)
    requires Lists(a, m) && Lists(b, m)
    ensures multiset(Values(a, m)) == multiset(Values(b, m))
  {
    forall k ensures multiset(a)[k] == multiset(b)[k] {
      CountDistinct(a, k);
      CountDistinct(b, k);
    }
    FlattenPermute(One(m), a, b);
  }

  ghost function Listing<K(!new), V>(m: map<K, V>): seq<V> {
    ListingExists(m);
    var keys :| Lists(keys, m);
    Values(keys, m)
  }

  lemma AnyListing<K(!new), V>(keys: seq<K>, m: map<K, V>)
    requires Lists(keys, m)
    ensures multiset(Values(keys, m)) == multiset(Listing(m))
  {
    ListingExists(m);
    var chosen :| Lists(chosen, m) && Listing(m) == Values(chosen, m);
    ListingsPermute(keys, chosen, m);
  }

  /** The slices of a service: those in the namespace that carry its name. */
  function Of(slices: Slices, namespace: string, serviceName: string): map<Key, EndpointSlice> {
    map k | k in slices && k.namespace == namespace && slices[k].serviceName == serviceName :: slices[k].slice
  }

  function ServiceKey(key: Key, binding: Binding): Key {
    Key(key.namespace, binding.serviceName)
  }

  /** What reconciling the binding against these caches wants its status to be. */
  ghost function Desired(key: Key, binding: Binding, services: Services, slices: Slices, nodes: Nodes): Result<Status, ResolveError>
    requires ServiceKey(key, binding) in services
  {
    var r := Resolved(services[ServiceKey(key, binding)], binding.port, binding.targetType,
                      Listing(Of(slices, key.namespace, binding.serviceName)), Listing(nodes));
    if r.Failure? then Failure(r.error)
    else Success(Status(binding.generation, r.value, EffectiveTargetType(binding.targetType)))
  }

  /** The order in which the listers return slices and nodes makes no difference. */
  lemma DesiredAnyOrder(key: Key, binding: Binding, services: Services, slices: Slices, nodes: Nodes, sliceKeys: seq<Key>, nodeKeys: seq<string>)
    requires ServiceKey(key, binding) in services
    requires Lists(sliceKeys, Of(slices, key.namespace, binding.serviceName)) && Lists(nodeKeys, nodes)
    ensures
      var r := Resolved(services[ServiceKey(key, binding)], binding.port, binding.targetType,
                        Values(sliceKeys, Of(slices, key.namespace, binding.serviceName)), Values(nodeKeys, nodes));
      Desired(key, binding, services, slices, nodes) ==
      if r.Failure? then Failure(r.error) else Success(Status(binding.generation, r.value, EffectiveTargetType(binding.targetType)))
  {
    var own := Of(slices, key.namespace, binding.serviceName);
    AnyListing(sliceKeys, own);
    AnyListing(nodeKeys, nodes);
    PermutedSlices(Values(sliceKeys, own), Listing(own));
    ResolvedCanonical(services[ServiceKey(key, binding)], binding.port, binding.targetType, Listing(own),
                      Values(sliceKeys, own), Listing(own), Values(nodeKeys, nodes), Listing(nodes));
  }

  lemma {:induction false} ValuesContain<K, V>(keys: seq<K>, m: map<K, V>, v: V)
    ensures v in Values(keys, m) <==> exists k | k in keys :: k in m && m[k] == v
  {
    if keys != [] {
      var front, last := keys[..|keys| - 1], keys[|keys| - 1];
      ValuesContain(front, m, v);
      assert keys == front + [last];
      assert v in Values(keys, m) <==> v in Values(front, m) || (last in m && m[last] == v);
    }
  }

  lemma ListingContains<K(!new), V>(m: map<K, V>, v: V)
    ensures v in Listing(m) <==> exists k | k in m :: m[k] == v
  {
    ListingExists(m);
    var keys :| Lists(keys, m) && Listing(m) == Values(keys, m);
    ValuesContain(keys, m, v);
  }

  /** A slice of the binding's namespace that carries its service's name offers the target. */
  ghost predicate SliceOffers(key: Key, binding: Binding, slices: Slices, portName: string, t: Target) {
    exists k | k in slices ::
      k.namespace == key.namespace && slices[k].serviceName == binding.serviceName && OfferedBy(slices[k].slice, portName, t)
  }

  ghost predicate SomeNodeHas(nodes: Nodes, address: string) {
    exists name | name in nodes :: IsAddress(nodes[name], address)
  }

  /** What the status should be, read off the caches: the binding's generation, its target type with "ip" for
      an empty one, and the targets that the service's slices offer or the nodes have.
   */
  lemma DesiredMeans(key: Key, binding: Binding, services: Services, slices: Slices, nodes: Nodes, i: int, t: Target)
    requires Key(key.namespace, binding.serviceName) in services
    requires FirstReferred(services[Key(key.namespace, binding.serviceName)].ports, binding.port, i)
    requires Desired(key, binding, services, slices, nodes).Success?
    ensures
      var status, port := Desired(key, binding, services, slices, nodes).value, services[Key(key.namespace, binding.serviceName)].ports[i];
      && status.observedGeneration == binding.generation
      && status.targetType == (if binding.targetType == "" then "ip" else binding.targetType)
      && (t in status.targets <==>
            if binding.targetType == "instance" then t.port == port.nodePort != 0 && t.address != "" && SomeNodeHas(nodes, t.address)
            else SliceOffers(key, binding, slices, port.name, t))
  {
    var service, own := services[Key(key.namespace, binding.serviceName)], Of(slices, key.namespace, binding.serviceName);
    if binding.targetType == "instance" {
      InstanceTargetsExact(service, binding.port, Listing(own), Listing(nodes));
      forall node ensures node in Listing(nodes) <==> exists name | name in nodes :: nodes[name] == node {
        ListingContains(nodes, node);
      }
    } else {
      IPTargetsExact(service, binding.port, binding.targetType, Listing(own), Listing(nodes));
      OwnOffers(key, binding, slices, service.ports[i].name, t);
    }
  }

  lemma OwnOffers(key: Key, binding: Binding, slices: Slices, portName: string, t: Target)
    ensures SliceOffers(key, binding, slices, portName, t) <==>
            Offered(Listing(Of(slices, key.namespace, binding.serviceName)), portName, t)
  {
    var own := Of(slices, key.namespace, binding.serviceName);
    forall slice ensures slice in Listing(own) <==> exists k | k in own :: own[k] == slice {
      ListingContains(own, slice);
    }
    if k :| k in slices && k.namespace == key.namespace && slices[k].serviceName == binding.serviceName && OfferedBy(slices[k].slice, portName, t) {
      assert own[k] == slices[k].slice;
    }
  }

  // ---------------------------------------------------------------- the machine

  /** A notification waiting for its handler. */
  datatype Event = BindingEvent(key: Key) | ServiceEvent(key: Key) | SliceEvent(namespace: string, serviceName: string) | NodeEvent

  /** How far the worker that holds a key is; `a`, `b` and `c` say which contents of the caches it read. */
  datatype Work =
    | Began
    | HasBinding(binding: Binding)
    | HasService(binding: Binding, a: nat)
    | HasSlices(binding: Binding, a: nat, b: nat)
    | HasNodes(binding: Binding, a: nat, b: nat, c: nat)
    | Erred
    | Finished

  /** A change of a binding on the API server that the watch has yet to bring. */
  datatype Change = Change(key: Key, binding: Option<Binding>)

  /** Bookkeeping that no step looks at: the status writes and other edits of a binding, whether the
      last of them all was a write, and what the last write had read.
   */
  datatype Audit = Audit(writes: nat, edits: nat, own: bool, a: nat, b: nat, c: nat)

  datatype State = State(
    server: map<Key, Binding>,
    nextVersion: nat,
    watch: seq<Change>,
    bindings: map<Key, Binding>,  // the binding informer's cache
    services: seq<Services>,  // every content of the service informer's cache, the current one last
    slices: seq<Slices>,
    nodes: seq<Nodes>,
    pending: multiset<Event>,
    dirty: set<Key>,  // keys added to the queue since they were last taken
    retries: set<Key>,
    work: map<Key, Work>,  // keys being processed
    audit: map<Key, Audit>)

  datatype Step =
    | EditBinding(key: Key, edited: Option<Binding>)
    | Watch
    | EditService(key: Key, service: Option<Service>)
    | EditSlice(key: Key, labelled: Option<Labelled>)
    | EditNode(name: string, node: Option<Node>)
    | Notify(event: Event)
    | Take(key: Key)
    | ReadBinding(key: Key)
    | ReadService(key: Key)
    | ReadSlices(key: Key)
    | ReadNodes(key: Key)
    | Update(key: Key)
    | Fail(key: Key)
    | Requeue(key: Key)
    | Done(key: Key)
    | Retry(key: Key)

  function Last<T>(s: seq<T>): T
    requires s != []
  {
    s[|s| - 1]
  }

  function Put<K, V>(m: map<K, V>, k: K, v: Option<V>): map<K, V> {
    if v.Some? then m[k := v.value] else m - {k}
  }

  ghost predicate WellFormed(s: State) {
    && s.services != [] && s.slices != [] && s.nodes != []
    && forall k | k in s.work :: WorkWellFormed(s, k, s.work[k])
  }

  ghost predicate WorkWellFormed(s: State, key: Key, w: Work) {
    && (w.HasService? || w.HasSlices? || w.HasNodes? ==> w.a < |s.services| && ServiceKey(key, w.binding) in s.services[w.a])
    && (w.HasSlices? || w.HasNodes? ==> w.b < |s.slices|)
    && (w.HasNodes? ==> w.c < |s.nodes|)
  }

  ghost predicate Enabled(s: State, step: Step)
    requires WellFormed(s)
  {
    match step
    case EditBinding(key, edited) => edited.None? ==> key in s.server
    case Watch => s.watch != []
    case EditService(key, service) => key.name != ""
    case EditSlice(key, labelled) => labelled.None? ==> key in Last(s.slices)
    case EditNode(_, _) => true
    case Notify(event) => event in s.pending
    case Take(key) => key in s.dirty && key !in s.work
    case ReadBinding(key) => key in s.work && s.work[key] == Began
    case ReadService(key) => key in s.work && s.work[key].HasBinding?
    case ReadSlices(key) => key in s.work && s.work[key].HasService?
    case ReadNodes(key) => key in s.work && s.work[key].HasSlices?
    case Update(key) => key in s.work && s.work[key].HasNodes?
    case Fail(key) => key in s.work && s.work[key].HasNodes?
    case Requeue(key) => key in s.work && s.work[key] == Erred
    case Done(key) => key in s.work && s.work[key] == Finished
    case Retry(key) => key in s.retries
  }

  /** Which keys the handler of an event adds to the queue, going by the current binding cache. */
  predicate Affects(bindings: map<Key, Binding>, e: Event, key: Key) {
    match e
    case BindingEvent(k) => k == key
    case ServiceEvent(k) => key in bindings && ServiceKey(key, bindings[key]) == k
    case SliceEvent(ns, name) => name != "" && key in bindings && ServiceKey(key, bindings[key]) == Key(ns, name)
    case NodeEvent => key in bindings
  }

  function Affected(bindings: map<Key, Binding>, e: Event): set<Key> {
    if e.BindingEvent? then {e.key} else set key | key in bindings && Affects(bindings, e, key)
  }

  /** The handlers see the new object of an update and the last known one of a deletion. */
  function SliceEventOf(slices: Slices, key: Key, labelled: Option<Labelled>): Event
    requires labelled.None? ==> key in slices
  {
    SliceEvent(key.namespace, if labelled.Some? then labelled.value.serviceName else slices[key].serviceName)
  }

  function AuditOf(s: State, key: Key): Audit {
    if key in s.audit then s.audit[key] else Audit(0, 0, false, 0, 0, 0)
  }

  ghost function Apply(s: State, step: Step): State
    requires WellFormed(s) && Enabled(s, step)
  {
    match step
    case EditBinding(key, edited) =>
      var b := if edited.None? then None else Some(edited.value.(version := s.nextVersion));
      s.(server := Put(s.server, key, b), nextVersion := s.nextVersion + 1, watch := s.watch + [Change(key, b)],
         audit := s.audit[key := AuditOf(s, key).(edits := AuditOf(s, key).edits + 1, own := false)])
    case Watch =>
      s.(watch := s.watch[1..], bindings := Put(s.bindings, s.watch[0].key, s.watch[0].binding),
         pending := s.pending + multiset{BindingEvent(s.watch[0].key)})
    case EditService(key, service) =>
      s.(services := s.services + [Put(Last(s.services), key, service)], pending := s.pending + multiset{ServiceEvent(key)})
    case EditSlice(key, labelled) =>
      s.(slices := s.slices + [Put(Last(s.slices), key, labelled)],
         pending := s.pending + multiset{SliceEventOf(Last(s.slices), key, labelled)})
    case EditNode(name, node) =>
      s.(nodes := s.nodes + [Put(Last(s.nodes), name, node)], pending := s.pending + multiset{NodeEvent})
    case Notify(event) =>
      s.(pending := s.pending - multiset{event}, dirty := s.dirty + Affected(s.bindings, event))
    case Take(key) => s.(dirty := s.dirty - {key}, work := s.work[key := Began])
    case ReadBinding(key) =>
      s.(work := s.work[key := if key in s.bindings then HasBinding(s.bindings[key]) else Finished])
    case ReadService(key) =>
      var binding := s.work[key].binding;
      s.(work := s.work[key := if ServiceKey(key, binding) in Last(s.services) then HasService(binding, |s.services| - 1) else Erred])
    case ReadSlices(key) =>
      s.(work := s.work[key := HasSlices(s.work[key].binding, s.work[key].a, |s.slices| - 1)])
    case ReadNodes(key) =>
      var w := s.work[key];
      s.(work := s.work[key := HasNodes(w.binding, w.a, w.b, |s.nodes| - 1)])
    case Update(key) => Updated(s, key)
    case Fail(key) => s.(work := s.work[key := Erred])
    case Requeue(key) => s.(retries := s.retries + {key}, work := s.work[key := Finished])
    case Done(key) => s.(work := s.work - {key})
    case Retry(key) => s.(retries := s.retries - {key}, dirty := s.dirty + {key})
  }

  /** What a worker that has read everything wants the status to be. */
  ghost function Wanted(s: State, key: Key): Result<Status, ResolveError>
    requires WellFormed(s) && key in s.work && s.work[key].HasNodes?
  {
    var w := s.work[key];
    Desired(key, w.binding, s.services[w.a], s.slices[w.b], s.nodes[w.c])
  }

  /** reconcile from the resolution on, with updateStatus: no write when the status read already is the
      desired one, a conflict when the server has moved on from the version read.
   */
  ghost function Updated(s: State, key: Key): State
    requires WellFormed(s) && key in s.work && s.work[key].HasNodes?
  {
    var w, wanted := s.work[key], Wanted(s, key);
    if wanted.Failure? || w.binding.status == Some(wanted.value) then s.(work := s.work[key := Finished])
    else if key in s.server && s.server[key].version == w.binding.version then
      var b := w.binding.(version := s.nextVersion, status := Some(wanted.value));
      s.(server := s.server[key := b], nextVersion := s.nextVersion + 1, watch := s.watch + [Change(key, Some(b))],
         work := s.work[key := Finished],
         audit := s.audit[key := Audit(AuditOf(s, key).writes + 1, AuditOf(s, key).edits, true, w.a, w.b, w.c)])
    else s.(work := s.work[key := Erred])
  }
}
