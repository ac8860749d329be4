/** The sequential code of the TargetGroupBinding controller: the event handlers that fill the work
    queue, and one reconcile with its status write (internal/agent/targetgroupbindingcontroller.go).
 */
module TargetGroupBindingWorker {
  import opened Sequences
  import opened TargetGroupBindingControllers
  import opened TargetGroupBindings
  import opened Wrappers

  /** client-go's work queue, by its documented contract: a key is queued once however often it is added,
      no key is processed twice at a time, and a key added while it is processed is queued again after.
   */
  class WorkQueue {
    var queue: seq<Key>
    var dirty: set<Key>
    var processing: set<Key>

    ghost predicate Valid()
      reads this
    {
      && (forall i, j | 0 <= i < j < |queue| :: queue[i] != queue[j])
      && (forall k :: k in queue <==> k in dirty && k !in processing)
    }

    constructor ()
      ensures Valid() && queue == [] && dirty == {} && processing == {}
    {
      queue, dirty, processing := [], {}, {};
    }

    method Add(key: Key)
      requires Valid()
      modifies this
      ensures Valid() && dirty == old(dirty) + {key} && processing == old(processing)
      ensures old(queue) <= queue
    {
      if key in dirty {
        return;
      }
      dirty := dirty + {key};
      if key in processing {
        return;
      }
      queue := queue + [key];
    }

    method Get() returns (key: Key)
      requires Valid() && queue != []
      modifies this
      ensures Valid() && key in old(dirty) && key !in old(processing)
      ensures dirty == old(dirty) - {key} && processing == old(processing) + {key}
    {
      key := queue[0];
      assert forall k :: k in queue <==> k == key || k in queue[1..];
      queue := queue[1..];
      dirty := dirty - {key};
      processing := processing + {key};
    }

    method Done(key: Key)
      requires Valid() && key in processing
      modifies this
      ensures Valid() && dirty == old(dirty) && processing == old(processing) - {key}
      ensures key in dirty ==> key in queue
    {
      processing := processing - {key};
      if key in dirty {
        queue := queue + [key];
      }
    }
  }

  /** enqueueTargetGroupBindingsForServiceName, over the indexer in whatever order. */
  method EnqueueForServiceName(queue: WorkQueue, bindings: map<Key, Binding>, namespace: string, serviceName: string)
    requires queue.Valid()
    modifies queue
    ensures queue.Valid() && queue.processing == old(queue.processing)
    ensures queue.dirty == old(queue.dirty) + set key | key in bindings && ServiceKey(key, bindings[key]) == Key(namespace, serviceName)
  {
    var todo := bindings.Keys;
    while todo != {}
      invariant queue.Valid() && queue.processing == old(queue.processing) && todo <= bindings.Keys
      invariant queue.dirty == old(queue.dirty)
                + set key | key in bindings && key !in todo && ServiceKey(key, bindings[key]) == Key(namespace, serviceName)
    {
      var key :| key in todo;
      todo := todo - {key};
      if key.namespace != namespace {
        continue;
      }
      if bindings[key].serviceName != serviceName {
        continue;
      }
      queue.Add(key);
    }
  }

  method EnqueueForEndpointSlice(queue: WorkQueue, bindings: map<Key, Binding>, namespace: string, serviceName: string)
    requires queue.Valid()
    modifies queue
    ensures queue.Valid() && queue.processing == old(queue.processing)
    ensures queue.dirty == old(queue.dirty) + Affected(bindings, SliceEvent(namespace, serviceName))
  {
    if serviceName == "" {
      return;
    }
    EnqueueForServiceName(queue, bindings, namespace, serviceName);
  }

  method EnqueueAll(queue: WorkQueue, bindings: map<Key, Binding>)
    requires queue.Valid()
    modifies queue
    ensures queue.Valid() && queue.processing == old(queue.processing)
    ensures queue.dirty == old(queue.dirty) + bindings.Keys
  {
    var todo := bindings.Keys;
    while todo != {}
      invariant queue.Valid() && queue.processing == old(queue.processing) && todo <= bindings.Keys
      invariant queue.dirty == old(queue.dirty) + (bindings.Keys - todo)
    {
      var key :| key in todo;
      todo := todo - {key};
      queue.Add(key);
    }
  }

  /** The four handlers: each adds exactly the keys its event affects. */
  method Handle(queue: WorkQueue, bindings: map<Key, Binding>, event: Event)
    requires queue.Valid()
    modifies queue
    ensures queue.Valid() && queue.processing == old(queue.processing)
    ensures queue.dirty == old(queue.dirty) + Affected(bindings, event)
  {
    match event
    case BindingEvent(key) => queue.Add(key);
    case ServiceEvent(key) => EnqueueForServiceName(queue, bindings, key.namespace, key.name);
    case SliceEvent(namespace, serviceName) => EnqueueForEndpointSlice(queue, bindings, namespace, serviceName);
    case NodeEvent => EnqueueAll(queue, bindings);
  }

  // ---------------------------------------------------------------- one reconcile

  /** The bindings on the API server. */
  class BindingApi {
    var server: map<Key, Binding>
    var nextVersion: nat

    constructor (server: map<Key, Binding>, nextVersion: nat)
      ensures this.server == server && this.nextVersion == nextVersion
    {
      this.server, this.nextVersion := server, nextVersion;
    }

    /** Conditional on the resourceVersion of the copy; may also fail for other reasons. */
    method UpdateStatus(key: Key, updated: Binding) returns (ok: bool)
      modifies this
      ensures !ok ==> server == old(server) && nextVersion == old(nextVersion)
      ensures ok ==> key in old(server) && old(server)[key].version == updated.version
      ensures ok ==> server == old(server)[key := updated.(version := old(nextVersion))] && nextVersion == old(nextVersion) + 1
    {
      if key !in server || server[key].version != updated.version {
        return false;
      }
      if * {
        return false;
      }
      server := server[key := updated.(version := nextVersion)];
      nextVersion := nextVersion + 1;
      ok := true;
    }
  }

  /** A lister walks its cache in whatever order. */
  method List<K(!new, ==), V>(m: map<K, V>) returns (listed: seq<V>, ghost keys: seq<K>)
    ensures Lists(keys, m) && listed == Values(keys, m)
  {
    listed, keys := [], [];
    var todo := m.Keys;
    while todo != {}
      invariant todo <= m.Keys
      invariant Distinct(keys)
      invariant forall k :: k in keys <==> k in m && k !in todo
      invariant listed == Values(keys, m)
    {
      var k :| k in todo;
      todo := todo - {k};
      FlattenLast(One(m), keys, k);
      DistinctSnoc(keys, k);
      listed, keys := listed + [m[k]], keys + [k];
    }
  }

  /** updateStatus: no write when the status read back already is the desired one. */
  method WriteStatus(api: BindingApi, key: Key, binding: Binding, desired: Status) returns (ok: bool)
    modifies api
    ensures binding.status == Some(desired) ==> ok && api.server == old(api.server) && api.nextVersion == old(api.nextVersion)
    ensures !ok ==> api.server == old(api.server) && api.nextVersion == old(api.nextVersion)
    ensures ok && binding.status != Some(desired) ==>
              && key in old(api.server) && old(api.server)[key].version == binding.version
              && api.server == old(api.server)[key := binding.(version := old(api.nextVersion), status := Some(desired))]
  {
    if binding.status == Some(desired) {
      return true;
    }
    ok := api.UpdateStatus(key, binding.(status := Some(desired)));
  }

  /** reconcile, undisturbed: an error, which requeues the key, leaves the server alone; success leaves the
      binding with the desired status, or alone when there is nothing to resolve or to change.
   */
  method Reconcile(api: BindingApi, key: Key, bindings: map<Key, Binding>, services: Services, slices: Slices, nodes: Nodes)
    returns (ok: bool)
    modifies api
    ensures key !in bindings ==> ok
    ensures key in bindings && ServiceKey(key, bindings[key]) !in services ==> !ok
    ensures key !in bindings || ServiceKey(key, bindings[key]) !in services || !ok ==> api.server == old(api.server)
    ensures key in bindings && ServiceKey(key, bindings[key]) in services && ok ==>
              var wanted := Desired(key, bindings[key], services, slices, nodes);
              if wanted.Failure? || bindings[key].status == Some(wanted.value) then api.server == old(api.server)
              else && key in old(api.server) && old(api.server)[key].version == bindings[key].version
                   && api.server == old(api.server)[key :=
                        bindings[key].(version := old(api.nextVersion), status := Some(wanted.value))]
  {
    if key !in bindings {
      return true;
    }
    var binding := bindings[key];
    if ServiceKey(key, binding) !in services {
      return false;
    }
    var service := services[ServiceKey(key, binding)];
    var listedSlices, sliceKeys := List(Of(slices, key.namespace, binding.serviceName));
    var listedNodes, nodeKeys := List(nodes);
    DesiredAnyOrder(key, binding, services, slices, nodes, sliceKeys, nodeKeys);
    var targets, targetType := ResolveTargets(service, binding.port, binding.targetType, listedSlices, listedNodes);
    if targets.Failure? {
      return true;
    }
    ok := WriteStatus(api, key, binding, Status(binding.generation, targets.value, targetType));
  }
}
